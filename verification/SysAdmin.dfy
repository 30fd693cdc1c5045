/** GelatoSysAdmin: system parameters and the fee formulas. */
module SysAdmin {
  import opened Evm
  import opened GelatoState

  /** Gas of the exec transaction that startGas does not see. */
  const EXEC_TX_OVERHEAD: nat := 55000

  function SetGelatoMaxGas(s: State, sender: Address, newMaxGas: uint256): Outcome<State> {
    if sender != s.params.owner then Revert(CallerIsNotTheOwner)
    else Ok(s.(params := s.params.(gelatoMaxGas := newMaxGas)))
  }

  function SetInternalGasRequirement(s: State, sender: Address, newRequirement: uint256): Outcome<State> {
    if sender != s.params.owner then Revert(CallerIsNotTheOwner)
    else Ok(s.(params := s.params.(internalGasRequirement := newRequirement)))
  }

  function SetMinExecutorStake(s: State, sender: Address, newMin: uint256): Outcome<State> {
    if sender != s.params.owner then Revert(CallerIsNotTheOwner)
    else
      Ok(s.(params := s.params.(minExecutorStake := newMin),
            logs := s.logs.(minStakeSet := s.logs.minStakeSet + [(s.params.minExecutorStake, newMin)])))
  }

  function SetExecutorSuccessShare(s: State, sender: Address, percentage: uint256): Outcome<State> {
    if sender != s.params.owner then Revert(CallerIsNotTheOwner)
    else
      Ok(s.(params := s.params.(executorSuccessShare := percentage,
                                totalSuccessShare := Wrap(percentage + s.params.sysAdminSuccessShare))))
  }

  function SetSysAdminSuccessShare(s: State, sender: Address, percentage: uint256): Outcome<State> {
    if sender != s.params.owner then Revert(CallerIsNotTheOwner)
    else
      Ok(s.(params := s.params.(sysAdminSuccessShare := percentage,
                                totalSuccessShare := Wrap(s.params.executorSuccessShare + percentage))))
  }

  /** Books the withdrawal; the ether is sent afterwards. */
  function WithdrawSysAdminFunds(s: State, sender: Address, amount: uint256): Outcome<(State, uint256)> {
    if sender != s.params.owner then Revert(CallerIsNotTheOwner)
    else
      var paid: uint256 := Min(amount, s.money.sysAdminFunds);
      Ok((s.(money := s.money.(sysAdminFunds := s.money.sysAdminFunds - paid)), paid))
  }

  function ExecutorSuccessFee(p: Params, gas: uint256, gasPrice: uint256): Outcome<uint256> {
    var estExecCost :- SafeMul(gas, gasPrice);
    var share :- SafeMul(estExecCost, p.executorSuccessShare);
    Ok(Wrap(estExecCost + share / 100))
  }

  function SysAdminSuccessFee(p: Params, gas: uint256, gasPrice: uint256): Outcome<uint256> {
    var estExecCost :- SafeMul(gas, gasPrice);
    var share :- SafeMul(estExecCost, p.sysAdminSuccessShare);
    Ok(share / 100)
  }
}
