/** GelatoExecutors: staking and batch reassignment of providers. */
module Executors {
  import opened Evm
  import opened GelatoState
  import opened Providers

  function StakeExecutor(s: State, sender: Address, value: uint256): Outcome<State> {
    var newStake := Wrap(s.ExecutorStake(sender) + value);
    if newStake < s.params.minExecutorStake then Revert(BelowMinStake)
    else Ok(s.(money := s.money.(executorStake := s.money.executorStake[sender := newStake])))
  }

  /** Books the withdrawal of the whole stake; the ether is sent afterwards. */
  function UnstakeExecutor(s: State, sender: Address): Outcome<(State, uint256)> {
    if s.IsExecutorAssigned(sender) then Revert(StillAssigned)
    else
      var unbonded := s.ExecutorStake(sender);
      if unbonded == 0 then Revert(AlreadyUnstaked)
      else Ok((s.(money := s.money.(executorStake := s.money.executorStake[sender := 0])), unbonded))
  }

  /** Books a withdrawal clamped to the stake above the minimum. */
  function WithdrawExcessExecutorStake(s: State, sender: Address, amount: uint256): Outcome<(State, uint256)> {
    if !s.IsExecutorMinStaked(sender) then Revert(NotMinStaked)
    else
      var current := s.ExecutorStake(sender);
      var paid: uint256 := Min(amount, current - s.params.minExecutorStake);
      Ok((s.(money := s.money.(executorStake := s.money.executorStake[sender := current - paid])), paid))
  }

  function MultiReassignProviders(s: State, sender: Address, providers: seq<Address>, newExecutor: Address): (r: Outcome<State>)
    ensures r.Ok? ==> r.value == s.(assign := r.value.assign)
    decreases |providers|
  {
    if providers == [] then Ok(s)
    else
      var t :- ExecutorAssignsExecutor(s, sender, providers[0], newExecutor);
      MultiReassignProviders(t, sender, providers[1..], newExecutor)
  }
}
