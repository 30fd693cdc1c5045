/** Who can take whose money: a stake falls only by its executor's own withdrawals, a provider's
    funds only by its own withdrawals and by execs of its tasks, and the administrator's fees
    only by a withdrawal of the administrator. */
module Deposits {
  import opened Evm
  import opened GelatoTypes
  import opened GelatoState
  import opened SysAdmin
  import opened Providers
  import opened Core
  import opened Invariants
  import opened Reachability
  import opened Guarantees
  import ModuleSet

  datatype Account = StakeOf(executor: Address) | FundsOf(provider: Address) | AdminFunds

  function Holds(m: Money, a: Account): uint256 {
    match a
    case StakeOf(e) => Get(m.executorStake, e)
    case FundsOf(p) => Get(m.providerFunds, p)
    case AdminFunds => m.sysAdminFunds
  }

  /** Some call of the transaction, or of one it triggers, may take money out of the account. */
  ghost predicate Draws(tx: Tx, a: Account)
    decreases tx
  {
    match tx.call
    case UnstakeExecutorCall(payout) => a == StakeOf(tx.sender) || DrawnIn(payout.nested, a)
    case WithdrawExcessExecutorStakeCall(_, payout) => a == StakeOf(tx.sender) || DrawnIn(payout.nested, a)
    case UnprovideFundsCall(_, payout) => a == FundsOf(tx.sender) || DrawnIn(payout.nested, a)
    case MultiUnprovideCall(_, _, _, payout) => a == FundsOf(tx.sender) || DrawnIn(payout.nested, a)
    case WithdrawSysAdminFundsCall(_, payout) => a == AdminFunds || DrawnIn(payout.nested, a)
    case ExecCall(r, env) => a == FundsOf(r.provider.addr) || DrawnIn(env.proxyCall.nested, a)
    case _ => false
  }

  ghost predicate DrawnIn(txs: seq<Tx>, a: Account)
    decreases txs
  {
    txs != [] && (Draws(txs[0], a) || DrawnIn(txs[1..], a))
  }

  // ----- single calls -----

  lemma FundingAdds(s: State, sender: Address, call: Call, a: Account)
    requires Inv(s) && sender != ZERO_ADDRESS && IsFunding(call) && ApplyLocal(s, sender, call).Ok?
    ensures Holds(s.money, a) <= Holds(ApplyLocal(s, sender, call).value.money, a)
  {
    hide Inv, Reassign, HashTaskSpec;
    match call
    case StakeExecutorCall(value) => StakeKeeps(s, sender, value);
    case _ =>
  }

  lemma OthersLeaveMoney(s: State, sender: Address, call: Call)
    requires IsLocal(call) && !IsFunding(call) && ApplyLocal(s, sender, call).Ok?
    ensures ApplyLocal(s, sender, call).value.money == s.money
  {
    hide HashTaskSpec, Reassign, Wrap, ModuleSet.Add, ModuleSet.Remove, SelfProviderGasDefaults;
  }

  lemma BookedSpares(s: State, tx: Tx, a: Account)
    requires IsPayout(tx.call) && Booked(s, tx).Ok? && !Draws(tx, a)
    ensures Holds(Booked(s, tx).value.0.money, a) == Holds(s.money, a)
  {
  }

  lemma PaymentSpares(t: State, sender: Address, provider: Address, pay: ExecutorPay, gasUsed: Gas, gasLimit: uint256, gasPrice: uint256, a: Account)
    requires Inv(t) && a != FundsOf(provider)
    requires ProcessProviderPayables(t, sender, provider, pay, gasUsed, gasLimit, gasPrice).Ok?
    ensures Holds(t.money, a) <= Holds(ProcessProviderPayables(t, sender, provider, pay, gasUsed, gasLimit, gasPrice).value.money, a)
  {
    hide Inv, Mul;
    var capped := CappedGasUsed(gasUsed, gasLimit);
    if pay == Reward {
      PaymentsAreExact(t, provider, sender, ExecutorSuccessFee(t.params, capped, gasPrice).value, SysAdminSuccessFee(t.params, capped, gasPrice).value);
    } else {
      PaymentsAreExact(t, provider, sender, SafeMul(capped, gasPrice).value, 0);
    }
  }

  /** From where and for what an exec that went through was paid, if at all. */
  function Payment(s: State, sender: Address, r: TaskReceipt, env: ExecEnv, gasLimit: uint256, gasPrice: uint256): Outcome<State> {
    match ExecutionWrapper(s, r, gasLimit, gasPrice, env)
    case Ok(CanExecFailed(_)) => Ok(s)
    case Ok(ExecSuccess(t)) => ProcessProviderPayables(t, sender, r.provider.addr, Reward, env.gasUsed, gasLimit, gasPrice)
    case Revert(_) =>
      if env.startGas < gasLimit then Ok(s)
      else ProcessProviderPayables(DropTaskReceipt(s, r.id), sender, r.provider.addr, Refund, env.gasUsed, gasLimit, gasPrice)
  }

  lemma MoneyAfterExec(s: State, sender: Address, r: TaskReceipt, env: ExecEnv, gasLimit: uint256, gasPrice: uint256)
    requires env.Plausible() && Exec(s, sender, r, env).Ok?
    requires OraclePrice(env) == Ok(gasPrice) && GasLimit(s, r) == Ok(gasLimit)
    ensures Payment(s, sender, r, env, gasLimit, gasPrice).Ok?
    ensures Exec(s, sender, r, env).value.money == Payment(s, sender, r, env, gasLimit, gasPrice).value.money
  {
    hide ExecutionWrapper, ProcessProviderPayables, OraclePrice, GasLimit;
  }

  // ----- every transaction -----

  lemma {:induction false} SendValueSparesFunds(t: State, amount: uint256, payout: Reply, a: Account)
    requires Owes(t, amount) && SendValue(t, amount, payout).Ok? && !DrawnIn(payout.nested, a)
    ensures Holds(t.money, a) <= Holds(SendValue(t, amount, payout).value.money, a)
    decreases payout, 1
  {
    hide Inv;
    RunAllSparesFunds(t.(money := t.money.(balance := t.money.balance - amount)), payout.nested, a);
  }

  lemma {:induction false} ExecTaskSparesFunds(s: State, r: TaskReceipt, env: ExecEnv, a: Account)
    requires Inv(s) && r.HasTask() && ExecTask(s, r, env).Ok? && !DrawnIn(env.proxyCall.nested, a)
    ensures Holds(s.money, a) <= Holds(ExecTask(s, r, env).value.money, a)
    decreases env, 1
  {
    hide Inv, Evolves;
    DeletingKeeps(s, r.id);
    RunAllSparesFunds(DeleteTaskReceipt(s, r.id), env.proxyCall.nested, a);
  }

  lemma {:induction false} ExecSparesFunds(s: State, sender: Address, r: TaskReceipt, env: ExecEnv, a: Account)
    requires Inv(s) && env.Plausible() && Exec(s, sender, r, env).Ok?
    requires a != FundsOf(r.provider.addr) && !DrawnIn(env.proxyCall.nested, a)
    ensures Holds(s.money, a) <= Holds(Exec(s, sender, r, env).value.money, a)
    decreases env, 3
  {
    ExecChecks(s, sender, r, env);
    hide Inv, Evolves, Exec, ExecTask, CanExec, Holds, ProcessProviderPayables, OraclePrice, GasLimit;
    var gasPrice, gasLimit := OraclePrice(env).value, GasLimit(s, r).value;
    MoneyAfterExec(s, sender, r, env, gasLimit, gasPrice);
    match ExecutionWrapper(s, r, gasLimit, gasPrice, env)
    case Ok(CanExecFailed(_)) =>
    case Ok(ExecSuccess(t)) =>
      ExecTaskSparesFunds(s, r, env, a);
      WrapperKeeps(s, r, gasLimit, gasPrice, env);
      PaymentSpares(t, sender, r.provider.addr, Reward, env.gasUsed, gasLimit, gasPrice, a);
    case Revert(_) =>
      if env.startGas >= gasLimit {
        DroppingKeeps(s, r.id);
        PaymentSpares(DropTaskReceipt(s, r.id), sender, r.provider.addr, Refund, env.gasUsed, gasLimit, gasPrice, a);
      }
  }

  lemma {:induction false} MultiUnprovideSparesFunds(s: State, sender: Address, amount: uint256, specs: seq<TaskSpec>,
                                                     modules: seq<Address>, payout: Reply, a: Account)
    requires Inv(s) && MultiUnprovide(s, sender, amount, specs, modules, payout).Ok?
    requires a != FundsOf(sender) && !DrawnIn(payout.nested, a)
    ensures Holds(s.money, a) <= Holds(MultiUnprovide(s, sender, amount, specs, modules, payout).value.money, a)
    decreases payout, 2
  {
    hide Inv, SendValue;
    if amount != 0 {
      UnprovideOwes(s, sender, amount);
      var (t, paid) := UnprovideFunds(s, sender, amount);
      SendValueSparesFunds(t, paid, payout, a);
    }
  }

  lemma {:induction false} PayoutSparesFunds(s: State, tx: Tx, a: Account)
    requires Inv(s) && IsPayout(tx.call) && Apply(s, tx).Ok? && !Draws(tx, a)
    ensures Holds(s.money, a) <= Holds(Apply(s, tx).value.money, a)
    decreases tx, 0
  {
    hide Inv, Apply, SendValue, Holds, Booked;
    var t, paid := PaidOut(s, tx);
    BookedSpares(s, tx, a);
    SendValueSparesFunds(t, paid, tx.call.payout, a);
  }

  lemma {:induction false} ApplySparesFunds(s: State, tx: Tx, a: Account, t: State)
    requires Inv(s) && Apply(s, tx) == Ok(t) && !Draws(tx, a)
    ensures Holds(s.money, a) <= Holds(t.money, a)
    decreases tx, 1
  {
    hide Inv, Holds, ApplyLocal;
    var Tx(sender, call) := tx;
    if IsLocal(call) {
      ApplyIsLocal(s, tx);
      if IsFunding(call) {
        FundingAdds(s, sender, call, a);
      } else {
        OthersLeaveMoney(s, sender, call);
      }
    } else if call.MultiUnprovideCall? {
      MultiUnprovideSparesFunds(s, sender, call.amount, call.specs, call.modules, call.payout, a);
    } else if call.ExecCall? {
      ExecSparesFunds(s, sender, call.receipt, call.env, a);
    } else {
      PayoutSparesFunds(s, tx, a);
    }
  }

  lemma {:induction false} RunAllSparesFunds(s: State, txs: seq<Tx>, a: Account)
    requires Inv(s) && !DrawnIn(txs, a)
    ensures Holds(s.money, a) <= Holds(RunAll(s, txs).money, a)
    decreases txs, 0
  {
    hide Inv, Apply, Holds;
    if txs != [] {
      StepKeeps(s, txs[0]);
      if Apply(s, txs[0]).Ok? {
        ApplySparesFunds(s, txs[0], a, Apply(s, txs[0]).value);
      }
      RunAllSparesFunds(Step(s, txs[0]), txs[1..], a);
    }
  }

  // ----- on every run -----

  /** From any point of any run on, whatever anyone does, nested calls included: without a call
      of the executor itself that withdraws stake, its stake does not fall; without a withdrawal
      of the provider or an exec of one of its tasks, its funds do not fall; without a withdrawal
      of the administrator, the fees do not fall. */
  lemma NobodyTakesYourMoney(params: Params, txs: seq<Tx>, later: seq<Tx>, a: Account)
    requires !DrawnIn(later, a)
    ensures Holds(RunAll(Deployed(params), txs).money, a) <= Holds(RunAll(Deployed(params), txs + later).money, a)
  {
    hide RunAll, Deployed, Holds, Inv;
    DeployedIsValid(params);
    RunAllKeeps(Deployed(params), txs);
    RunsInSequence(Deployed(params), txs, later);
    RunAllSparesFunds(RunAll(Deployed(params), txs), later, a);
  }
}
