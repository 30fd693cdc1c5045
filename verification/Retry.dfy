/** When exactly an execution succeeds, and that a receipt whose execution was refused or
    undone can be executed later, whatever happened in the meantime. */
module Retry {
  import opened Evm
  import opened GelatoTypes
  import opened GelatoState
  import opened Providers
  import opened Core
  import opened Invariants
  import opened Reachability
  import opened Guarantees
  import opened Custody
  import opened Removal
  import ModuleSet

  /** Everything canExec asks for except that the receipt is stored. */
  ghost predicate Fit(s: State, r: TaskReceipt, gasLimit: uint256, gasPrice: uint256, now: uint256, views: Views) {
    && s.IsExecutorMinStaked(s.ExecutorByProvider(r.provider.addr))
    && IsProviderLiquid(s, r.provider.addr, gasLimit, gasPrice)
    && r.HasTask() && (r.expiryDate == 0 || now < r.expiryDate)
    && ModuleSet.Contains(s.Modules(r.provider.addr), r.provider.providerModule)
    && (if r.SelfProvider() then gasPrice <= r.CurrentTask().selfProviderGasPriceCeil
        else && gasPrice <= s.GasPriceCeil(r.provider.addr, HashTaskSpec(CastTaskToSpec(r.CurrentTask())))
             && views.isProvided == Answered(true))
    && (forall i :: 0 <= i < |r.CurrentTask().conditions| ==> views.conditionOk(i) == Answered(true))
    && (forall i :: 0 <= i < |r.CurrentTask().actions| && r.CurrentTask().actions[i].termsOkCheck ==> views.termsOk(i) == Answered(true))
  }

  /** The wrapper's frame has enough gas, and the module and the proxy play along. */
  predicate PlaysAlong(env: ExecEnv) {
    && !env.outOfGas && env.payload.PayloadReady? && env.proxyCall.accepted
    && (env.payload.proxyReturndataCheck ==> env.execRevertCheckOk)
  }

  /** Everything a successful execution needs except that the receipt is stored. */
  ghost predicate Ready(s: State, sender: Address, r: TaskReceipt, env: ExecEnv)
    requires env.Plausible()
  {
    && Priced(env) && HasLimit(r)
    && var gasPrice, gasLimit := env.oracle.value, AskedGasLimit(s, r);
    && sender == s.ExecutorByProvider(r.provider.addr) && env.gasLeft >= s.params.internalGasRequirement
    && Fit(s, r, gasLimit, gasPrice, env.now, env.views) && PlaysAlong(env)
    && FeesAreThere(AfterExecution(s, r, env), r.provider.addr, env.gasUsed, gasLimit, gasPrice)
  }

  /** The receipt stored after `r`, the next task and one submission less, when `id` is next. */
  function Successor(r: TaskReceipt, id: nat): TaskReceipt {
    r.(id := id,
       index := if r.index == |r.tasks| - 1 then 0 else r.index + 1,
       submissionsLeft := if r.submissionsLeft == 0 then 0 else r.submissionsLeft - 1)
  }

  /** The storage after an execution: the receipt was taken out, whatever the proxy sent back in
      was run, and the successor was stored unless this was the last submission. */
  function AfterExecution(s: State, r: TaskReceipt, env: ExecEnv): State {
    var t := RunAll(s.(book := s.book.(taskReceiptHash := s.book.taskReceiptHash - {r.id})), env.proxyCall.nested);
    if r.submissionsLeft == 1 then t
    else
      var next := Successor(r, t.book.currentTaskReceiptId + 1);
      t.(book := Book(next.id, t.book.taskReceiptHash[next.id := next]), logs := t.logs.(submitted := t.logs.submitted + [next]))
  }

  lemma ExecutedTask(s: State, r: TaskReceipt, env: ExecEnv)
    requires r.HasTask()
    ensures ExecTask(s, r, env).Ok? <==> env.payload.PayloadReady? && env.proxyCall.accepted && (env.payload.proxyReturndataCheck ==> env.execRevertCheckOk)
    ensures ExecTask(s, r, env).Ok? ==> ExecTask(s, r, env).value == AfterExecution(s, r, env)
  {
    hide RunAll;
  }

  lemma FitAndStored(s: State, r: TaskReceipt, gasLimit: uint256, gasPrice: uint256, now: uint256, views: Views)
    ensures CanExec(s, Option.None, r, gasLimit, gasPrice, now, views) == Ok(OK) <==>
            s.IsLive(r) && Fit(s, r, gasLimit, gasPrice, now, views)
  {
    hide CanExec, MinExecProviderFunds, HashTaskSpec, CastTaskToSpec, ModuleSet.Contains;
    CanExecIsExact(s, Option.None, r, gasLimit, gasPrice, now, views);
  }

  lemma WrapperIsExact(s: State, r: TaskReceipt, gasLimit: uint256, gasPrice: uint256, env: ExecEnv)
    ensures var w := ExecutionWrapper(s, r, gasLimit, gasPrice, env);
            && (w.Ok? && w.value.ExecSuccess? <==>
                  s.IsLive(r) && Fit(s, r, gasLimit, gasPrice, env.now, env.views) && PlaysAlong(env))
            && (w.Ok? && w.value.ExecSuccess? ==> w.value.state == AfterExecution(s, r, env))
  {
    FitAndStored(s, r, gasLimit, gasPrice, env.now, env.views);
    assert Fit(s, r, gasLimit, gasPrice, env.now, env.views) ==> r.HasTask();
    hide CanExec, Fit, ExecTask, AfterExecution;
    if r.HasTask() {
      ExecutedTask(s, r, env);
    }
  }

  lemma ExecAfterSuccess(s: State, sender: Address, r: TaskReceipt, env: ExecEnv, gasLimit: uint256, gasPrice: uint256, t: State)
    requires env.Plausible() && OraclePrice(env) == Ok(gasPrice) && GasLimit(s, r) == Ok(gasLimit)
    requires ExecutionWrapper(s, r, gasLimit, gasPrice, env) == Ok(ExecSuccess(t))
    ensures Exec(s, sender, r, env).Ok? <==>
            && sender == s.ExecutorByProvider(r.provider.addr) && env.gasLeft >= s.params.internalGasRequirement
            && ProcessProviderPayables(t, sender, r.provider.addr, Reward, env.gasUsed, gasLimit, gasPrice).Ok?
  {
    hide ExecutionWrapper, ProcessProviderPayables, OraclePrice, GasLimit;
  }

  /** An exec call executes a receipt exactly if it is stored and everything is ready; the
      log then names it for the first time. */
  lemma ExecIsExact(s: State, sender: Address, r: TaskReceipt, env: ExecEnv)
    requires Inv(s) && sender != ZERO_ADDRESS && env.Plausible()
    ensures Exec(s, sender, r, env).Ok? && r.id in Exec(s, sender, r, env).value.logs.executed && r.id !in s.logs.executed <==>
            s.IsLive(r) && Ready(s, sender, r, env)
  {
    hide Exec, ExecutionWrapper, AfterExecution, Fit, PlaysAlong, OraclePrice, GasLimit, ProcessProviderPayables, Inv;
    if s.IsLive(r) {
      LiveIsNotExecuted(s, r);
    }
    ExecTerms(s, r, env);
    if Exec(s, sender, r, env).Ok? {
      ExecChecks(s, sender, r, env);
    }
    if Priced(env) && HasLimit(r) {
      var gasPrice, gasLimit := env.oracle.value, AskedGasLimit(s, r);
      WrapperIsExact(s, r, gasLimit, gasPrice, env);
      if Exec(s, sender, r, env).Ok? {
        AfterWrapper(s, sender, r, env, gasLimit, gasPrice);
      }
      match ExecutionWrapper(s, r, gasLimit, gasPrice, env)
      case Ok(CanExecFailed(_)) =>
      case Ok(ExecSuccess(t)) => {
        ExecAfterSuccess(s, sender, r, env, gasLimit, gasPrice, t);
        RewardRefusals(t, sender, r.provider.addr, env.gasUsed, gasLimit, gasPrice);
        if Exec(s, sender, r, env).Ok? {
          assert Exec(s, sender, r, env).value.logs.executed[|t.logs.executed|] == r.id;
        }
      }
      case Revert(_) =>
    }
  }

  /** Whenever exec executes a receipt: it was stored, unexpired and sent by the provider's
      min-staked executor; the storage afterwards is exactly the one the execution left, with the
      receipt logged as executed for the first time and both fees paid, at the oracle's price, for
      the gas used up to the asked limit. */
  lemma SuccessIsPaidOnce(s: State, sender: Address, r: TaskReceipt, env: ExecEnv)
    requires Inv(s) && sender != ZERO_ADDRESS && env.Plausible()
    requires Exec(s, sender, r, env).Ok? && r.id in Exec(s, sender, r, env).value.logs.executed && r.id !in s.logs.executed
    ensures s.IsLive(r) && (r.expiryDate == 0 || env.now < r.expiryDate)
    ensures s.ExecutorByProvider(r.provider.addr) == sender && s.IsExecutorMinStaked(sender)
    ensures Priced(env) && HasLimit(r)
    ensures var u, t := Exec(s, sender, r, env).value, AfterExecution(s, r, env);
            && u == t.(money := u.money, logs := t.logs.(executed := t.logs.executed + [r.id]))
            && r.id !in u.book.taskReceiptHash
            && Charged(t, u, sender, r, env, AskedGasLimit(s, r), env.oracle.value)
  {
    hide Inv, Evolves, Exec, ExecutionWrapper, AfterExecution, Charged, OraclePrice, GasLimit, ProcessProviderPayables;
    ExecIsExact(s, sender, r, env);
    ExecChecks(s, sender, r, env);
    var gasPrice, gasLimit := env.oracle.value, AskedGasLimit(s, r);
    WrapperIsExact(s, r, gasLimit, gasPrice, env);
    var t := AfterExecution(s, r, env);
    WrapperKeeps(s, r, gasLimit, gasPrice, env);
    RewardRefusals(t, sender, r.provider.addr, env.gasUsed, gasLimit, gasPrice);
    RewardIsExact(t, sender, r, env, gasLimit, gasPrice);
    StateAfterSuccess(s, sender, r, env, gasLimit, gasPrice, t);
    SameCharge(t, Exec(s, sender, r, env).value, sender, r, env, gasLimit, gasPrice);
  }

  lemma StateAfterSuccess(s: State, sender: Address, r: TaskReceipt, env: ExecEnv, gasLimit: uint256, gasPrice: uint256, t: State)
    requires env.Plausible() && OraclePrice(env) == Ok(gasPrice) && GasLimit(s, r) == Ok(gasLimit)
    requires ExecutionWrapper(s, r, gasLimit, gasPrice, env) == Ok(ExecSuccess(t)) && Exec(s, sender, r, env).Ok?
    ensures var v := ProcessProviderPayables(t, sender, r.provider.addr, Reward, env.gasUsed, gasLimit, gasPrice);
            v.Ok? && Exec(s, sender, r, env).value == v.value.(logs := v.value.logs.(executed := v.value.logs.executed + [r.id]))
  {
    hide ExecutionWrapper, ProcessProviderPayables, OraclePrice, GasLimit;
  }

  /** canExec refused, or the execution was undone below the gas limit, or the whole
      transaction was reverted. */
  predicate Refused(s: State, sender: Address, r: TaskReceipt, env: ExecEnv) {
    || sender == ZERO_ADDRESS || !env.Plausible() || Exec(s, sender, r, env).Revert?
    || (&& Priced(env) && HasLimit(r)
        && var verdict := CanExec(s, Option.None, r, AskedGasLimit(s, r), env.oracle.value, env.now, env.views);
        if Undone(s, r, env, AskedGasLimit(s, r), env.oracle.value) then env.startGas < AskedGasLimit(s, r)
        else verdict != Ok(OK))
  }

  /** How an exec ends that gets past its own checks. Refused by canExec, or undone below the gas
      limit, it goes through and changes nothing; undone from the limit on, it goes through if the
      refund can be paid; and otherwise if the fees can be paid after the execution. */
  lemma ExecOutcomes(s: State, sender: Address, r: TaskReceipt, env: ExecEnv)
    requires env.Plausible() && Priced(env) && HasLimit(r)
    requires sender == s.ExecutorByProvider(r.provider.addr) && env.gasLeft >= s.params.internalGasRequirement
    ensures var e, gasPrice, gasLimit := Exec(s, sender, r, env), env.oracle.value, AskedGasLimit(s, r);
            var refund := Mul(Min(env.gasUsed, gasLimit) + 55_000, gasPrice);
            if Undone(s, r, env, gasLimit, gasPrice) then
              if env.startGas < gasLimit then e == Ok(s)
              else if refund >= MODULUS then e == Revert(MultiplicationOverflow)
              else if s.ProviderFunds(r.provider.addr) < refund then e == Revert(ProviderFundsUnderflow)
              else e.Ok?
            else if CanExec(s, Option.None, r, gasLimit, gasPrice, env.now, env.views) != Ok(OK) then e == Ok(s)
            else e.Ok? <==> FeesAreThere(AfterExecution(s, r, env), r.provider.addr, env.gasUsed, gasLimit, gasPrice)
  {
    hide Exec, ExecutionWrapper, CanExec, Undone, Fit, AfterExecution, OraclePrice, GasLimit, ProcessProviderPayables, FeesAreThere, Mul;
    ExecTerms(s, r, env);
    var gasPrice, gasLimit := env.oracle.value, AskedGasLimit(s, r);
    UndoneIsExact(s, r, env, gasLimit, gasPrice);
    WrapperIsExact(s, r, gasLimit, gasPrice, env);
    OnlyOkGoesOn(s, r, gasLimit, gasPrice, env);
    ExecAfterWrapper(s, sender, r, env, gasLimit, gasPrice);
    match ExecutionWrapper(s, r, gasLimit, gasPrice, env)
    case Ok(CanExecFailed(_)) =>
    case Ok(ExecSuccess(t)) => FeesDecide(t, sender, r, env, gasLimit, gasPrice);
    case Revert(_) => RefundRefusals(DropTaskReceipt(s, r.id), sender, r.provider.addr, env.gasUsed, gasLimit, gasPrice);
  }

  lemma FeesDecide(t: State, sender: Address, r: TaskReceipt, env: ExecEnv, gasLimit: uint256, gasPrice: uint256)
    ensures ProcessProviderPayables(t, sender, r.provider.addr, Reward, env.gasUsed, gasLimit, gasPrice).Ok? <==>
            FeesAreThere(t, r.provider.addr, env.gasUsed, gasLimit, gasPrice)
  {
    hide ProcessProviderPayables, Mul;
    RewardRefusals(t, sender, r.provider.addr, env.gasUsed, gasLimit, gasPrice);
  }

  lemma ExecAfterWrapper(s: State, sender: Address, r: TaskReceipt, env: ExecEnv, gasLimit: uint256, gasPrice: uint256)
    requires env.Plausible() && OraclePrice(env) == Ok(gasPrice) && GasLimit(s, r) == Ok(gasLimit)
    requires sender == s.ExecutorByProvider(r.provider.addr) && env.gasLeft >= s.params.internalGasRequirement
    ensures var e, w := Exec(s, sender, r, env), ExecutionWrapper(s, r, gasLimit, gasPrice, env);
            && (w.Ok? && w.value.CanExecFailed? ==> e == Ok(s))
            && (w.Ok? && w.value.ExecSuccess? ==>
                  (e.Ok? <==> ProcessProviderPayables(w.value.state, sender, r.provider.addr, Reward, env.gasUsed, gasLimit, gasPrice).Ok?))
            && (w.Revert? && env.startGas < gasLimit ==> e == Ok(s))
            && (w.Revert? && env.startGas >= gasLimit ==>
                  e == ProcessProviderPayables(DropTaskReceipt(s, r.id), sender, r.provider.addr, Refund, env.gasUsed, gasLimit, gasPrice))
  {
    hide ExecutionWrapper, ProcessProviderPayables, OraclePrice, GasLimit, DropTaskReceipt;
  }

  lemma RefusedCostsNothing(s: State, sender: Address, r: TaskReceipt, env: ExecEnv)
    requires Refused(s, sender, r, env)
    ensures Step(s, Tx(sender, ExecCall(r, env))) == s
  {
    hide Exec, ExecutionWrapper, CanExec, Undone, OraclePrice, GasLimit;
    if sender != ZERO_ADDRESS && env.Plausible() {
      ExecStep(s, sender, r, env);
      if Exec(s, sender, r, env).Ok? {
        ExecChecks(s, sender, r, env);
        AfterWrapper(s, sender, r, env, AskedGasLimit(s, r), env.oracle.value);
        UndoneIsExact(s, r, env, AskedGasLimit(s, r), env.oracle.value);
        OnlyOkGoesOn(s, r, AskedGasLimit(s, r), env.oracle.value, env);
      }
    }
  }

  lemma OnlyOkGoesOn(s: State, r: TaskReceipt, gasLimit: uint256, gasPrice: uint256, env: ExecEnv)
    ensures var w := ExecutionWrapper(s, r, gasLimit, gasPrice, env);
            w.Ok? && w.value.ExecSuccess? ==> CanExec(s, Option.None, r, gasLimit, gasPrice, env.now, env.views) == Ok(OK)
  {
    hide CanExec, ExecTask;
  }

  /** A stored receipt stays stored through every run that does not execute, cancel or drop it. */
  lemma StaysStored(s: State, r: TaskReceipt, txs: seq<Tx>)
    requires Inv(s) && s.IsLive(r)
    ensures var v := RunAll(s, txs);
            Inv(v) && (v.IsLive(r) <==> r.id !in v.logs.executed && r.id !in v.logs.cancelled && r.id !in v.logs.dropped)
  {
    var v := RunAll(s, txs);
    assert Accounted(s, r.id) && r in s.logs.submitted;
    RunAllKeeps(s, txs);
    assert s.logs.submitted <= v.logs.submitted;
    hide Accounted, RunAll, Evolves;
    RunAllAccounts(s, txs, r.id);
    LiveOrGone(v, r);
  }

  /** A refused execution changes nothing. After any further run that did not execute, cancel or
      drop the receipt it is still stored, and the next exec executes it exactly if everything
      is ready then. */
  lemma RefusedMayComeAgain(s: State, sender: Address, r: TaskReceipt, env: ExecEnv, txs: seq<Tx>, later: Address, env': ExecEnv)
    requires Inv(s) && s.IsLive(r) && Refused(s, sender, r, env)
    requires later != ZERO_ADDRESS && env'.Plausible()
    ensures var v := RunAll(s, [Tx(sender, ExecCall(r, env))] + txs);
            r.id !in v.logs.executed && r.id !in v.logs.cancelled && r.id !in v.logs.dropped ==>
              && v.IsLive(r)
              && (Exec(v, later, r, env').Ok? && r.id in Exec(v, later, r, env').value.logs.executed <==> Ready(v, later, r, env'))
  {
    hide Inv, Exec, Ready, Refused, Step;
    var all := [Tx(sender, ExecCall(r, env))] + txs;
    assert all[0] == Tx(sender, ExecCall(r, env)) && all[1..] == txs;
    RefusedCostsNothing(s, sender, r, env);
    StaysStored(s, r, txs);
    var v := RunAll(s, all);
    assert v == RunAll(s, txs);
    hide RunAll;
    ExecIsExact(v, later, r, env');
  }
}
