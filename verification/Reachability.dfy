/** The invariants hold after every transaction, by induction over the transactions that
    run inside one another. */
module Reachability {
  import opened Evm
  import opened GelatoTypes
  import opened GelatoState
  import opened SysAdmin
  import opened Providers
  import opened Executors
  import opened Core
  import opened Invariants
  import ModuleSet

  /** The total share is the sum of the executor's and the system administrator's. */
  predicate SharesAgree(p: Params) {
    p.totalSuccessShare == Wrap(p.executorSuccessShare + p.sysAdminSuccessShare)
  }

  /** `t` is a valid state whose receipts evolved from those of `s`, whose fee shares add up if
      those of `s` did, and whose minimum stake only changed if the log says so. */
  ghost predicate Follows(s: State, t: State) {
    && Inv(t)
    && Evolves(s.book, s.logs, t.book, t.logs)
    && (SharesAgree(s.params) ==> SharesAgree(t.params))
    && (t.logs.minStakeSet == s.logs.minStakeSet ==> t.params.minExecutorStake == s.params.minExecutorStake)
  }

  lemma FollowsTransitive(s: State, t: State, u: State)
    requires Follows(s, t) && Follows(t, u)
    ensures Follows(s, u)
  {
    EvolvesTransitive(s, t, u);
  }

  lemma SameReceiptsFollow(s: State, t: State)
    requires Inv(t) && t.book == s.book && t.logs == s.logs && t.params == s.params
    ensures Follows(s, t)
  {
  }

  predicate IsSubmitting(call: Call) {
    call.SubmitTaskCall? || call.SubmitTaskCycleCall? || call.SubmitTaskChainCall?
  }

  lemma ReceiptsFollow(s: State, t: State)
    requires Inv(s) && t == s.(book := t.book, logs := t.logs) && t.logs.minStakeSet == s.logs.minStakeSet
    requires BookOk(t.book, t.logs) && Evolves(s.book, s.logs, t.book, t.logs)
    ensures Follows(s, t)
  {
    hide Solvent, CountsAgree, ModulesOk, BookOk, Evolves;
  }

  lemma ValidParts(s: State)
    requires Inv(s)
    ensures BookOk(s.book, s.logs) && ModulesOk(s.listings)
  {
  }

  lemma SubmissionKeeps(s: State, sender: Address, call: Call)
    requires Inv(s) && IsSubmitting(call)
    requires ApplyLocal(s, sender, call).Ok?
    ensures Follows(s, ApplyLocal(s, sender, call).value)
  {
    ValidParts(s);
    hide Inv, Follows, BookOk, Evolves, Defaulted, Wrap;
    match call {
      case SubmitTaskCall(provider, task, expiryDate) =>
        var tasks := Defaulted(s.params, sender, provider, [task]).value;
        StoreKeeps(s, false, sender, provider, 0, tasks, expiryDate, 0, 1);
      case SubmitTaskCycleCall(provider, tasks, expiryDate, cycles) =>
        var tasks' := Defaulted(s.params, sender, provider, tasks).value;
        StoreKeeps(s, true, sender, provider, 0, tasks', expiryDate, 0, Wrap(cycles * |tasks|));
      case SubmitTaskChainCall(provider, tasks, expiryDate, submits) =>
        var tasks' := Defaulted(s.params, sender, provider, tasks).value;
        StoreKeeps(s, true, sender, provider, 0, tasks', expiryDate, 0, submits);
    }
    ReceiptsFollow(s, ApplyLocal(s, sender, call).value);
  }

  predicate IsSetting(call: Call) {
    call.SetGelatoMaxGasCall? || call.SetInternalGasRequirementCall? || call.SetMinExecutorStakeCall?
    || call.SetExecutorSuccessShareCall? || call.SetSysAdminSuccessShareCall?
  }

  lemma MinStakeKeeps(s: State, sender: Address, newMin: uint256)
    requires Inv(s) && SetMinExecutorStake(s, sender, newMin).Ok?
    ensures Follows(s, SetMinExecutorStake(s, sender, newMin).value)
  {
    hide Solvent, CountsAgree, ModulesOk;
    var t := SetMinExecutorStake(s, sender, newMin).value;
    var k := |s.logs.minStakeSet|;
    assert t.logs.minStakeSet[k] == (s.params.minExecutorStake, newMin);
    assert forall i :: 0 <= i < k ==> t.logs.minStakeSet[i] == s.logs.minStakeSet[i];
    forall stake: nat | EverEnough(s, stake) ensures EverEnough(t, stake) {
      if stake >= s.params.minExecutorStake {
        assert stake >= t.logs.minStakeSet[k].0;
      }
    }
    assert AlwaysPositiveMinStake(t) ==> AlwaysPositiveMinStake(s);
  }

  lemma OtherParamsKeep(s: State, t: State)
    requires Inv(s) && t == s.(params := t.params) && t.params.minExecutorStake == s.params.minExecutorStake
    requires SharesAgree(s.params) ==> SharesAgree(t.params)
    ensures Follows(s, t)
  {
    hide Solvent, CountsAgree, ModulesOk;
  }

  lemma SettersKeep(s: State, sender: Address, call: Call)
    requires Inv(s) && IsSetting(call) && ApplyLocal(s, sender, call).Ok?
    ensures Follows(s, ApplyLocal(s, sender, call).value)
  {
    hide Inv, Evolves;
    if call.SetMinExecutorStakeCall? {
      MinStakeKeeps(s, sender, call.param);
    } else {
      OtherParamsKeep(s, ApplyLocal(s, sender, call).value);
    }
  }

  predicate IsFunding(call: Call) {
    call.StakeExecutorCall? || call.ProvideFundsCall? || call.MultiProvideCall? || call.ForcedEtherCall?
  }

  lemma ForcingKeeps(s: State, value: uint256)
    requires Inv(s) && ForceEther(s, value).Ok?
    ensures Inv(ForceEther(s, value).value)
  {
  }

  lemma MultiProvidingKeeps(s: State, sender: Address, call: Call)
    requires Inv(s) && call.MultiProvideCall? && ApplyLocal(s, sender, call).Ok?
    ensures Follows(s, ApplyLocal(s, sender, call).value)
  {
    hide Inv, Follows, Reassign, Wrap, HashTaskSpec;
    MultiProvideKeeps(s, sender, call.value, call.executor, call.specs, call.modules);
    SameReceiptsFollow(s, ApplyLocal(s, sender, call).value);
  }

  lemma FundingKeeps(s: State, sender: Address, call: Call)
    requires Inv(s) && sender != ZERO_ADDRESS && IsFunding(call) && ApplyLocal(s, sender, call).Ok?
    ensures Follows(s, ApplyLocal(s, sender, call).value)
  {
    hide Inv, Follows;
    if call.MultiProvideCall? {
      MultiProvidingKeeps(s, sender, call);
    } else {
      hide MultiProvide;
      match call {
        case StakeExecutorCall(value) => StakeKeeps(s, sender, value);
        case ProvideFundsCall(provider, value) => ProvideFundsKeeps(s, provider, value);
        case ForcedEtherCall(value) => ForcingKeeps(s, value);
      }
      SameReceiptsFollow(s, ApplyLocal(s, sender, call).value);
    }
  }

  predicate IsAssigning(call: Call) {
    call.MultiReassignProvidersCall? || call.ProviderAssignsExecutorCall? || call.ExecutorAssignsExecutorCall?
  }

  lemma AssigningKeeps(s: State, sender: Address, call: Call)
    requires Inv(s) && sender != ZERO_ADDRESS && IsAssigning(call) && ApplyLocal(s, sender, call).Ok?
    ensures Follows(s, ApplyLocal(s, sender, call).value)
  {
    match call
    case MultiReassignProvidersCall(providers, newExecutor) => MultiReassignKeeps(s, sender, providers, newExecutor);
    case ProviderAssignsExecutorCall(newExecutor) => ProviderAssignsKeeps(s, sender, newExecutor);
    case ExecutorAssignsExecutorCall(provider, newExecutor) => ExecutorAssignsKeeps(s, sender, provider, newExecutor);
  }

  predicate IsListing(call: Call) {
    call.ProvideTaskSpecsCall? || call.UnprovideTaskSpecsCall? || call.SetTaskSpecGasPriceCeilCall?
    || call.AddProviderModulesCall? || call.RemoveProviderModulesCall?
  }

  lemma ListingsFollow(s: State, t: State)
    requires Inv(s) && t == s.(listings := t.listings) && ModulesOk(t.listings)
    ensures Follows(s, t)
  {
    hide Solvent, CountsAgree, ModulesOk;
  }

  lemma SpecListingKeeps(s: State, sender: Address, call: Call)
    requires Inv(s) && (call.ProvideTaskSpecsCall? || call.UnprovideTaskSpecsCall? || call.SetTaskSpecGasPriceCeilCall?)
    requires ApplyLocal(s, sender, call).Ok?
    ensures Follows(s, ApplyLocal(s, sender, call).value)
  {
    ValidParts(s);
    hide Inv, Follows, ProvideTaskSpecs, UnprovideTaskSpecs;
    match call {
      case ProvideTaskSpecsCall(specs) => SpecsKeepModules(s, sender, specs);
      case UnprovideTaskSpecsCall(specs) => SpecsKeepModules(s, sender, specs);
      case SetTaskSpecGasPriceCeilCall(_, _) =>
    }
    ListingsFollow(s, ApplyLocal(s, sender, call).value);
  }

  lemma ModuleListingKeeps(s: State, sender: Address, call: Call)
    requires Inv(s) && (call.AddProviderModulesCall? || call.RemoveProviderModulesCall?)
    requires ApplyLocal(s, sender, call).Ok?
    ensures Follows(s, ApplyLocal(s, sender, call).value)
  {
    ValidParts(s);
    hide Inv, Follows, ModulesOk, AddProviderModules, RemoveProviderModules;
    match call {
      case AddProviderModulesCall(modules) => AddModulesKeep(s, sender, modules);
      case RemoveProviderModulesCall(modules) => RemoveModulesKeep(s, sender, modules);
    }
    ListingsFollow(s, ApplyLocal(s, sender, call).value);
  }

  predicate IsCancelling(call: Call) {
    call.CancelTaskCall? || call.MultiCancelTasksCall?
  }

  lemma SingleCancelKeeps(s: State, sender: Address, r: TaskReceipt)
    requires Inv(s) && CancelTask(s, sender, r).Ok?
    ensures Follows(s, CancelTask(s, sender, r).value)
  {
    hide Solvent, CountsAgree, ModulesOk, BookOk, Evolves;
    CancelKeeps(s, sender, r);
  }

  lemma CancellingKeeps(s: State, sender: Address, call: Call)
    requires Inv(s) && IsCancelling(call) && ApplyLocal(s, sender, call).Ok?
    ensures Follows(s, ApplyLocal(s, sender, call).value)
  {
    hide Inv, Evolves;
    match call
    case CancelTaskCall(receipt) => SingleCancelKeeps(s, sender, receipt);
    case MultiCancelTasksCall(receipts) => MultiCancelKeeps(s, sender, receipts);
  }

  /** No other local call touches a receipt. */
  lemma OtherLocalKeepsReceipts(s: State, sender: Address, call: Call)
    requires IsLocal(call) && !IsSubmitting(call) && !IsCancelling(call) && ApplyLocal(s, sender, call).Ok?
    ensures var t := ApplyLocal(s, sender, call).value;
            t.book == s.book && t.logs == s.logs.(minStakeSet := t.logs.minStakeSet)
  {
    hide HashTaskSpec, Reassign, Wrap, ModuleSet.Add, ModuleSet.Remove;
  }

  lemma LocalKeeps(s: State, sender: Address, call: Call)
    requires Inv(s) && sender != ZERO_ADDRESS && IsLocal(call) && ApplyLocal(s, sender, call).Ok?
    ensures Follows(s, ApplyLocal(s, sender, call).value)
  {
    if IsFunding(call) {
      FundingKeeps(s, sender, call);
    } else if IsAssigning(call) {
      AssigningKeeps(s, sender, call);
    } else if call.AddProviderModulesCall? || call.RemoveProviderModulesCall? {
      ModuleListingKeeps(s, sender, call);
    } else if IsListing(call) {
      SpecListingKeeps(s, sender, call);
    } else if IsCancelling(call) {
      CancellingKeeps(s, sender, call);
    } else if IsSubmitting(call) {
      SubmissionKeeps(s, sender, call);
    } else {
      SettersKeep(s, sender, call);
    }
  }

  /** A booked payout is always covered by the contract's balance; it fails only when the
      recipient refuses it. */
  lemma {:induction false} SendValueKeeps(s: State, amount: uint256, payout: Reply)
    requires Owes(s, amount)
    ensures var r := SendValue(s, amount, payout);
            && (r.Ok? <==> payout.accepted)
            && (r.Ok? ==> Follows(s, r.value))
            && (r.Revert? ==> r.error == UnableToSendValue)
    decreases payout, 1
  {
    hide Inv, Evolves;
    RunAllKeeps(s.(money := s.money.(balance := s.money.balance - amount)), payout.nested);
  }

  /** Neither of the proxy's transactions nor the resubmission brings a deleted receipt back. */
  ghost predicate Retired(s: State, id: nat) {
    id !in s.book.taskReceiptHash && id !in s.logs.executed && id !in s.logs.cancelled && id !in s.logs.dropped
  }

  lemma DeletingRetires(s: State, r: TaskReceipt)
    requires Inv(s) && s.IsLive(r)
    ensures var d := DeleteTaskReceipt(s, r.id); Follows(s, d) && Retired(d, r.id) && r.id <= d.book.currentTaskReceiptId
  {
    DeleteKeeps(s, r.id);
  }

  lemma RetiredForGood(d: State, t: State, id: nat)
    requires Follows(d, t) && Retired(d, id) && id <= d.book.currentTaskReceiptId
    ensures Retired(t, id)
  {
  }

  lemma SuccessorKeeps(t: State, r: TaskReceipt)
    requires Inv(t) && r.HasTask() && r.cycleId != 0 && r.cycleId <= t.book.currentTaskReceiptId
    ensures var left := if r.submissionsLeft == 0 then 0 else r.submissionsLeft - 1;
            Follows(t, StoreTaskReceipt(t, false, r.userProxy, r.provider, r.NextIndex(), r.tasks, r.expiryDate, r.cycleId, left))
  {
    var left := if r.submissionsLeft == 0 then 0 else r.submissionsLeft - 1;
    StoreKeeps(t, false, r.userProxy, r.provider, r.NextIndex(), r.tasks, r.expiryDate, r.cycleId, left);
  }

  /** Only receipts of cycles and chains are resubmitted. */
  lemma StoredReceipt(s: State, r: TaskReceipt)
    requires Inv(s) && s.IsLive(r)
    ensures r.cycleId <= s.book.currentTaskReceiptId && (r.submissionsLeft != 1 ==> r.cycleId != 0)
  {
    assert r == s.logs.submitted[r.id - 1];
  }

  lemma {:induction false} ExecTaskKeeps(s: State, r: TaskReceipt, env: ExecEnv)
    requires Inv(s) && s.IsLive(r) && r.HasTask() && ExecTask(s, r, env).Ok?
    ensures var t := ExecTask(s, r, env).value; Follows(s, t) && Retired(t, r.id)
    decreases env, 1
  {
    hide Inv, Retired;
    var d := DeleteTaskReceipt(s, r.id);
    DeletingRetires(s, r);
    RunAllKeeps(d, env.proxyCall.nested);
    var t := RunAll(d, env.proxyCall.nested);
    FollowsTransitive(s, d, t);
    RetiredForGood(d, t, r.id);
    StoredReceipt(s, r);
    if r.submissionsLeft != 1 {
      SuccessorKeeps(t, r);
      FollowsTransitive(s, t, ExecTask(s, r, env).value);
      RetiredForGood(t, ExecTask(s, r, env).value, r.id);
    }
  }

  lemma PayablesKeep(s: State, sender: Address, provider: Address, pay: ExecutorPay, gasUsed: Gas, gasLimit: uint256, gasPrice: uint256)
    requires Inv(s) && sender != ZERO_ADDRESS
    requires ProcessProviderPayables(s, sender, provider, pay, gasUsed, gasLimit, gasPrice).Ok?
    ensures var t := ProcessProviderPayables(s, sender, provider, pay, gasUsed, gasLimit, gasPrice).value;
            Inv(t) && t.book == s.book && t.logs == s.logs && t.params == s.params
  {
    var capped := CappedGasUsed(gasUsed, gasLimit);
    if pay == Reward {
      PayKeeps(s, provider, sender, ExecutorSuccessFee(s.params, capped, gasPrice).value, SysAdminSuccessFee(s.params, capped, gasPrice).value);
    } else {
      PayKeeps(s, provider, sender, SafeMul(capped, gasPrice).value, 0);
    }
  }

  /** canExec answers OK only for a receipt whose hash is stored. */
  lemma CanExecNeedsLive(s: State, caller: Option<Address>, r: TaskReceipt, gasLimit: uint256, gasPrice: uint256, now: uint256, views: Views)
    requires CanExec(s, caller, r, gasLimit, gasPrice, now, views) == Ok(OK)
    ensures s.IsLive(r) && r.HasTask()
  {
  }

  lemma ExecutedKeeps(s: State, t: State, r: TaskReceipt)
    requires Inv(s) && s.IsLive(r) && Follows(s, t) && Retired(t, r.id)
    ensures var l := t.logs.(executed := t.logs.executed + [r.id]);
            BookOk(t.book, l) && Evolves(s.book, s.logs, t.book, l)
  {
    ValidParts(s);
    ValidParts(t);
    hide Inv;
    LoggedExecution(t.book, t.logs, r.id);
    hide BookOk;
  }

  lemma LoggedExecution(b: Book, l: Logs, id: nat)
    requires BookOk(b, l) && 1 <= id <= b.currentTaskReceiptId
    requires id !in b.taskReceiptHash && id !in l.executed && id !in l.cancelled && id !in l.dropped
    ensures BookOk(b, l.(executed := l.executed + [id]))
  {
  }

  lemma ValidWith(u: State, l: Logs)
    requires Inv(u) && BookOk(u.book, l) && l.minStakeSet == u.logs.minStakeSet
    ensures Inv(u.(logs := l))
  {
    hide Solvent, CountsAgree, ModulesOk, BookOk;
  }

  /** Being paid and logged after the proxy has run keeps the invariants: nothing that ran
      in between could execute the receipt again. */
  lemma RewardKeeps(s: State, t: State, sender: Address, r: TaskReceipt, gasUsed: Gas, gasLimit: uint256, gasPrice: uint256)
    requires Inv(s) && sender != ZERO_ADDRESS && s.IsLive(r) && Follows(s, t)
    requires Retired(t, r.id)
    requires ProcessProviderPayables(t, sender, r.provider.addr, Reward, gasUsed, gasLimit, gasPrice).Ok?
    ensures var u := ProcessProviderPayables(t, sender, r.provider.addr, Reward, gasUsed, gasLimit, gasPrice).value;
            Follows(s, u.(logs := u.logs.(executed := u.logs.executed + [r.id])))
  {
    hide Inv, BookOk, Evolves, Retired, ProcessProviderPayables;
    PayablesKeep(t, sender, r.provider.addr, Reward, gasUsed, gasLimit, gasPrice);
    ExecutedKeeps(s, t, r);
    var u := ProcessProviderPayables(t, sender, r.provider.addr, Reward, gasUsed, gasLimit, gasPrice).value;
    ValidWith(u, t.logs.(executed := t.logs.executed + [r.id]));
  }

  lemma DeletingKeeps(s: State, id: nat)
    requires Inv(s)
    ensures Follows(s, DeleteTaskReceipt(s, id))
  {
    DeleteKeeps(s, id);
  }

  lemma DroppingKeeps(s: State, id: nat)
    requires Inv(s)
    ensures Follows(s, DropTaskReceipt(s, id))
  {
    hide BookOk, Evolves, Solvent, CountsAgree, ModulesOk;
    DropKeeps(s, id);
  }

  lemma RefundKeeps(s: State, sender: Address, r: TaskReceipt, gasLimit: uint256, gasPrice: uint256, env: ExecEnv)
    requires Inv(s) && sender != ZERO_ADDRESS && AfterRevert(s, sender, r, gasLimit, gasPrice, env).Ok?
    ensures Follows(s, AfterRevert(s, sender, r, gasLimit, gasPrice, env).value)
  {
    hide Inv, Evolves, ProcessProviderPayables;
    SameReceiptsFollow(s, s);
    if env.startGas >= gasLimit {
      var d := DropTaskReceipt(s, r.id);
      DroppingKeeps(s, r.id);
      var u := ProcessProviderPayables(d, sender, r.provider.addr, Refund, env.gasUsed, gasLimit, gasPrice).value;
      PayablesKeep(d, sender, r.provider.addr, Refund, env.gasUsed, gasLimit, gasPrice);
      SameReceiptsFollow(d, u);
      FollowsTransitive(s, d, u);
    }
  }

  lemma {:induction false} WrapperKeeps(s: State, r: TaskReceipt, gasLimit: uint256, gasPrice: uint256, env: ExecEnv)
    requires Inv(s)
    requires var w := ExecutionWrapper(s, r, gasLimit, gasPrice, env); w.Ok? && w.value.ExecSuccess?
    ensures var t := ExecutionWrapper(s, r, gasLimit, gasPrice, env).value.state;
            s.IsLive(r) && Follows(s, t) && Retired(t, r.id)
    decreases env, 2
  {
    CanExecNeedsLive(s, Option.None, r, gasLimit, gasPrice, env.now, env.views);
    ExecTaskKeeps(s, r, env);
  }

  lemma {:induction false} ExecKeeps(s: State, sender: Address, r: TaskReceipt, env: ExecEnv)
    requires Inv(s) && sender != ZERO_ADDRESS && env.Plausible() && Exec(s, sender, r, env).Ok?
    ensures Follows(s, Exec(s, sender, r, env).value)
    decreases env, 3
  {
    var gasPrice := OraclePrice(env).value;
    var gasLimit := GasLimit(s, r).value;
    match ExecutionWrapper(s, r, gasLimit, gasPrice, env)
    case Ok(CanExecFailed(_)) =>
    case Ok(ExecSuccess(t)) =>
      WrapperKeeps(s, r, gasLimit, gasPrice, env);
      RewardKeeps(s, t, sender, r, env.gasUsed, gasLimit, gasPrice);
    case Revert(_) =>
      RefundKeeps(s, sender, r, gasLimit, gasPrice, env);
  }

  lemma {:induction false} MultiUnprovideKeeps(s: State, sender: Address, amount: uint256, specs: seq<TaskSpec>, modules: seq<Address>, payout: Reply)
    requires Inv(s) && MultiUnprovide(s, sender, amount, specs, modules, payout).Ok?
    ensures Follows(s, MultiUnprovide(s, sender, amount, specs, modules, payout).value)
    decreases payout, 2
  {
    hide Inv, Evolves;
    var u := MultiUnprovide(s, sender, amount, specs, modules, payout).value;
    var s1 := s;
    SameReceiptsFollow(s, s);
    if amount != 0 {
      UnprovideOwes(s, sender, amount);
      var (t, paid) := UnprovideFunds(s, sender, amount);
      SendValueKeeps(t, paid, payout);
      s1 := SendValue(t, paid, payout).value;
    }
    UnprovidingListingsKeeps(s1, sender, specs, modules);
    SameReceiptsFollow(s1, u);
    FollowsTransitive(s, s1, u);
  }

  // ----- the four payouts -----

  predicate IsPayout(call: Call) {
    call.UnstakeExecutorCall? || call.WithdrawExcessExecutorStakeCall? || call.UnprovideFundsCall? || call.WithdrawSysAdminFundsCall?
  }

  /** The storage and the amount with which a payout starts. */
  function Booked(s: State, tx: Tx): Outcome<(State, uint256)>
    requires IsPayout(tx.call)
  {
    match tx.call
    case UnstakeExecutorCall(_) => UnstakeExecutor(s, tx.sender)
    case WithdrawExcessExecutorStakeCall(amount, _) => WithdrawExcessExecutorStake(s, tx.sender, amount)
    case UnprovideFundsCall(amount, _) => Ok(UnprovideFunds(s, tx.sender, amount))
    case WithdrawSysAdminFundsCall(amount, _) => WithdrawSysAdminFunds(s, tx.sender, amount)
  }

  lemma PayoutApplies(s: State, tx: Tx)
    requires IsPayout(tx.call) && tx.sender != ZERO_ADDRESS
    ensures Apply(s, tx) == var b :- Booked(s, tx); SendValue(b.0, b.1, tx.call.payout)
  {
    hide SendValue, UnstakeExecutor, WithdrawExcessExecutorStake, UnprovideFunds, WithdrawSysAdminFunds;
  }

  /** A booked payout is owed, and nothing but money has changed. */
  lemma BookedOwes(s: State, tx: Tx)
    requires Inv(s) && IsPayout(tx.call) && tx.sender != ZERO_ADDRESS && Booked(s, tx).Ok?
    ensures var (t, paid) := Booked(s, tx).value; Owes(t, paid) && t == s.(money := t.money)
  {
    hide Inv;
    match tx.call
    case UnstakeExecutorCall(_) => UnstakeOwes(s, tx.sender);
    case WithdrawExcessExecutorStakeCall(amount, _) => WithdrawExcessOwes(s, tx.sender, amount);
    case UnprovideFundsCall(amount, _) => UnprovideOwes(s, tx.sender, amount);
    case WithdrawSysAdminFundsCall(amount, _) => SysAdminOwes(s, tx.sender, amount);
  }

  /** What a payout that went through did. */
  lemma PaidOut(s: State, tx: Tx) returns (t: State, paid: uint256)
    requires Inv(s) && IsPayout(tx.call) && Apply(s, tx).Ok?
    ensures Booked(s, tx) == Ok((t, paid))
    ensures Owes(t, paid) && t == s.(money := t.money) && Apply(s, tx) == SendValue(t, paid, tx.call.payout)
  {
    assert tx.sender != ZERO_ADDRESS;
    hide Inv, Apply, Booked, SendValue;
    PayoutApplies(s, tx);
    BookedOwes(s, tx);
    t, paid := Booked(s, tx).value.0, Booked(s, tx).value.1;
  }

  lemma {:induction false} PayoutKeeps(s: State, tx: Tx)
    requires Inv(s) && IsPayout(tx.call) && Apply(s, tx).Ok?
    ensures Follows(s, Apply(s, tx).value)
    decreases tx, 0
  {
    hide Inv, Evolves, Apply, SendValue;
    var t, paid := PaidOut(s, tx);
    SendValueKeeps(t, paid, tx.call.payout);
  }

  lemma ApplyIsLocal(s: State, tx: Tx)
    requires IsLocal(tx.call) && tx.sender != ZERO_ADDRESS
    ensures Apply(s, tx) == ApplyLocal(s, tx.sender, tx.call)
  {
  }

  lemma LocalStep(s: State, sender: Address, call: Call, t: State)
    requires IsLocal(call) && sender != ZERO_ADDRESS && ApplyLocal(s, sender, call) == Ok(t)
    ensures Step(s, Tx(sender, call)) == t
  {
    ApplyIsLocal(s, Tx(sender, call));
  }

  lemma ExecStep(s: State, sender: Address, r: TaskReceipt, env: ExecEnv)
    requires sender != ZERO_ADDRESS && env.Plausible()
    ensures Step(s, Tx(sender, ExecCall(r, env))) == match Exec(s, sender, r, env) case Ok(t) => t case Revert(_) => s
  {
    hide Exec;
  }

  /** What the recipient of a booked payout starts from. */
  lemma PaysOut(t: State, paid: uint256, payout: Reply)
    requires Owes(t, paid)
    ensures paid <= t.money.balance
    ensures SendValue(t, paid, payout) ==
            if payout.accepted then Ok(RunAll(t.(money := t.money.(balance := t.money.balance - paid)), payout.nested))
            else Revert(UnableToSendValue)
  {
    hide Inv, RunAll;
  }

  lemma {:induction false} ApplyKeeps(s: State, tx: Tx)
    requires Inv(s) && Apply(s, tx).Ok?
    ensures Follows(s, Apply(s, tx).value)
    decreases tx, 1
  {
    var Tx(sender, call) := tx;
    if IsLocal(call) {
      ApplyIsLocal(s, tx);
      LocalKeeps(s, sender, call);
    } else if call.MultiUnprovideCall? {
      MultiUnprovideKeeps(s, sender, call.amount, call.specs, call.modules, call.payout);
    } else if call.ExecCall? {
      ExecKeeps(s, sender, call.receipt, call.env);
    } else {
      PayoutKeeps(s, tx);
    }
  }

  /** One transaction of anyone, with everything it calls, keeps every invariant. */
  lemma {:induction false} StepKeeps(s: State, tx: Tx)
    requires Inv(s)
    ensures Follows(s, Step(s, tx))
    decreases tx, 2
  {
    if Apply(s, tx).Ok? {
      ApplyKeeps(s, tx);
    }
  }

  lemma {:induction false} RunAllKeeps(s: State, txs: seq<Tx>)
    requires Inv(s)
    ensures Follows(s, RunAll(s, txs))
    decreases txs, 0
  {
    if txs != [] {
      StepKeeps(s, txs[0]);
      var t := Step(s, txs[0]);
      RunAllKeeps(t, txs[1..]);
      EvolvesTransitive(s, t, RunAll(s, txs));
    }
  }

  lemma {:induction false} RunsInSequence(s: State, first: seq<Tx>, rest: seq<Tx>)
    ensures RunAll(s, first + rest) == RunAll(RunAll(s, first), rest)
    decreases |first|
  {
    hide Step;
    if first == [] {
      assert first + rest == rest;
    } else {
      assert (first + rest)[1..] == first[1..] + rest;
      RunsInSequence(Step(s, first[0]), first[1..], rest);
    }
  }
}
