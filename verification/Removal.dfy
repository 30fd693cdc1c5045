/** Who can take a stored receipt out of the table: only a cancellation or an exec that
    names its id. A cancellation and a successful exec need the receipt itself; a refunded
    exec needs nothing of it but the id. */
module Removal {
  import opened Evm
  import opened GelatoTypes
  import opened GelatoState
  import opened SysAdmin
  import opened Providers
  import opened Core
  import opened Invariants
  import opened Reachability
  import opened Guarantees

  /** Some call of the transaction, or of one it triggers, cancels or executes a receipt
      with this id. */
  ghost predicate Names(tx: Tx, id: nat)
    decreases tx
  {
    match tx.call
    case CancelTaskCall(r) => r.id == id
    case MultiCancelTasksCall(receipts) => exists r :: r in receipts && r.id == id
    case ExecCall(r, env) => r.id == id || NamedIn(env.proxyCall.nested, id)
    case UnstakeExecutorCall(payout) => NamedIn(payout.nested, id)
    case WithdrawExcessExecutorStakeCall(_, payout) => NamedIn(payout.nested, id)
    case UnprovideFundsCall(_, payout) => NamedIn(payout.nested, id)
    case MultiUnprovideCall(_, _, _, payout) => NamedIn(payout.nested, id)
    case WithdrawSysAdminFundsCall(_, payout) => NamedIn(payout.nested, id)
    case _ => false
  }

  ghost predicate NamedIn(txs: seq<Tx>, id: nat)
    decreases txs
  {
    txs != [] && (Names(txs[0], id) || NamedIn(txs[1..], id))
  }

  ghost predicate SameEntry(s: State, t: State, id: nat) {
    id in s.book.taskReceiptHash && id in t.book.taskReceiptHash && t.book.taskReceiptHash[id] == s.book.taskReceiptHash[id]
  }

  lemma IssuedIds(s: State, id: nat)
    requires Inv(s) && id in s.book.taskReceiptHash
    ensures id <= s.book.currentTaskReceiptId
  {
  }

  lemma {:induction false} OtherCancels(s: State, sender: Address, receipts: seq<TaskReceipt>, id: nat)
    requires id in s.book.taskReceiptHash && MultiCancelTasks(s, sender, receipts).Ok?
    requires forall r :: r in receipts ==> r.id != id
    ensures SameEntry(s, MultiCancelTasks(s, sender, receipts).value, id)
    decreases |receipts|
  {
    if receipts != [] {
      OtherCancels(CancelTask(s, sender, receipts[0]).value, sender, receipts[1..], id);
    }
  }

  lemma LocalSpares(s: State, sender: Address, call: Call, id: nat)
    requires Inv(s) && id in s.book.taskReceiptHash && IsLocal(call) && ApplyLocal(s, sender, call).Ok?
    requires !Names(Tx(sender, call), id)
    ensures SameEntry(s, ApplyLocal(s, sender, call).value, id)
  {
    hide Inv;
    IssuedIds(s, id);
    if call.MultiCancelTasksCall? {
      OtherCancels(s, sender, call.receipts, id);
    } else if IsSubmitting(call) {
      hide SelfProviderGasDefaults;
    } else if !call.CancelTaskCall? {
      hide ApplyLocal;
      OtherLocalKeepsReceipts(s, sender, call);
    }
  }

  lemma {:induction false} SendValueSpares(s: State, t: State, amount: uint256, payout: Reply, id: nat)
    requires id in s.book.taskReceiptHash && t.book == s.book && Owes(t, amount)
    requires SendValue(t, amount, payout).Ok? && !NamedIn(payout.nested, id)
    ensures SameEntry(s, SendValue(t, amount, payout).value, id)
    decreases payout, 1
  {
    hide Inv;
    RunAllSpares(t.(money := t.money.(balance := t.money.balance - amount)), payout.nested, id);
  }

  lemma {:induction false} ExecTaskSpares(s: State, r: TaskReceipt, env: ExecEnv, id: nat)
    requires Inv(s) && id in s.book.taskReceiptHash && r.HasTask() && ExecTask(s, r, env).Ok?
    requires r.id != id && !NamedIn(env.proxyCall.nested, id)
    ensures SameEntry(s, ExecTask(s, r, env).value, id)
    decreases env, 1
  {
    hide Inv, Evolves;
    var d := DeleteTaskReceipt(s, r.id);
    DeletingKeeps(s, r.id);
    RunAllSpares(d, env.proxyCall.nested, id);
    RunAllKeeps(d, env.proxyCall.nested);
    IssuedIds(RunAll(d, env.proxyCall.nested), id);
  }

  lemma {:induction false} ExecSpares(s: State, sender: Address, r: TaskReceipt, env: ExecEnv, id: nat)
    requires Inv(s) && id in s.book.taskReceiptHash && env.Plausible() && Exec(s, sender, r, env).Ok?
    requires r.id != id && !NamedIn(env.proxyCall.nested, id)
    ensures SameEntry(s, Exec(s, sender, r, env).value, id)
    decreases env, 3
  {
    hide Inv, ExecTask, CanExec;
    var gasPrice, gasLimit := OraclePrice(env).value, GasLimit(s, r).value;
    match ExecutionWrapper(s, r, gasLimit, gasPrice, env)
    case Ok(CanExecFailed(_)) =>
    case Ok(ExecSuccess(t)) => ExecTaskSpares(s, r, env, id);
    case Revert(_) =>
  }

  lemma {:induction false} MultiUnprovideSpares(s: State, sender: Address, amount: uint256, specs: seq<TaskSpec>,
                                                modules: seq<Address>, payout: Reply, id: nat)
    requires Inv(s) && id in s.book.taskReceiptHash && MultiUnprovide(s, sender, amount, specs, modules, payout).Ok?
    requires !NamedIn(payout.nested, id)
    ensures SameEntry(s, MultiUnprovide(s, sender, amount, specs, modules, payout).value, id)
    decreases payout, 2
  {
    hide Inv, SendValue;
    if amount != 0 {
      UnprovideOwes(s, sender, amount);
      var (t, paid) := UnprovideFunds(s, sender, amount);
      SendValueSpares(s, t, paid, payout, id);
    }
  }

  lemma {:induction false} PayoutSpares(s: State, tx: Tx, id: nat)
    requires Inv(s) && id in s.book.taskReceiptHash && IsPayout(tx.call) && Apply(s, tx).Ok? && !Names(tx, id)
    ensures SameEntry(s, Apply(s, tx).value, id)
    decreases tx, 0
  {
    hide Inv, Apply, SendValue, SameEntry;
    var t, paid := PaidOut(s, tx);
    SendValueSpares(s, t, paid, tx.call.payout, id);
  }

  lemma {:induction false} ApplySpares(s: State, tx: Tx, id: nat)
    requires Inv(s) && id in s.book.taskReceiptHash && Apply(s, tx).Ok? && !Names(tx, id)
    ensures SameEntry(s, Apply(s, tx).value, id)
    decreases tx, 1
  {
    hide Inv, SameEntry;
    var Tx(sender, call) := tx;
    if IsLocal(call) {
      ApplyIsLocal(s, tx);
      LocalSpares(s, sender, call, id);
    } else if call.MultiUnprovideCall? {
      MultiUnprovideSpares(s, sender, call.amount, call.specs, call.modules, call.payout, id);
    } else if call.ExecCall? {
      ExecSpares(s, sender, call.receipt, call.env, id);
    } else {
      PayoutSpares(s, tx, id);
    }
  }

  /** A run none of whose calls cancels or executes a receipt with this id leaves what is
      stored under it as it is. */
  lemma {:induction false} RunAllSpares(s: State, txs: seq<Tx>, id: nat)
    requires Inv(s) && id in s.book.taskReceiptHash && !NamedIn(txs, id)
    ensures SameEntry(s, RunAll(s, txs), id)
    decreases txs, 0
  {
    hide Inv, Apply;
    if txs != [] {
      StepKeeps(s, txs[0]);
      if Apply(s, txs[0]).Ok? {
        ApplySpares(s, txs[0], id);
      }
      RunAllSpares(Step(s, txs[0]), txs[1..], id);
    }
  }

  // ----- the two kinds of removal -----

  /** What the three outcomes of the wrapper leave behind. */
  lemma AfterWrapper(s: State, sender: Address, r: TaskReceipt, env: ExecEnv, gasLimit: uint256, gasPrice: uint256)
    requires env.Plausible() && Exec(s, sender, r, env).Ok?
    requires OraclePrice(env) == Ok(gasPrice) && GasLimit(s, r) == Ok(gasLimit)
    ensures var u := Exec(s, sender, r, env).value;
            match ExecutionWrapper(s, r, gasLimit, gasPrice, env)
            case Ok(CanExecFailed(_)) => u == s
            case Ok(ExecSuccess(t)) => u.book == t.book && u.logs == t.logs.(executed := t.logs.executed + [r.id])
            case Revert(_) =>
              if env.startGas < gasLimit then u == s
              else u.book == DropTaskReceipt(s, r.id).book && u.logs == DropTaskReceipt(s, r.id).logs
  {
    hide ExecutionWrapper, ExecutorSuccessFee, SysAdminSuccessFee, CappedGasUsed, Mul;
  }

  lemma DropIsNoted(s: State, id: nat)
    requires id in s.book.taskReceiptHash
    ensures id in DropTaskReceipt(s, id).logs.dropped
  {
    assert DropTaskReceipt(s, id).logs.dropped[|s.logs.dropped|] == id;
  }

  lemma StoredIsNotDropped(s: State, id: nat)
    requires Inv(s) && id in s.book.taskReceiptHash
    ensures id !in s.logs.dropped
  {
  }

  /** Of what exec does, only executing the very receipt that is stored, or dropping it with a
      refund, removes it; either way the sender is the executor of the provider named in the
      receipt that was passed in. */
  lemma ExecRemovals(s: State, sender: Address, r: TaskReceipt, env: ExecEnv)
    requires Inv(s) && sender != ZERO_ADDRESS && env.Plausible() && r.id in s.book.taskReceiptHash
    ensures Exec(s, sender, r, env).Ok? && r.id !in Exec(s, sender, r, env).value.book.taskReceiptHash ==>
              var u := Exec(s, sender, r, env).value;
              && sender == s.ExecutorByProvider(r.provider.addr) && Priced(env) && HasLimit(r)
              && if ExecutionWrapper(s, r, AskedGasLimit(s, r), env.oracle.value, env).Ok?
                 then s.IsLive(r) && r.id in u.logs.executed
                 else r.id in u.logs.dropped && env.startGas >= AskedGasLimit(s, r)
  {
    hide Inv, Evolves, Exec, ExecutionWrapper, DropTaskReceipt, OraclePrice, GasLimit;
    if Exec(s, sender, r, env).Ok? && r.id !in Exec(s, sender, r, env).value.book.taskReceiptHash {
      ExecChecks(s, sender, r, env);
      var gasPrice, gasLimit := env.oracle.value, AskedGasLimit(s, r);
      var u := Exec(s, sender, r, env).value;
      AfterWrapper(s, sender, r, env, gasLimit, gasPrice);
      match ExecutionWrapper(s, r, gasLimit, gasPrice, env)
      case Ok(CanExecFailed(_)) =>
      case Ok(ExecSuccess(t)) => {
        WrapperKeeps(s, r, gasLimit, gasPrice, env);
        assert u.logs.executed[|t.logs.executed|] == r.id;
      }
      case Revert(_) =>
        DropIsNoted(s, r.id);
    }
  }

  /** Exactly when exec drops what is stored under an id. Whether the receipt passed in is the
      one stored there plays no part. */
  lemma DropIsExact(s: State, sender: Address, r: TaskReceipt, env: ExecEnv)
    requires Inv(s) && sender != ZERO_ADDRESS && env.Plausible() && r.id in s.book.taskReceiptHash
    ensures Exec(s, sender, r, env).Ok? && r.id in Exec(s, sender, r, env).value.logs.dropped <==>
            && Priced(env) && HasLimit(r)
            && var gasPrice, gasLimit := env.oracle.value, AskedGasLimit(s, r);
            && sender == s.ExecutorByProvider(r.provider.addr)
            && env.gasLeft >= s.params.internalGasRequirement && env.startGas >= gasLimit
            && Undone(s, r, env, gasLimit, gasPrice)
            && Mul(Min(env.gasUsed, gasLimit) + 55_000, gasPrice) <= s.ProviderFunds(r.provider.addr)
  {
    hide Inv, Evolves, Exec, ExecutionWrapper, Undone, DropTaskReceipt, OraclePrice, GasLimit;
    StoredIsNotDropped(s, r.id);
    DropIsNoted(s, r.id);
    ExecTerms(s, r, env);
    if Exec(s, sender, r, env).Ok? {
      ExecChecks(s, sender, r, env);
    }
    if Priced(env) && HasLimit(r) {
      var gasPrice, gasLimit := env.oracle.value, AskedGasLimit(s, r);
      if Exec(s, sender, r, env).Ok? {
        AfterWrapper(s, sender, r, env, gasLimit, gasPrice);
      }
      UndoneIsExact(s, r, env, gasLimit, gasPrice);
      match ExecutionWrapper(s, r, gasLimit, gasPrice, env)
      case Ok(CanExecFailed(_)) =>
      case Ok(ExecSuccess(t)) => WrapperKeeps(s, r, gasLimit, gasPrice, env);
      case Revert(_) => RefundGoesThrough(s, sender, r, env, gasLimit, gasPrice);
    }
  }

  /** After a reverted wrapper exec goes through exactly if its own checks do and, from the
      gas limit on, the provider can pay the refund. */
  lemma RefundGoesThrough(s: State, sender: Address, r: TaskReceipt, env: ExecEnv, gasLimit: uint256, gasPrice: uint256)
    requires env.Plausible() && OraclePrice(env) == Ok(gasPrice) && GasLimit(s, r) == Ok(gasLimit)
    requires ExecutionWrapper(s, r, gasLimit, gasPrice, env).Revert?
    ensures Exec(s, sender, r, env).Ok? <==>
            && sender == s.ExecutorByProvider(r.provider.addr) && env.gasLeft >= s.params.internalGasRequirement
            && (env.startGas >= gasLimit ==>
                  Mul(Min(env.gasUsed, gasLimit) + EXEC_TX_OVERHEAD, gasPrice) <= s.ProviderFunds(r.provider.addr))
  {
    hide ExecutionWrapper, Mul, OraclePrice, GasLimit;
  }

  /** So a receipt can be dropped by an exec that passes in another one with its id, sent by
      the executor of another provider, who pays the refund. */
  lemma DroppedByAnother(env: ExecEnv)
    requires env.Plausible() && env.oracle == Some(1)
    ensures var params := Params(9, 0, 0, 0, 0, 0, 0);
            var task := Task([], [], 0, 0);
            var stored := TaskReceipt(1, 5, Provider(3, 7), 0, [task], 0, 0, 1);
            var other := TaskReceipt(1, 6, Provider(2, 7), 0, [], 0, 0, 1);
            var s1 := Step(Deployed(params), Tx(5, SubmitTaskCall(Provider(3, 7), task, 0)));
            var s2 := Step(s1, Tx(2, ProvideFundsCall(2, 55000)));
            var s3 := Step(s2, Tx(2, ProviderAssignsExecutorCall(1)));
            var s4 := Step(s3, Tx(1, ExecCall(other, env)));
            s3.IsLive(stored) && s3.ExecutorByProvider(3) == ZERO_ADDRESS && !s4.IsLive(stored) && s4.logs.dropped == [1]
  {
    hide Apply, Step;
    var params, task := Params(9, 0, 0, 0, 0, 0, 0), Task([], [], 0, 0);
    var stored := TaskReceipt(1, 5, Provider(3, 7), 0, [task], 0, 0, 1);
    var other := TaskReceipt(1, 6, Provider(2, 7), 0, [], 0, 0, 1);
    var s0 := Deployed(params);
    var s1 := s0.(book := Book(1, map[1 := stored]), logs := Logs([stored], [], [], [], []));
    var s2 := s1.(money := Money(55000, map[2 := 55000], map[], 0, 0));
    var s3 := s2.(assign := Assignments(map[2 := 1], map[1 := 1]));
    FirstSubmission(s0, s1, stored);
    LocalStep(s1, 2, ProvideFundsCall(2, 55000), s2);
    FirstAssignment(s2, 2, 1);
    RefundOfAnother(s3, other, env);
  }

  lemma FirstSubmission(s0: State, s1: State, r: TaskReceipt)
    requires s0 == Deployed(s0.params) && r.userProxy != ZERO_ADDRESS && !r.SelfProvider()
    requires r == TaskReceipt(1, r.userProxy, r.provider, 0, r.tasks, r.expiryDate, 0, 1) && |r.tasks| == 1
    requires s1 == s0.(book := Book(1, map[1 := r]), logs := Logs([r], [], [], [], []))
    ensures Step(s0, Tx(r.userProxy, SubmitTaskCall(r.provider, r.tasks[0], r.expiryDate))) == s1
  {
    hide Apply, SelfProviderGasDefaults;
    assert [r.tasks[0]] == r.tasks && s0.logs.submitted + [r] == [r];
    assert StoreTaskReceipt(s0, false, r.userProxy, r.provider, 0, r.tasks, r.expiryDate, 0, 1) == s1;
    LocalStep(s0, r.userProxy, SubmitTaskCall(r.provider, r.tasks[0], r.expiryDate), s1);
  }

  lemma NothingToExecute(s: State, r: TaskReceipt, env: ExecEnv)
    requires r.tasks == [] && s.params.minExecutorStake == 0 && s.params.totalSuccessShare == 0
    requires s.ProviderFunds(r.provider.addr) == EXEC_TX_OVERHEAD
    ensures ExecutionWrapper(s, r, 0, 1, env).Revert?
  {
    MulIsProduct(EXEC_TX_OVERHEAD, 1);
    MulIsProduct(EXEC_TX_OVERHEAD, 0);
    hide Mul;
    assert IsProviderLiquid(s, r.provider.addr, 0, 1);
  }

  lemma RefundOfAnother(s: State, other: TaskReceipt, env: ExecEnv)
    requires env.Plausible() && env.oracle == Some(1) && other.tasks == [] && other.id in s.book.taskReceiptHash
    requires !other.SelfProvider() && s.params.gelatoMaxGas == 0 && s.params.internalGasRequirement == 0
    requires s.params.minExecutorStake == 0 && s.params.totalSuccessShare == 0
    requires s.ExecutorByProvider(other.provider.addr) == 1 && s.ProviderFunds(other.provider.addr) == EXEC_TX_OVERHEAD
    requires s.logs.dropped == []
    ensures var t := Step(s, Tx(1, ExecCall(other, env)));
            t.book == DeleteTaskReceipt(s, other.id).book && t.logs.dropped == [other.id]
  {
    MulIsProduct(EXEC_TX_OVERHEAD, 1);
    NothingToExecute(s, other, env);
    assert OraclePrice(env) == Ok(1) && GasLimit(s, other) == Ok(0);
    hide Mul, ExecutionWrapper, Exec, Step, OraclePrice, GasLimit;
    RefundGoesThrough(s, 1, other, env, 0, 1);
    AfterWrapper(s, 1, other, env, 0, 1);
    ExecStep(s, 1, other, env);
  }
}
