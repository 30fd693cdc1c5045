/** Cycles and chains: tasks that submit their successor when they are executed. On every
    run the receipts of one cycle form a chain, each the successor of the one before, with
    only the last one possibly still executable, whatever else is submitted, executed or
    cancelled in between. */
module TaskCycles {
  import opened Evm
  import opened GelatoTypes
  import opened GelatoState
  import opened Providers
  import opened Core
  import opened Invariants
  import opened Reachability
  import Bytes

  // ----- chains -----

  function Decrement(submissionsLeft: uint256): uint256 {
    if submissionsLeft == 0 then 0 else submissionsLeft - 1
  }

  /** The receipt submitted when `r` has been executed: the next task, one submission less. */
  function Next(r: TaskReceipt, id: nat): TaskReceipt
    requires r.HasTask()
  {
    r.(id := id, index := r.NextIndex(), submissionsLeft := Decrement(r.submissionsLeft))
  }

  ghost predicate IsChain(l: seq<TaskReceipt>) {
    forall k :: 0 <= k < |l| - 1 ==>
      l[k].HasTask() && l[k].submissionsLeft != 1 && l[k + 1] == Next(l[k], l[k + 1].id)
  }

  /** The k-th receipt of a chain runs task k modulo the number of tasks; with a submission
      budget of n > 0 it is one of n receipts, with budget 0 there is no end. */
  lemma {:induction false} ChainPositions(l: seq<TaskReceipt>, k: nat)
    requires IsChain(l) && k < |l| && l[0].index == 0 && |l[0].tasks| > 0
    ensures l[k].tasks == l[0].tasks
    ensures l[k].index == k % |l[0].tasks|
    ensures l[0].submissionsLeft == 0 ==> l[k].submissionsLeft == 0
    ensures l[0].submissionsLeft > 0 ==> k < l[0].submissionsLeft && l[k].submissionsLeft == l[0].submissionsLeft - k
  {
    var n := |l[0].tasks|;
    if k > 0 {
      ChainPositions(l, k - 1);
      assert l[k - 1].HasTask() && l[k] == Next(l[k - 1], l[k].id);
      Bytes.NextModulo(k - 1, n);
    }
  }

  // ----- the receipts of one cycle -----

  function OfCycle(submitted: seq<TaskReceipt>, c: nat): seq<TaskReceipt> {
    if submitted == [] then []
    else
      var l := OfCycle(submitted[..|submitted| - 1], c);
      var r := submitted[|submitted| - 1];
      if r.cycleId == c then l + [r] else l
  }

  lemma OfCycleAppend(submitted: seq<TaskReceipt>, r: TaskReceipt, c: nat)
    ensures OfCycle(submitted + [r], c) == OfCycle(submitted, c) + if r.cycleId == c then [r] else []
  {
    assert (submitted + [r])[..|submitted|] == submitted;
  }

  /** A submitted receipt of the cycle is one of the listed ones. */
  lemma {:induction false} OfCycleContains(submitted: seq<TaskReceipt>, i: nat, c: nat)
    requires i < |submitted| && submitted[i].cycleId == c
    ensures submitted[i] in OfCycle(submitted, c)
  {
    var last := |submitted| - 1;
    if i < last {
      OfCycleContains(submitted[..last], i, c);
    }
  }

  lemma {:induction false} OfCycleEmpty(submitted: seq<TaskReceipt>, c: nat)
    requires forall i :: 0 <= i < |submitted| ==> submitted[i].cycleId != c
    ensures OfCycle(submitted, c) == []
  {
    if submitted != [] {
      OfCycleEmpty(submitted[..|submitted| - 1], c);
    }
  }

  /** The receipt is neither stored nor was it cancelled or dropped. */
  ghost predicate Used(s: State, id: nat) {
    id !in s.book.taskReceiptHash && id !in s.logs.cancelled && id !in s.logs.dropped
  }

  /** The receipts of cycle `c` are a chain that starts with receipt `c` itself, and all but
      the last were used up otherwise than by being cancelled or dropped. */
  ghost predicate CycleOk(s: State, c: nat) {
    var l := OfCycle(s.logs.submitted, c);
    && IsChain(l)
    && (l != [] ==> l[0].id == c && l[0].index == 0)
    && (forall k :: 0 <= k < |l| - 1 ==> Used(s, l[k].id))
  }

  /** Nothing of cycle `c` can be executed any more. */
  ghost predicate Quiet(s: State, c: nat) {
    && c <= s.book.currentTaskReceiptId
    && forall id :: id in s.book.taskReceiptHash ==> s.book.taskReceiptHash[id].cycleId != c
  }

  ghost predicate CycleFollows(s: State, t: State, c: nat) {
    && CycleOk(t, c)
    && (Quiet(s, c) ==> Quiet(t, c) && OfCycle(t.logs.submitted, c) == OfCycle(s.logs.submitted, c))
  }

  /** Nothing is submitted and at most some stored receipts are cancelled or dropped. */
  ghost predicate Shrinks(s: State, t: State) {
    && t.book.currentTaskReceiptId == s.book.currentTaskReceiptId
    && t.logs.submitted == s.logs.submitted
    && (forall id :: id in t.book.taskReceiptHash ==>
          id in s.book.taskReceiptHash && t.book.taskReceiptHash[id] == s.book.taskReceiptHash[id])
    && (forall id :: id in t.logs.cancelled ==> id in s.logs.cancelled || id in s.book.taskReceiptHash)
    && (forall id :: id in t.logs.dropped ==> id in s.logs.dropped || id in s.book.taskReceiptHash)
  }

  lemma ShrinkingKeepsCycle(s: State, t: State, c: nat)
    requires CycleOk(s, c) && Shrinks(s, t)
    ensures CycleFollows(s, t, c)
  {
  }

  lemma CycleFollowsTransitive(s: State, t: State, u: State, c: nat)
    requires CycleFollows(s, t, c) && CycleFollows(t, u, c)
    ensures CycleFollows(s, u, c)
  {
  }

  ghost predicate EndsWith(l: seq<TaskReceipt>, r: TaskReceipt) {
    l != [] && l[|l| - 1] == r
  }

  /** A stored receipt of the cycle is the last one listed. */
  lemma LiveIsLast(s: State, r: TaskReceipt, c: nat)
    requires Inv(s) && CycleOk(s, c) && s.IsLive(r) && r.cycleId == c
    ensures EndsWith(OfCycle(s.logs.submitted, c), r)
  {
    assert s.logs.submitted[r.id - 1] == r;
    OfCycleContains(s.logs.submitted, r.id - 1, c);
  }

  /** Deleting the stored receipt of a cycle leaves the cycle quiet. */
  lemma DeletingQuiets(s: State, r: TaskReceipt)
    requires Inv(s) && CycleOk(s, r.cycleId) && s.IsLive(r)
    ensures Quiet(DeleteTaskReceipt(s, r.id), r.cycleId)
  {
    var c, t := r.cycleId, DeleteTaskReceipt(s, r.id);
    assert s.logs.submitted[r.id - 1] == r;
    forall id | id in t.book.taskReceiptHash
      ensures t.book.taskReceiptHash[id].cycleId != c
    {
      var y := s.book.taskReceiptHash[id];
      assert y == s.logs.submitted[id - 1] && y.id == id;
      if y.cycleId == c {
        LiveIsLast(s, y, c);
        LiveIsLast(s, r, c);
      }
    }
  }

  /** `t` is `s` after receipt `r` was stored under the next id. */
  ghost predicate Stored(s: State, t: State, r: TaskReceipt) {
    && r.id == s.book.currentTaskReceiptId + 1
    && t.book == Book(r.id, s.book.taskReceiptHash[r.id := r])
    && t.logs.submitted == s.logs.submitted + [r]
    && t.logs.cancelled == s.logs.cancelled && t.logs.dropped == s.logs.dropped
  }

  lemma StoringElsewhere(s: State, t: State, r: TaskReceipt, c: nat)
    requires BookOk(s.book, s.logs) && CycleOk(s, c) && Stored(s, t, r) && r.cycleId != c
    ensures CycleFollows(s, t, c)
  {
    OfCycleAppend(s.logs.submitted, r, c);
    CycleIds(s, c);
  }

  lemma StoringRoot(s: State, t: State, r: TaskReceipt)
    requires BookOk(s.book, s.logs) && Stored(s, t, r) && r.cycleId == r.id && r.index == 0
    ensures CycleFollows(s, t, r.id) && OfCycle(t.logs.submitted, r.id) == [r]
  {
    OfCycleAppend(s.logs.submitted, r, r.id);
    OfCycleEmpty(s.logs.submitted, r.id);
  }

  lemma SubmittingKeepsCycle(s: State, newCycle: bool, userProxy: Address, provider: Provider, tasks: seq<Task>,
                             expiryDate: uint256, submissionsLeft: uint256, c: nat)
    requires BookOk(s.book, s.logs) && CycleOk(s, c) && c > 0
    ensures CycleFollows(s, StoreTaskReceipt(s, newCycle, userProxy, provider, 0, tasks, expiryDate, 0, submissionsLeft), c)
  {
    var t := StoreTaskReceipt(s, newCycle, userProxy, provider, 0, tasks, expiryDate, 0, submissionsLeft);
    var r := t.logs.submitted[|s.logs.submitted|];
    if r.cycleId == c {
      StoringRoot(s, t, r);
    } else {
      StoringElsewhere(s, t, r, c);
    }
  }

  /** Storing the successor extends the chain of its own cycle. */
  lemma StoringNext(s: State, t: State, r: TaskReceipt, c: nat)
    requires BookOk(s.book, s.logs) && CycleOk(s, c) && r.HasTask() && r.submissionsLeft != 1 && r.cycleId == c
    requires Quiet(s, c) && EndsWith(OfCycle(s.logs.submitted, c), r) && Used(s, r.id)
    requires Stored(s, t, Next(r, s.book.currentTaskReceiptId + 1))
    ensures CycleOk(t, c)
    ensures OfCycle(t.logs.submitted, c) == OfCycle(s.logs.submitted, c) + [Next(r, s.book.currentTaskReceiptId + 1)]
  {
    OfCycleAppend(s.logs.submitted, Next(r, s.book.currentTaskReceiptId + 1), c);
    CycleIds(s, c);
  }

  lemma {:induction false} OfCycleWasSubmitted(submitted: seq<TaskReceipt>, k: nat, c: nat)
    requires k < |OfCycle(submitted, c)|
    ensures var r := OfCycle(submitted, c)[k]; r.cycleId == c && r in submitted
  {
    var last := |submitted| - 1;
    var l := OfCycle(submitted[..last], c);
    if k < |l| {
      OfCycleWasSubmitted(submitted[..last], k, c);
    }
  }

  /** Receipts listed for a cycle carry issued ids, and the table entry of such an id, if
      any, belongs to the cycle. */
  lemma CycleIds(s: State, c: nat)
    requires BookOk(s.book, s.logs)
    ensures var l := OfCycle(s.logs.submitted, c);
            forall k :: 0 <= k < |l| ==>
              && l[k].id <= s.book.currentTaskReceiptId
              && (l[k].id in s.book.taskReceiptHash ==> s.book.taskReceiptHash[l[k].id].cycleId == c)
  {
    var l := OfCycle(s.logs.submitted, c);
    forall k | 0 <= k < |l|
      ensures l[k].id <= s.book.currentTaskReceiptId
      ensures l[k].id in s.book.taskReceiptHash ==> s.book.taskReceiptHash[l[k].id].cycleId == c
    {
      OfCycleWasSubmitted(s.logs.submitted, k, c);
      var i :| 0 <= i < |s.logs.submitted| && s.logs.submitted[i] == l[k];
    }
  }

  // ----- every transaction -----

  lemma {:induction false} CancelsShrink(s: State, sender: Address, receipts: seq<TaskReceipt>)
    requires MultiCancelTasks(s, sender, receipts).Ok?
    ensures Shrinks(s, MultiCancelTasks(s, sender, receipts).value)
    decreases |receipts|
  {
    if receipts != [] {
      CancelsShrink(CancelTask(s, sender, receipts[0]).value, sender, receipts[1..]);
    }
  }

  lemma LocalShrinks(s: State, sender: Address, call: Call)
    requires IsLocal(call) && !IsSubmitting(call) && ApplyLocal(s, sender, call).Ok?
    ensures Shrinks(s, ApplyLocal(s, sender, call).value)
  {
    if call.MultiCancelTasksCall? {
      CancelsShrink(s, sender, call.receipts);
    } else if !call.CancelTaskCall? {
      hide ApplyLocal;
      OtherLocalKeepsReceipts(s, sender, call);
    }
  }

  lemma SubmissionKeepsCycle(s: State, sender: Address, call: Call, c: nat)
    requires BookOk(s.book, s.logs) && CycleOk(s, c) && c > 0 && IsSubmitting(call) && ApplyLocal(s, sender, call).Ok?
    ensures CycleFollows(s, ApplyLocal(s, sender, call).value, c)
  {
    match call
    case SubmitTaskCall(provider, task, expiryDate) =>
      SubmittingKeepsCycle(s, false, sender, provider, Defaulted(s.params, sender, provider, [task]).value, expiryDate, 1, c);
    case SubmitTaskCycleCall(provider, tasks, expiryDate, cycles) =>
      SubmittingKeepsCycle(s, true, sender, provider, Defaulted(s.params, sender, provider, tasks).value, expiryDate, Wrap(cycles * |tasks|), c);
    case SubmitTaskChainCall(provider, tasks, expiryDate, submits) =>
      SubmittingKeepsCycle(s, true, sender, provider, Defaulted(s.params, sender, provider, tasks).value, expiryDate, submits, c);
  }

  lemma LocalKeepsCycle(s: State, sender: Address, call: Call, c: nat)
    requires Inv(s) && CycleOk(s, c) && c > 0 && IsLocal(call) && ApplyLocal(s, sender, call).Ok?
    ensures CycleFollows(s, ApplyLocal(s, sender, call).value, c)
  {
    if IsSubmitting(call) {
      SubmissionKeepsCycle(s, sender, call, c);
    } else {
      LocalShrinks(s, sender, call);
      ShrinkingKeepsCycle(s, ApplyLocal(s, sender, call).value, c);
    }
  }

  lemma {:induction false} SendValueKeepsCycle(s: State, t: State, amount: uint256, payout: Reply, c: nat)
    requires CycleOk(s, c) && c > 0 && t.book == s.book && t.logs == s.logs && Owes(t, amount)
    requires SendValue(t, amount, payout).Ok?
    ensures CycleFollows(s, SendValue(t, amount, payout).value, c)
    decreases payout, 1
  {
    hide Inv, IsChain;
    var u := t.(money := t.money.(balance := t.money.balance - amount));
    assert CycleOk(u, c);
    RunAllKeepsCycle(u, payout.nested, c);
  }

  /** The proxy ran from `d`, in which the receipt is already deleted, to `t`; storing the
      successor in `t` extends the receipt's own chain and leaves every other one alone. */
  lemma SuccessorKeepsCycle(s: State, d: State, t: State, u: State, r: TaskReceipt, c: nat)
    requires Inv(s) && s.IsLive(r) && CycleOk(s, c) && c > 0 && r.HasTask() && r.submissionsLeft != 1
    requires d == DeleteTaskReceipt(s, r.id) && BookOk(t.book, t.logs) && Used(t, r.id)
    requires CycleFollows(d, t, c) && Stored(t, u, Next(r, t.book.currentTaskReceiptId + 1))
    ensures CycleFollows(s, u, c)
    ensures r.cycleId == c ==>
              OfCycle(u.logs.submitted, c) == OfCycle(s.logs.submitted, c) + [Next(r, t.book.currentTaskReceiptId + 1)]
  {
    if r.cycleId == c {
      assert s.book.taskReceiptHash[r.id].cycleId == c;
      LiveIsLast(s, r, c);
      DeletingQuiets(s, r);
      StoringNext(t, u, r, c);
    } else {
      ShrinkingKeepsCycle(s, d, c);
      CycleFollowsTransitive(s, d, t, c);
      StoringElsewhere(t, u, Next(r, t.book.currentTaskReceiptId + 1), c);
      CycleFollowsTransitive(s, t, u, c);
    }
  }

  lemma {:induction false} ExecTaskKeepsCycle(s: State, r: TaskReceipt, env: ExecEnv, c: nat)
    requires Inv(s) && s.IsLive(r) && CycleOk(s, c) && c > 0 && r.HasTask() && ExecTask(s, r, env).Ok?
    ensures CycleFollows(s, ExecTask(s, r, env).value, c)
    ensures r.cycleId == c && r.submissionsLeft != 1 ==>
              var t := ExecTask(s, r, env).value;
              OfCycle(t.logs.submitted, c) == OfCycle(s.logs.submitted, c) + [Next(r, t.book.currentTaskReceiptId)]
    decreases env, 1
  {
    hide Inv, CycleOk, CycleFollows;
    var d := DeleteTaskReceipt(s, r.id);
    DeletingKeeps(s, r.id);
    ShrinkingKeepsCycle(s, d, c);
    var t := RunAll(d, env.proxyCall.nested);
    RunAllKeepsCycle(d, env.proxyCall.nested, c);
    RunAllKeeps(d, env.proxyCall.nested);
    DeletingRetires(s, r);
    RetiredForGood(d, t, r.id);
    ValidParts(t);
    if r.submissionsLeft == 1 {
      CycleFollowsTransitive(s, d, t, c);
    } else {
      SuccessorKeepsCycle(s, d, t, ExecTask(s, r, env).value, r, c);
    }
  }

  lemma PayingShrinks(s: State, sender: Address, provider: Address, pay: ExecutorPay, gasUsed: Gas, gasLimit: uint256, gasPrice: uint256)
    requires ProcessProviderPayables(s, sender, provider, pay, gasUsed, gasLimit, gasPrice).Ok?
    ensures Shrinks(s, ProcessProviderPayables(s, sender, provider, pay, gasUsed, gasLimit, gasPrice).value)
  {
  }

  lemma {:induction false} ExecKeepsCycle(s: State, sender: Address, r: TaskReceipt, env: ExecEnv, c: nat)
    requires Inv(s) && sender != ZERO_ADDRESS && CycleOk(s, c) && c > 0 && env.Plausible() && Exec(s, sender, r, env).Ok?
    ensures CycleFollows(s, Exec(s, sender, r, env).value, c)
    decreases env, 3
  {
    hide Inv, CycleOk, CycleFollows, ProcessProviderPayables;
    var gasPrice := OraclePrice(env).value;
    var gasLimit := GasLimit(s, r).value;
    var u := Exec(s, sender, r, env).value;
    match ExecutionWrapper(s, r, gasLimit, gasPrice, env)
    case Ok(CanExecFailed(_)) =>
      ShrinkingKeepsCycle(s, u, c);
    case Ok(ExecSuccess(t)) =>
      CanExecNeedsLive(s, Option.None, r, gasLimit, gasPrice, env.now, env.views);
      ExecTaskKeepsCycle(s, r, env, c);
      PayingShrinks(t, sender, r.provider.addr, Reward, env.gasUsed, gasLimit, gasPrice);
      ShrinkingFollows(s, t, u, c);
    case Revert(_) =>
      if env.startGas >= gasLimit {
        PayingShrinks(DropTaskReceipt(s, r.id), sender, r.provider.addr, Refund, env.gasUsed, gasLimit, gasPrice);
      }
      ShrinkingKeepsCycle(s, u, c);
  }

  lemma ShrinkingFollows(s: State, t: State, u: State, c: nat)
    requires CycleFollows(s, t, c) && Shrinks(t, u)
    ensures CycleFollows(s, u, c)
  {
    ShrinkingKeepsCycle(t, u, c);
  }

  lemma {:induction false} MultiUnprovideKeepsCycle(s: State, sender: Address, amount: uint256, specs: seq<TaskSpec>,
                                                    modules: seq<Address>, payout: Reply, c: nat)
    requires Inv(s) && CycleOk(s, c) && c > 0 && MultiUnprovide(s, sender, amount, specs, modules, payout).Ok?
    ensures CycleFollows(s, MultiUnprovide(s, sender, amount, specs, modules, payout).value, c)
    decreases payout, 2
  {
    var u := MultiUnprovide(s, sender, amount, specs, modules, payout).value;
    if amount != 0 {
      UnprovideOwes(s, sender, amount);
      var (t, paid) := UnprovideFunds(s, sender, amount);
      SendValueKeepsCycle(s, t, paid, payout, c);
      var s1 := SendValue(t, paid, payout).value;
      ShrinkingKeepsCycle(s1, u, c);
      CycleFollowsTransitive(s, s1, u, c);
    } else {
      ShrinkingKeepsCycle(s, u, c);
    }
  }

  lemma {:induction false} PayoutKeepsCycle(s: State, tx: Tx, c: nat)
    requires Inv(s) && CycleOk(s, c) && c > 0 && IsPayout(tx.call) && Apply(s, tx).Ok?
    ensures CycleFollows(s, Apply(s, tx).value, c)
    decreases tx, 0
  {
    hide Inv, CycleOk, CycleFollows, Apply, SendValue;
    var t, paid := PaidOut(s, tx);
    SendValueKeepsCycle(s, t, paid, tx.call.payout, c);
  }

  lemma {:induction false} ApplyKeepsCycle(s: State, tx: Tx, c: nat, t: State)
    requires Inv(s) && CycleOk(s, c) && c > 0 && Apply(s, tx) == Ok(t)
    ensures CycleFollows(s, t, c)
    decreases tx, 1
  {
    hide Inv, CycleOk, CycleFollows;
    var Tx(sender, call) := tx;
    if IsLocal(call) {
      ApplyIsLocal(s, tx);
      LocalKeepsCycle(s, sender, call, c);
    } else if call.MultiUnprovideCall? {
      MultiUnprovideKeepsCycle(s, sender, call.amount, call.specs, call.modules, call.payout, c);
    } else if call.ExecCall? {
      ExecKeepsCycle(s, sender, call.receipt, call.env, c);
    } else {
      PayoutKeepsCycle(s, tx, c);
    }
  }

  lemma {:induction false} StepKeepsCycle(s: State, tx: Tx, c: nat)
    requires Inv(s) && CycleOk(s, c) && c > 0
    ensures CycleFollows(s, Step(s, tx), c)
    decreases tx, 2
  {
    if Apply(s, tx).Ok? {
      ApplyKeepsCycle(s, tx, c, Apply(s, tx).value);
    } else {
      ShrinkingKeepsCycle(s, s, c);
    }
  }

  lemma {:induction false} RunAllKeepsCycle(s: State, txs: seq<Tx>, c: nat)
    requires Inv(s) && CycleOk(s, c) && c > 0
    ensures CycleFollows(s, RunAll(s, txs), c)
    decreases txs, 0
  {
    if txs == [] {
      ShrinkingKeepsCycle(s, s, c);
    } else {
      StepKeeps(s, txs[0]);
      StepKeepsCycle(s, txs[0], c);
      var t := Step(s, txs[0]);
      RunAllKeepsCycle(t, txs[1..], c);
      CycleFollowsTransitive(s, t, RunAll(s, txs), c);
    }
  }
}
