/** No receipt is ever lost: once submitted it stays in the table until it is executed,
    cancelled, or dropped with a refund, and an executed receipt with submissions left has
    left its successor behind. */
module Custody {
  import opened Evm
  import opened GelatoTypes
  import opened GelatoState
  import opened Providers
  import opened Core
  import opened Invariants
  import opened Reachability
  import opened TaskCycles
  import opened Rounds
  import Operations

  /** The receipt submitted after `r` when `r` was executed. */
  ghost predicate HasSuccessor(submitted: seq<TaskReceipt>, r: TaskReceipt) {
    r.HasTask() && exists j :: r.id <= j < |submitted| && submitted[j] == Next(r, j + 1)
  }

  /** What became of the receipt with this id. */
  ghost predicate Accounted(s: State, id: nat) {
    1 <= id <= |s.logs.submitted| ==>
      var r := s.logs.submitted[id - 1];
      || (id in s.book.taskReceiptHash && s.book.taskReceiptHash[id] == r)
      || id in s.logs.cancelled
      || id in s.logs.dropped
      || (id in s.logs.executed && (r.submissionsLeft == 1 || HasSuccessor(s.logs.submitted, r)))
  }

  /** Later logs extend earlier ones, and the entry of this id is untouched. */
  ghost predicate Undisturbed(s: State, t: State, id: nat) {
    && t.logs.submitted == s.logs.submitted
    && s.logs.executed <= t.logs.executed && s.logs.cancelled <= t.logs.cancelled && s.logs.dropped <= t.logs.dropped
    && (id in s.book.taskReceiptHash ==> id in t.book.taskReceiptHash && t.book.taskReceiptHash[id] == s.book.taskReceiptHash[id])
  }

  lemma UndisturbedKeeps(s: State, t: State, id: nat)
    requires Accounted(s, id) && Undisturbed(s, t, id)
    ensures Accounted(t, id)
  {
  }

  /** A new receipt is in the table; the successors of older ones stay where they are. */
  lemma StoringKeeps(s: State, t: State, r: TaskReceipt, id: nat)
    requires BookOk(s.book, s.logs) && Accounted(s, id) && Stored(s, t, r)
    requires t.logs.executed == s.logs.executed
    ensures Accounted(t, id)
  {
    if 1 <= id <= |s.logs.submitted| {
      var x := s.logs.submitted[id - 1];
      assert t.logs.submitted[id - 1] == x;
      if HasSuccessor(s.logs.submitted, x) {
        var j :| x.id <= j < |s.logs.submitted| && s.logs.submitted[j] == Next(x, j + 1);
        assert t.logs.submitted[j] == Next(x, j + 1);
      }
    }
  }

  lemma SingleCancelAccounts(s: State, sender: Address, r: TaskReceipt, id: nat)
    requires Accounted(s, id) && CancelTask(s, sender, r).Ok?
    ensures Accounted(CancelTask(s, sender, r).value, id)
  {
    var t := CancelTask(s, sender, r).value;
    if id == r.id {
      assert t.logs.cancelled[|s.logs.cancelled|] == id;
    } else {
      UndisturbedKeeps(s, t, id);
    }
  }

  lemma {:induction false} CancelsAccount(s: State, sender: Address, receipts: seq<TaskReceipt>, id: nat)
    requires Accounted(s, id) && MultiCancelTasks(s, sender, receipts).Ok?
    ensures Accounted(MultiCancelTasks(s, sender, receipts).value, id)
    decreases |receipts|
  {
    hide Accounted, CancelTask;
    if receipts != [] {
      SingleCancelAccounts(s, sender, receipts[0], id);
      CancelsAccount(CancelTask(s, sender, receipts[0]).value, sender, receipts[1..], id);
    }
  }

  lemma SubmissionAccounts(s: State, sender: Address, call: Call, id: nat)
    requires BookOk(s.book, s.logs) && Accounted(s, id) && IsSubmitting(call) && ApplyLocal(s, sender, call).Ok?
    ensures Accounted(ApplyLocal(s, sender, call).value, id)
  {
    hide Accounted, BookOk;
    var t := ApplyLocal(s, sender, call).value;
    StoringKeeps(s, t, t.logs.submitted[|s.logs.submitted|], id);
  }

  lemma LocalAccounts(s: State, sender: Address, call: Call, id: nat)
    requires BookOk(s.book, s.logs) && Accounted(s, id) && IsLocal(call) && ApplyLocal(s, sender, call).Ok?
    ensures Accounted(ApplyLocal(s, sender, call).value, id)
  {
    hide Accounted, BookOk, CancelTask;
    if IsSubmitting(call) {
      SubmissionAccounts(s, sender, call, id);
    } else if call.CancelTaskCall? {
      SingleCancelAccounts(s, sender, call.receipt, id);
    } else if call.MultiCancelTasksCall? {
      CancelsAccount(s, sender, call.receipts, id);
    } else {
      OtherLocalKeepsReceipts(s, sender, call);
      hide ApplyLocal;
      UndisturbedKeeps(s, ApplyLocal(s, sender, call).value, id);
    }
  }

  lemma {:induction false} SendValueAccounts(s: State, t: State, amount: uint256, payout: Reply, id: nat)
    requires Accounted(s, id) && t.book == s.book && t.logs == s.logs && Owes(t, amount)
    requires SendValue(t, amount, payout).Ok?
    ensures Accounted(SendValue(t, amount, payout).value, id)
    decreases payout, 1
  {
    hide Inv;
    RunAllAccounts(t.(money := t.money.(balance := t.money.balance - amount)), payout.nested, id);
  }

  /** The executed receipt itself: its successor is the last receipt submitted. */
  lemma ExecutedHasSuccessor(t: State, u: State, r: TaskReceipt)
    requires r.HasTask() && r.id <= |t.logs.submitted| && |t.logs.submitted| == t.book.currentTaskReceiptId
    requires Stored(t, u, Next(r, t.book.currentTaskReceiptId + 1))
    ensures HasSuccessor(u.logs.submitted, r)
  {
    assert u.logs.submitted[|t.logs.submitted|] == Next(r, |t.logs.submitted| + 1);
  }

  /** `u` is accounted for `id` once the execution of `r` is logged. */
  ghost predicate AccountedBut(u: State, r: TaskReceipt, id: nat) {
    if id != r.id then Accounted(u, id)
    else 1 <= id <= |u.logs.submitted| ==> u.logs.submitted[id - 1].submissionsLeft == 1 || HasSuccessor(u.logs.submitted, u.logs.submitted[id - 1])
  }

  lemma StillSubmitted(s: State, t: State, r: TaskReceipt)
    requires Inv(s) && s.IsLive(r) && Follows(DeleteTaskReceipt(s, r.id), t)
    ensures BookOk(t.book, t.logs) && 1 <= r.id <= |t.logs.submitted| && t.logs.submitted[r.id - 1] == r
  {
    assert s.logs.submitted[r.id - 1] == r;
  }

  lemma {:induction false} ExecTaskAccounts(s: State, r: TaskReceipt, env: ExecEnv, id: nat)
    requires Inv(s) && s.IsLive(r) && Accounted(s, id) && r.HasTask() && ExecTask(s, r, env).Ok?
    ensures AccountedBut(ExecTask(s, r, env).value, r, id)
    decreases env, 1
  {
    hide Inv, Accounted, HasSuccessor, BookOk, Evolves;
    var d := DeleteTaskReceipt(s, r.id);
    DeletingKeeps(s, r.id);
    RunAllKeeps(d, env.proxyCall.nested);
    var t := RunAll(d, env.proxyCall.nested);
    StillSubmitted(s, t, r);
    if id != r.id {
      UndisturbedKeeps(s, d, id);
      RunAllAccounts(d, env.proxyCall.nested, id);
    }
    if r.submissionsLeft != 1 {
      var u := ExecTask(s, r, env).value;
      SuccessorAccounts(t, u, r, id);
    }
  }

  lemma SuccessorAccounts(t: State, u: State, r: TaskReceipt, id: nat)
    requires BookOk(t.book, t.logs) && 1 <= r.id <= |t.logs.submitted| && t.logs.submitted[r.id - 1] == r
    requires r.HasTask() && Stored(t, u, Next(r, t.book.currentTaskReceiptId + 1))
    requires u.logs == t.logs.(submitted := u.logs.submitted)
    requires id != r.id ==> Accounted(t, id)
    ensures AccountedBut(u, r, id)
  {
    if id == r.id {
      ExecutedHasSuccessor(t, u, r);
      assert u.logs.submitted[r.id - 1] == r;
    } else {
      StoringKeeps(t, u, Next(r, t.book.currentTaskReceiptId + 1), id);
    }
  }

  lemma RewardAccounts(t: State, u: State, r: TaskReceipt, id: nat)
    requires AccountedBut(t, r, id)
    requires u.book == t.book && u.logs == t.logs.(executed := t.logs.executed + [r.id])
    ensures Accounted(u, id)
  {
    if id == r.id {
      assert u.logs.executed[|t.logs.executed|] == id;
    } else {
      UndisturbedKeeps(t, u, id);
    }
  }

  lemma RefundAccounts(s: State, u: State, r: TaskReceipt, id: nat)
    requires Accounted(s, id)
    requires u.book == DropTaskReceipt(s, r.id).book && u.logs == DropTaskReceipt(s, r.id).logs
    ensures Accounted(u, id)
  {
    if id == r.id && id in s.book.taskReceiptHash {
      assert u.logs.dropped[|s.logs.dropped|] == id;
    } else {
      UndisturbedKeeps(s, u, id);
    }
  }

  lemma {:induction false} ExecAccounts(s: State, sender: Address, r: TaskReceipt, env: ExecEnv, id: nat)
    requires Inv(s) && sender != ZERO_ADDRESS && Accounted(s, id) && env.Plausible() && Exec(s, sender, r, env).Ok?
    ensures Accounted(Exec(s, sender, r, env).value, id)
    decreases env, 3
  {
    hide Inv, Accounted, AccountedBut, ExecTask, CanExec;
    var gasPrice := OraclePrice(env).value;
    var gasLimit := GasLimit(s, r).value;
    var u := Exec(s, sender, r, env).value;
    match ExecutionWrapper(s, r, gasLimit, gasPrice, env)
    case Ok(CanExecFailed(_)) =>
    case Ok(ExecSuccess(t)) =>
      CanExecNeedsLive(s, Option.None, r, gasLimit, gasPrice, env.now, env.views);
      ExecTaskAccounts(s, r, env, id);
      RewardAccounts(t, u, r, id);
    case Revert(_) =>
      if env.startGas >= gasLimit {
        RefundAccounts(s, u, r, id);
      }
  }

  lemma {:induction false} MultiUnprovideAccounts(s: State, sender: Address, amount: uint256, specs: seq<TaskSpec>,
                                                  modules: seq<Address>, payout: Reply, id: nat)
    requires Inv(s) && Accounted(s, id) && MultiUnprovide(s, sender, amount, specs, modules, payout).Ok?
    ensures Accounted(MultiUnprovide(s, sender, amount, specs, modules, payout).value, id)
    decreases payout, 2
  {
    hide Inv, Accounted, SendValue;
    var u := MultiUnprovide(s, sender, amount, specs, modules, payout).value;
    if amount != 0 {
      UnprovideOwes(s, sender, amount);
      var (t, paid) := UnprovideFunds(s, sender, amount);
      SendValueAccounts(s, t, paid, payout, id);
      UndisturbedKeeps(SendValue(t, paid, payout).value, u, id);
    } else {
      UndisturbedKeeps(s, u, id);
    }
  }

  lemma {:induction false} PayoutAccounts(s: State, tx: Tx, id: nat)
    requires Inv(s) && Accounted(s, id) && IsPayout(tx.call) && Apply(s, tx).Ok?
    ensures Accounted(Apply(s, tx).value, id)
    decreases tx, 0
  {
    hide Inv, Accounted, Apply, SendValue;
    var t, paid := PaidOut(s, tx);
    SendValueAccounts(s, t, paid, tx.call.payout, id);
  }

  lemma {:induction false} ApplyAccounts(s: State, tx: Tx, id: nat)
    requires Inv(s) && Accounted(s, id) && Apply(s, tx).Ok?
    ensures Accounted(Apply(s, tx).value, id)
    decreases tx, 1
  {
    hide Accounted;
    ValidParts(s);
    hide Inv;
    var Tx(sender, call) := tx;
    if IsLocal(call) {
      ApplyIsLocal(s, tx);
      LocalAccounts(s, sender, call, id);
    } else if call.MultiUnprovideCall? {
      MultiUnprovideAccounts(s, sender, call.amount, call.specs, call.modules, call.payout, id);
    } else if call.ExecCall? {
      ExecAccounts(s, sender, call.receipt, call.env, id);
    } else {
      PayoutAccounts(s, tx, id);
    }
  }

  lemma {:induction false} RunAllAccounts(s: State, txs: seq<Tx>, id: nat)
    requires Inv(s) && Accounted(s, id)
    ensures Accounted(RunAll(s, txs), id)
    decreases txs, 0
  {
    hide Accounted, Inv, Apply;
    if txs != [] {
      StepKeeps(s, txs[0]);
      if Apply(s, txs[0]).Ok? {
        ApplyAccounts(s, txs[0], id);
      }
      RunAllAccounts(Step(s, txs[0]), txs[1..], id);
    }
  }

  // ----- on every run -----

  lemma ReachedStates(params: Params, txs: seq<Tx>, id: nat)
    ensures var s := RunAll(Deployed(params), txs); BookOk(s.book, s.logs) && Accounted(s, id)
  {
    hide RunAll, Inv, BookOk;
    DeployedIsValid(params);
    RunAllKeeps(Deployed(params), txs);
    ValidParts(RunAll(Deployed(params), txs));
    RunAllAccounts(Deployed(params), txs, id);
  }

  lemma LiveOrGone(s: State, r: TaskReceipt)
    requires BookOk(s.book, s.logs) && Accounted(s, r.id)
    ensures s.IsLive(r) <==>
            r in s.logs.submitted && r.id !in s.logs.executed && r.id !in s.logs.cancelled && r.id !in s.logs.dropped
  {
    if r in s.logs.submitted {
      var i :| 0 <= i < |s.logs.submitted| && s.logs.submitted[i] == r;
      assert s.logs.submitted[r.id - 1] == r;
    }
  }

  /** On every run, a receipt is stored exactly as long as it was submitted and neither
      executed, nor cancelled, nor dropped with a refund. */
  lemma NoReceiptIsLost(params: Params, txs: seq<Tx>, r: TaskReceipt)
    ensures var s := RunAll(Deployed(params), txs);
            s.IsLive(r) <==>
            r in s.logs.submitted && r.id !in s.logs.executed && r.id !in s.logs.cancelled && r.id !in s.logs.dropped
  {
    hide RunAll, BookOk, Accounted, Deployed;
    ReachedStates(params, txs, r.id);
    LiveOrGone(RunAll(Deployed(params), txs), r);
  }

  /** Cancelling succeeds exactly for the receipt's user proxy or provider, and exactly for
      a submitted receipt that was neither executed nor cancelled nor dropped before. */
  lemma CancelIsExact(params: Params, txs: seq<Tx>, sender: Address, r: TaskReceipt)
    ensures var s := RunAll(Deployed(params), txs);
            CancelTask(s, sender, r).Ok? <==>
            && (sender == r.userProxy || sender == r.provider.addr)
            && r in s.logs.submitted && r.id !in s.logs.executed && r.id !in s.logs.cancelled && r.id !in s.logs.dropped
  {
    hide RunAll, Deployed;
    NoReceiptIsLost(params, txs, r);
  }

  /** The last receipt listed for a cycle has the greatest id. */
  lemma {:induction false} LastIsNewest(submitted: seq<TaskReceipt>, c: nat, i: nat)
    requires forall k :: 0 <= k < |submitted| ==> submitted[k].id == k + 1
    requires i < |submitted| && submitted[i].cycleId == c
    ensures var l := OfCycle(submitted, c); l != [] && l[|l| - 1].id >= i + 1
  {
    var last := |submitted| - 1;
    if submitted[last].cycleId != c {
      LastIsNewest(submitted[..last], c, i);
    }
  }

  lemma LastOfCycle(s: State, c: nat, r: TaskReceipt)
    requires BookOk(s.book, s.logs) && Accounted(s, r.id) && EndsWith(OfCycle(s.logs.submitted, c), r)
    ensures || s.IsLive(r) || r.id in s.logs.cancelled || r.id in s.logs.dropped
            || (r.id in s.logs.executed && r.submissionsLeft == 1)
  {
    OfCycleWasSubmitted(s.logs.submitted, |OfCycle(s.logs.submitted, c)| - 1, c);
    if HasSuccessor(s.logs.submitted, r) {
      var j :| r.id <= j < |s.logs.submitted| && s.logs.submitted[j] == Next(r, j + 1);
      LastIsNewest(s.logs.submitted, c, j);
    }
  }

  /** A cycle never stalls: its latest receipt is waiting for execution, or somebody
      cancelled it, or it was dropped with a refund, or it was the last of its budget. */
  lemma CyclesNeverStall(params: Params, txs: seq<Tx>, c: nat)
    ensures var s := RunAll(Deployed(params), txs);
            var l := OfCycle(s.logs.submitted, c);
            l != [] ==>
              var r := l[|l| - 1];
              || s.IsLive(r) || r.id in s.logs.cancelled || r.id in s.logs.dropped
              || (r.id in s.logs.executed && r.submissionsLeft == 1)
  {
    hide RunAll, BookOk, Accounted, Deployed;
    var s := RunAll(Deployed(params), txs);
    var l := OfCycle(s.logs.submitted, c);
    if l != [] {
      ReachedStates(params, txs, l[|l| - 1].id);
      LastOfCycle(s, c, l[|l| - 1]);
    }
  }

  /** On every run every receipt of a cycle but its latest was executed. */
  lemma AllButLastExecuted(params: Params, txs: seq<Tx>, c: nat, k: nat)
    requires c > 0
    ensures var s := RunAll(Deployed(params), txs);
            var l := OfCycle(s.logs.submitted, c);
            k < |l| - 1 ==> l[k].id in s.logs.executed
  {
    hide RunAll, BookOk, Deployed, IsChain;
    var s := RunAll(Deployed(params), txs);
    var l := OfCycle(s.logs.submitted, c);
    if k < |l| - 1 {
      CyclesAreChains(params, txs, c);
      assert Used(s, l[k].id);
      OfCycleWasSubmitted(s.logs.submitted, k, c);
      NoReceiptIsLost(params, txs, l[k]);
    }
  }

  /** A cycle with a budget of full rounds whose latest receipt was executed has executed each
      of its tasks exactly once per round. */
  lemma FinishedCycle(params: Params, txs: seq<Tx>, c: nat, rounds: nat, j: nat)
    requires c > 0
    requires var s := RunAll(Deployed(params), txs);
             var l := OfCycle(s.logs.submitted, c);
             l != [] && j < |l[0].tasks| && l[0].submissionsLeft == rounds * |l[0].tasks| > 0 && l[|l| - 1].id in s.logs.executed
    ensures var s := RunAll(Deployed(params), txs);
            var l := OfCycle(s.logs.submitted, c);
            (forall k :: 0 <= k < |l| ==> l[k].id in s.logs.executed) && RunsOf(l, j) == rounds
  {
    hide RunAll, BookOk, Deployed;
    var s := RunAll(Deployed(params), txs);
    var l := OfCycle(s.logs.submitted, c);
    forall k | 0 <= k < |l| ensures l[k].id in s.logs.executed {
      AllButLastExecuted(params, txs, c, k);
    }
    ExecutedIsNotElsewhere(params, txs, l[|l| - 1]);
    CyclesNeverStall(params, txs, c);
    CyclesRunInOrder(params, txs, c, |l| - 1);
    CyclesAreChains(params, txs, c);
    MulIsProduct(rounds, |l[0].tasks|);
    RoundsOfChain(l, rounds, 0, j);
    assert l[..|l|] == l;
  }

  /** The run up to, with, and after the submission of a cycle. */
  function WithCycle(txs: seq<Tx>, sender: Address, call: Call, later: seq<Tx>): seq<Tx> {
    txs + ([Tx(sender, call)] + later)
  }

  lemma CycleRoot(s: State, sender: Address, call: Call)
    requires Inv(s) && call.SubmitTaskCycleCall? && ApplyLocal(s, sender, call).Ok?
    ensures var l, id := ApplyLocal(s, sender, call).value.logs.submitted, s.book.currentTaskReceiptId + 1;
            && |l| == id && l[id - 1].cycleId == id
            && |l[id - 1].tasks| == |call.tasks| && l[id - 1].submissionsLeft == Wrap(call.cycles * |call.tasks|)
  {
    ValidParts(s);
    hide Inv, Wrap;
    Operations.DefaultsKeepLength(s.params, sender, call.gelatoProvider, call.tasks);
    hide SelfProviderGasDefaults, Defaulted;
  }

  lemma RunWithCycle(params: Params, txs: seq<Tx>, sender: Address, call: Call, later: seq<Tx>) returns (t: State)
    requires sender != ZERO_ADDRESS && IsLocal(call) && ApplyLocal(RunAll(Deployed(params), txs), sender, call).Ok?
    ensures var s := RunAll(Deployed(params), txs); Inv(s) && ApplyLocal(s, sender, call) == Ok(t)
    ensures RunAll(Deployed(params), WithCycle(txs, sender, call, later)) == RunAll(t, later)
    ensures t.logs.submitted <= RunAll(t, later).logs.submitted
  {
    hide RunAll, Deployed, Apply, ApplyLocal, Inv;
    var s0 := Deployed(params);
    var s := RunAll(s0, txs);
    t := ApplyLocal(s, sender, call).value;
    DeployedIsValid(params);
    RunAllKeeps(s0, txs);
    LocalStep(s, sender, call, t);
    FirstThen(s, Tx(sender, call), later);
    RunsInSequence(s0, txs, [Tx(sender, call)] + later);
    StepKeeps(s, Tx(sender, call));
    RunAllKeeps(t, later);
  }

  lemma RootOfCycle(params: Params, txs: seq<Tx>, sender: Address, call: Call, later: seq<Tx>)
    requires sender != ZERO_ADDRESS && call.SubmitTaskCycleCall?
    requires ApplyLocal(RunAll(Deployed(params), txs), sender, call).Ok?
    ensures var s, v := RunAll(Deployed(params), txs), RunAll(Deployed(params), WithCycle(txs, sender, call, later));
            var l := OfCycle(v.logs.submitted, s.book.currentTaskReceiptId + 1);
            && l != [] && |l[0].tasks| == |call.tasks| && l[0].submissionsLeft == Wrap(call.cycles * |call.tasks|)
  {
    hide RunAll, Deployed, ApplyLocal, WithCycle, Wrap, Inv;
    var s := RunAll(Deployed(params), txs);
    var id := s.book.currentTaskReceiptId + 1;
    var t := RunWithCycle(params, txs, sender, call, later);
    CycleRoot(s, sender, call);
    var v := RunAll(t, later);
    assert v.logs.submitted[id - 1] == t.logs.submitted[id - 1];
    OfCycleContains(v.logs.submitted, id - 1, id);
    FirstIsRoot(params, WithCycle(txs, sender, call, later), id);
  }

  /** submitTaskCycle at any point of any run, and any run after it: as long as rounds times
      tasks is positive and fits a word, once the latest receipt of the new cycle has been executed
      all of them have, and each task exactly as often as there were rounds. */
  lemma EveryTaskEveryRound(params: Params, txs: seq<Tx>, sender: Address, call: Call, later: seq<Tx>, j: nat)
    requires sender != ZERO_ADDRESS && call.SubmitTaskCycleCall? && j < |call.tasks|
    requires 0 < call.cycles * |call.tasks| < MODULUS
    requires ApplyLocal(RunAll(Deployed(params), txs), sender, call).Ok?
    ensures var s, v := RunAll(Deployed(params), txs), RunAll(Deployed(params), WithCycle(txs, sender, call, later));
            var l := OfCycle(v.logs.submitted, s.book.currentTaskReceiptId + 1);
            && l != []
            && (l[|l| - 1].id in v.logs.executed ==>
                  (forall k :: 0 <= k < |l| ==> l[k].id in v.logs.executed) && RunsOf(l, j) == call.cycles)
  {
    RootOfCycle(params, txs, sender, call, later);
    hide RunAll, Deployed, ApplyLocal, OfCycle, RunsOf, WithCycle;
    var s, v := RunAll(Deployed(params), txs), RunAll(Deployed(params), WithCycle(txs, sender, call, later));
    var l := OfCycle(v.logs.submitted, s.book.currentTaskReceiptId + 1);
    if l[|l| - 1].id in v.logs.executed {
      FinishedCycle(params, WithCycle(txs, sender, call, later), s.book.currentTaskReceiptId + 1, call.cycles, j);
    }
  }

  lemma FirstThen(s: State, tx: Tx, later: seq<Tx>)
    ensures RunAll(s, [tx] + later) == RunAll(Step(s, tx), later)
  {
    assert ([tx] + later)[0] == tx && ([tx] + later)[1..] == later;
    hide Step;
  }

  /** The first receipt of a cycle is the one whose id names it. */
  lemma FirstIsRoot(params: Params, txs: seq<Tx>, c: nat)
    requires c > 0
    ensures var s := RunAll(Deployed(params), txs);
            var l := OfCycle(s.logs.submitted, c);
            l != [] ==> c <= |s.logs.submitted| && l[0] == s.logs.submitted[c - 1]
  {
    hide RunAll, Deployed;
    var s := RunAll(Deployed(params), txs);
    var l := OfCycle(s.logs.submitted, c);
    if l != [] {
      CyclesAreChains(params, txs, c);
      OfCycleWasSubmitted(s.logs.submitted, 0, c);
      ReachedStates(params, txs, c);
      var i :| 0 <= i < |s.logs.submitted| && s.logs.submitted[i] == l[0];
    }
  }

  lemma ExecutedIsNotElsewhere(params: Params, txs: seq<Tx>, r: TaskReceipt)
    ensures var s := RunAll(Deployed(params), txs);
            r.id in s.logs.executed ==> !s.IsLive(r) && r.id !in s.logs.cancelled && r.id !in s.logs.dropped
  {
    hide RunAll, Deployed;
    ReachedStates(params, txs, r.id);
  }
}
