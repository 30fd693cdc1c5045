/** What the receipts of a cycle do on every run: they follow each other through the tasks,
    round by round, within the budget of the cycle. */
module Rounds {
  import opened Evm
  import opened GelatoTypes
  import opened GelatoState
  import opened Core
  import opened Invariants
  import opened TaskCycles
  import Bytes

  /** On every run the receipts of every cycle form a chain of which only the last may
      still be stored. */
  lemma {:induction false} CyclesAreChains(params: Params, txs: seq<Tx>, c: nat)
    requires c > 0
    ensures CycleOk(RunAll(Deployed(params), txs), c)
  {
    hide RunAll, Inv;
    DeployedIsValid(params);
    assert CycleOk(Deployed(params), c);
    RunAllKeepsCycle(Deployed(params), txs, c);
  }

  /** The k-th receipt of a cycle of n tasks runs task k modulo n; a budget of m > 0
      submissions is never exceeded and is used up when the last receipt has one left. */
  lemma {:induction false} CyclesRunInOrder(params: Params, txs: seq<Tx>, c: nat, k: nat)
    requires c > 0
    ensures var l := OfCycle(RunAll(Deployed(params), txs).logs.submitted, c);
            k < |l| && |l[0].tasks| > 0 ==>
              && l[0].id == c
              && l[k].tasks == l[0].tasks && l[k].index == k % |l[0].tasks|
              && (l[0].submissionsLeft > 0 ==> |l| <= l[0].submissionsLeft)
              && (l[0].submissionsLeft > 0 ==> (l[k].submissionsLeft == 1 <==> k == l[0].submissionsLeft - 1))
              && (l[0].submissionsLeft == 0 ==> l[k].submissionsLeft == 0)
  {
    hide RunAll, Inv;
    CyclesAreChains(params, txs, c);
    var l := OfCycle(RunAll(Deployed(params), txs).logs.submitted, c);
    if k < |l| && |l[0].tasks| > 0 {
      ChainPositions(l, k);
      ChainPositions(l, |l| - 1);
    }
  }

  /** How many receipts of a list run task `j`. */
  function RunsOf(l: seq<TaskReceipt>, j: nat): nat {
    if l == [] then 0
    else RunsOf(l[..|l| - 1], j) + (if l[|l| - 1].index == j then 1 else 0)
  }

  lemma TurnInRound(l: seq<TaskReceipt>, q: nat, i: nat)
    requires IsChain(l) && l != [] && l[0].index == 0 && i < |l[0].tasks| && Mul(q, |l[0].tasks|) + i < |l|
    ensures l[Mul(q, |l[0].tasks|) + i].index == i
  {
    hide Mul, IsChain;
    ChainPositions(l, Mul(q, |l[0].tasks|) + i);
    MulIsProduct(q, |l[0].tasks|);
    Bytes.ModuloOf(q, |l[0].tasks|, i);
  }

  lemma OneMoreRun(l: seq<TaskReceipt>, m: nat, j: nat)
    requires 0 < m <= |l|
    ensures RunsOf(l[..m], j) == RunsOf(l[..m - 1], j) + if l[m - 1].index == j then 1 else 0
  {
    assert l[..m][..m - 1] == l[..m - 1];
  }

  /** The first q rounds of a chain and i tasks of the next one run task j q times, and once
      more if i has come past j. */
  lemma {:induction false} RoundsOfChain(l: seq<TaskReceipt>, q: nat, i: nat, j: nat)
    requires IsChain(l) && l != [] && l[0].index == 0 && j < |l[0].tasks| && i <= |l[0].tasks|
    requires Mul(q, |l[0].tasks|) + i <= |l|
    ensures RunsOf(l[..Mul(q, |l[0].tasks|) + i], j) == q + if j < i then 1 else 0
    decreases q, i
  {
    hide IsChain;
    if i > 0 {
      hide RunsOf, Mul;
      RoundsOfChain(l, q, i - 1, j);
      OneMoreRun(l, Mul(q, |l[0].tasks|) + i, j);
      TurnInRound(l, q, i - 1);
    } else if q > 0 {
      hide RunsOf;
      RoundsOfChain(l, q - 1, |l[0].tasks|, j);
    } else {
      assert l[..0] == [];
    }
  }

  /** On every run a cycle of n tasks that has come to q rounds and i further receipts has q
      receipts for task j, and one more if i is past j. */
  lemma {:induction false} RoundByRound(params: Params, txs: seq<Tx>, c: nat, q: nat, i: nat, j: nat)
    requires c > 0
    ensures var l := OfCycle(RunAll(Deployed(params), txs).logs.submitted, c);
            l != [] && i < |l[0].tasks| && j < |l[0].tasks| && |l| == Mul(q, |l[0].tasks|) + i ==>
              RunsOf(l, j) == q + if j < i then 1 else 0
  {
    hide RunAll, Deployed, OfCycle, RunsOf, Mul;
    CyclesAreChains(params, txs, c);
    var l := OfCycle(RunAll(Deployed(params), txs).logs.submitted, c);
    if l != [] && i < |l[0].tasks| && j < |l[0].tasks| && |l| == Mul(q, |l[0].tasks|) + i {
      RoundsOfChain(l, q, i, j);
      assert l[..|l|] == l;
    }
  }

  /** The budget of a submitted cycle is the requested one exactly when the product of
      rounds and tasks fits a word. */
  lemma {:induction false} CycleBudget(s: State, sender: Address, provider: Provider, tasks: seq<Task>, expiryDate: uint256, cycles: uint256)
    requires SubmitTaskCycle(s, sender, provider, tasks, expiryDate, cycles).Ok?
    ensures var t := SubmitTaskCycle(s, sender, provider, tasks, expiryDate, cycles).value;
            var r := t.logs.submitted[|s.logs.submitted|];
            r.submissionsLeft == cycles * |tasks| <==> cycles * |tasks| < MODULUS
  {
  }

  /** When it does not fit, a finite request can even become an endless cycle. */
  lemma {:induction false} EndlessByOverflow(s: State, sender: Address, provider: Provider, task: Task, expiryDate: uint256)
    requires sender != provider.addr
    ensures var cycles := MODULUS / 2;
            var r := SubmitTaskCycle(s, sender, provider, [task, task], expiryDate, cycles);
            r.Ok? && r.value.logs.submitted[|s.logs.submitted|].submissionsLeft == 0
  {
  }
}
