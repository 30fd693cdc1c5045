/** The minimum stake over time: for which histories of the minimum every assigned executor is
    sure to be min-staked, and for which the zero address is sure not to be counted. */
module MinimumStake {
  import opened Evm
  import opened GelatoState
  import opened SysAdmin
  import opened Core
  import opened Invariants
  import opened Reachability
  import opened Guarantees

  // ----- histories -----

  /** The minimum before the k-th change, or after the last one. */
  function MinimumAt(first: uint256, mins: seq<uint256>, k: nat): uint256
    requires k <= |mins|
  {
    if k == 0 then first else mins[k - 1]
  }

  /** What is logged when the minimum goes from `first` through `mins`. */
  function Changes(first: uint256, mins: seq<uint256>): seq<(uint256, uint256)> {
    seq(|mins|, k requires 0 <= k < |mins| => (MinimumAt(first, mins, k), mins[k]))
  }

  ghost predicate HasHistory(s: State, first: uint256, mins: seq<uint256>) {
    s.logs.minStakeSet == Changes(first, mins)
  }

  ghost predicate EndsLowest(first: uint256, mins: seq<uint256>) {
    forall k :: 0 <= k <= |mins| ==> MinimumAt(first, mins, |mins|) <= MinimumAt(first, mins, k)
  }

  ghost predicate AlwaysPositive(first: uint256, mins: seq<uint256>) {
    forall k :: 0 <= k <= |mins| ==> MinimumAt(first, mins, k) > 0
  }

  ghost predicate AllStaked(s: State) {
    forall p :: s.ExecutorByProvider(p) != ZERO_ADDRESS ==> s.IsExecutorMinStaked(s.ExecutorByProvider(p))
  }

  // ----- what a history guarantees -----

  /** On every run the log of changes determines the present minimum. */
  lemma PresentMinimum(params: Params, txs: seq<Tx>, mins: seq<uint256>)
    requires HasHistory(RunAll(Deployed(params), txs), params.minExecutorStake, mins)
    ensures var s := RunAll(Deployed(params), txs);
            Inv(s) && s.params.minExecutorStake == MinimumAt(params.minExecutorStake, mins, |mins|)
  {
    hide RunAll, Solvent, CountsAgree, BookOk, ModulesOk, AssignedWereMinStaked;
    DeployedIsValid(params);
    RunAllKeeps(Deployed(params), txs);
    var s := RunAll(Deployed(params), txs);
    if mins != [] {
      assert s.logs.minStakeSet[|mins| - 1] == Changes(params.minExecutorStake, mins)[|mins| - 1];
    } else {
      assert s.logs.minStakeSet == Deployed(params).logs.minStakeSet;
    }
  }

  lemma LowestIsEnough(params: Params, txs: seq<Tx>, mins: seq<uint256>)
    requires HasHistory(RunAll(Deployed(params), txs), params.minExecutorStake, mins) && EndsLowest(params.minExecutorStake, mins)
    ensures AllStaked(RunAll(Deployed(params), txs))
  {
    hide RunAll, Deployed, Inv;
    PresentMinimum(params, txs, mins);
    var s := RunAll(Deployed(params), txs);
    forall p | s.ExecutorByProvider(p) != ZERO_ADDRESS ensures s.IsExecutorMinStaked(s.ExecutorByProvider(p)) {
      AssignedExecutorsStayStaked(params, txs, p);
    }
  }

  lemma PositiveIsEnough(params: Params, txs: seq<Tx>, mins: seq<uint256>)
    requires HasHistory(RunAll(Deployed(params), txs), params.minExecutorStake, mins) && AlwaysPositive(params.minExecutorStake, mins)
    ensures RunAll(Deployed(params), txs).ProvidersCount(ZERO_ADDRESS) == 0
  {
    hide RunAll, Deployed, Inv;
    PresentMinimum(params, txs, mins);
    NobodyIsNotCounted(params, txs);
  }

  // ----- runs with a given history -----

  function Settings(owner: Address, mins: seq<uint256>): seq<Tx> {
    seq(|mins|, k requires 0 <= k < |mins| => Tx(owner, SetMinExecutorStakeCall(mins[k])))
  }

  /** `s` with its minimum moved through `mins`. */
  function Moved(s: State, mins: seq<uint256>): State {
    var first := s.params.minExecutorStake;
    s.(params := s.params.(minExecutorStake := MinimumAt(first, mins, |mins|)),
       logs := s.logs.(minStakeSet := s.logs.minStakeSet + Changes(first, mins)))
  }

  lemma {:induction false} SettingAll(s: State, mins: seq<uint256>)
    requires s.params.owner != ZERO_ADDRESS
    ensures RunAll(s, Settings(s.params.owner, mins)) == Moved(s, mins)
    decreases |mins|
  {
    var first, txs := s.params.minExecutorStake, Settings(s.params.owner, mins);
    hide Step;
    if mins == [] {
      assert s.logs.minStakeSet + Changes(first, mins) == s.logs.minStakeSet;
    } else {
      var t := SetMinExecutorStake(s, s.params.owner, mins[0]).value;
      LocalStep(s, s.params.owner, SetMinExecutorStakeCall(mins[0]), t);
      assert txs[1..] == Settings(s.params.owner, mins[1..]);
      SettingAll(t, mins[1..]);
      assert Changes(first, mins) == [(first, mins[0])] + Changes(mins[0], mins[1..]);
      assert s.logs.minStakeSet + ([(first, mins[0])] + Changes(mins[0], mins[1..])) ==
             (s.logs.minStakeSet + [(first, mins[0])]) + Changes(mins[0], mins[1..]);
    }
  }

  /** A run that moves the minimum through `mins` and does something else in between. */
  function Interrupted(owner: Address, mins: seq<uint256>, k: nat, middle: seq<Tx>): seq<Tx>
    requires k <= |mins|
  {
    Settings(owner, mins[..k]) + (middle + Settings(owner, mins[k..]))
  }

  lemma InterruptedRun(params: Params, mins: seq<uint256>, k: nat, middle: seq<Tx>, money: Money, assign: Assignments)
    requires params.owner != ZERO_ADDRESS && k <= |mins|
    requires var s1 := Moved(Deployed(params), mins[..k]); RunAll(s1, middle) == s1.(money := money, assign := assign)
    ensures var s := RunAll(Deployed(params), Interrupted(params.owner, mins, k, middle));
            && s.money == money && s.assign == assign && HasHistory(s, params.minExecutorStake, mins)
            && s.params.minExecutorStake == MinimumAt(params.minExecutorStake, mins, |mins|)
  {
    hide RunAll;
    var s0, rest := Deployed(params), Settings(params.owner, mins[k..]);
    var s1 := Moved(s0, mins[..k]);
    var s2 := s1.(money := money, assign := assign);
    SettingAll(s0, mins[..k]);
    RunsInSequence(s0, Settings(params.owner, mins[..k]), middle + rest);
    RunsInSequence(s1, middle, rest);
    SettingAll(s2, mins[k..]);
    var first := params.minExecutorStake;
    assert Changes(first, mins) == Changes(first, mins[..k]) + Changes(MinimumAt(first, mins, k), mins[k..]);
    assert s0.logs.minStakeSet + Changes(first, mins[..k]) == Changes(first, mins[..k]);
  }

  lemma TwoSteps(s: State, tx: Tx, tx': Tx)
    ensures RunAll(s, [tx, tx']) == Step(Step(s, tx), tx')
  {
    hide Step;
    var txs := [tx, tx'];
    assert txs[1..] == [tx'] && txs[1..][1..] == [];
    assert RunAll(s, txs) == RunAll(Step(s, tx), txs[1..]) == RunAll(Step(Step(s, tx), tx'), []);
  }

  /** Executor 1 stakes exactly the minimum and is assigned to provider 2. */
  lemma StakedAndAssigned(s: State, min: uint256)
    requires s.money == Money(0, map[], map[], 0, 0) && s.assign == Assignments(map[], map[]) && s.params.minExecutorStake == min
    ensures RunAll(s, [Tx(1, StakeExecutorCall(min)), Tx(2, ProviderAssignsExecutorCall(1))]) ==
            s.(money := Money(min, map[], map[1 := min], 0, 0), assign := Assignments(map[2 := 1], map[1 := 1]))
  {
    hide Step, RunAll;
    var s1 := s.(money := Money(min, map[], map[1 := min], 0, 0));
    TwoSteps(s, Tx(1, StakeExecutorCall(min)), Tx(2, ProviderAssignsExecutorCall(1)));
    LocalStep(s, 1, StakeExecutorCall(min), s1);
    FirstAssignment(s1, 2, 1);
  }

  /** Provider 2 chooses executor 1, who hands it to nobody. */
  lemma AssignedToNobody(s: State)
    requires s.assign == Assignments(map[], map[]) && s.params.minExecutorStake == 0
    ensures RunAll(s, [Tx(2, ProviderAssignsExecutorCall(1)), Tx(1, ExecutorAssignsExecutorCall(2, ZERO_ADDRESS))]) ==
            s.(assign := Assignments(map[2 := ZERO_ADDRESS], map[1 := 0, ZERO_ADDRESS := 1]))
  {
    hide Step, RunAll;
    TwoSteps(s, Tx(2, ProviderAssignsExecutorCall(1)), Tx(1, ExecutorAssignsExecutorCall(2, ZERO_ADDRESS)));
    FirstAssignment(s, 2, 1);
    HandedOver(s.(assign := Assignments(map[2 := 1], map[1 := 1])));
  }

  // ----- exactly which histories -----

  /** After a history of minimums every assigned executor is sure to be min-staked exactly if the
      present minimum is not above any earlier one. */
  lemma StakedExactlyAtTheLowest(params: Params, mins: seq<uint256>)
    requires params.owner != ZERO_ADDRESS
    ensures (forall txs: seq<Tx> :: HasHistory(RunAll(Deployed(params), txs), params.minExecutorStake, mins) ==>
                                      AllStaked(RunAll(Deployed(params), txs))) <==>
            EndsLowest(params.minExecutorStake, mins)
  {
    hide RunAll, Deployed, HasHistory, AllStaked;
    if EndsLowest(params.minExecutorStake, mins) {
      forall txs: seq<Tx> | HasHistory(RunAll(Deployed(params), txs), params.minExecutorStake, mins)
        ensures AllStaked(RunAll(Deployed(params), txs))
      {
        LowestIsEnough(params, txs, mins);
      }
    } else {
      var k: nat :| k <= |mins| && MinimumAt(params.minExecutorStake, mins, |mins|) > MinimumAt(params.minExecutorStake, mins, k);
      var txs := RaisedLater(params, mins, k);
    }
  }

  lemma RaisedLater(params: Params, mins: seq<uint256>, k: nat) returns (txs: seq<Tx>)
    requires params.owner != ZERO_ADDRESS && k <= |mins|
    requires MinimumAt(params.minExecutorStake, mins, |mins|) > MinimumAt(params.minExecutorStake, mins, k)
    ensures HasHistory(RunAll(Deployed(params), txs), params.minExecutorStake, mins) && !AllStaked(RunAll(Deployed(params), txs))
  {
    hide RunAll, HasHistory;
    var min := MinimumAt(params.minExecutorStake, mins, k);
    var middle := [Tx(1, StakeExecutorCall(min)), Tx(2, ProviderAssignsExecutorCall(1))];
    StakedAndAssigned(Moved(Deployed(params), mins[..k]), min);
    InterruptedRun(params, mins, k, middle, Money(min, map[], map[1 := min], 0, 0), Assignments(map[2 := 1], map[1 := 1]));
    txs := Interrupted(params.owner, mins, k, middle);
    var s := RunAll(Deployed(params), txs);
    assert s.ExecutorByProvider(2) == 1 && s.ExecutorStake(1) == min;
  }

  /** After a history of minimums the zero address is sure not to be counted as an executor
      exactly if all of them were positive. */
  lemma NobodyCountedExactlyAtZero(params: Params, mins: seq<uint256>)
    requires params.owner != ZERO_ADDRESS
    ensures (forall txs: seq<Tx> :: HasHistory(RunAll(Deployed(params), txs), params.minExecutorStake, mins) ==>
                                      RunAll(Deployed(params), txs).ProvidersCount(ZERO_ADDRESS) == 0) <==>
            AlwaysPositive(params.minExecutorStake, mins)
  {
    hide RunAll, Deployed, HasHistory;
    if AlwaysPositive(params.minExecutorStake, mins) {
      forall txs: seq<Tx> | HasHistory(RunAll(Deployed(params), txs), params.minExecutorStake, mins)
        ensures RunAll(Deployed(params), txs).ProvidersCount(ZERO_ADDRESS) == 0
      {
        PositiveIsEnough(params, txs, mins);
      }
    } else {
      var k: nat :| k <= |mins| && MinimumAt(params.minExecutorStake, mins, k) == 0;
      var txs := CountedLater(params, mins, k);
    }
  }

  lemma CountedLater(params: Params, mins: seq<uint256>, k: nat) returns (txs: seq<Tx>)
    requires params.owner != ZERO_ADDRESS && k <= |mins| && MinimumAt(params.minExecutorStake, mins, k) == 0
    ensures HasHistory(RunAll(Deployed(params), txs), params.minExecutorStake, mins)
    ensures RunAll(Deployed(params), txs).ProvidersCount(ZERO_ADDRESS) == 1
  {
    hide RunAll, HasHistory;
    var middle := [Tx(2, ProviderAssignsExecutorCall(1)), Tx(1, ExecutorAssignsExecutorCall(2, ZERO_ADDRESS))];
    var s1 := Moved(Deployed(params), mins[..k]);
    AssignedToNobody(s1);
    InterruptedRun(params, mins, k, middle, s1.money, Assignments(map[2 := ZERO_ADDRESS], map[1 := 0, ZERO_ADDRESS := 1]));
    txs := Interrupted(params.owner, mins, k, middle);
  }
}
