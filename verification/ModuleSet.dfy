/** ProviderModuleSet: the enumerable set of module addresses kept for each provider,
    an array of modules beside a 1-based index of where each module sits. The set is a
    storage struct inside a mapping, so it is a value here. */
module ModuleSet {
  import opened Evm

  datatype Set = Set(index: map<Address, uint256>, modules: seq<Address>)

  const EMPTY := Set(map[], [])

  predicate Contains(s: Set, m: Address) {
    Get(s.index, m) != 0
  }

  /** The index finds every module at its position, and nothing else. */
  ghost predicate Valid(s: Set) {
    && |s.modules| <= ADDRESS_SPACE
    && (forall i :: 0 <= i < |s.modules| ==> Get(s.index, s.modules[i]) == i + 1)
    && (forall m :: Contains(s, m) ==> Get(s.index, m) <= |s.modules| && s.modules[Get(s.index, m) - 1] == m)
  }

  function Add(s: Set, m: Address): Set {
    if Contains(s, m) then s
    else
      var modules := s.modules + [m];
      Set(s.index[m := Wrap(|modules|)], modules)
  }

  function Remove(s: Set, m: Address): Set
    requires Contains(s, m) ==> Get(s.index, m) <= |s.modules|
  {
    if Contains(s, m) then
      var toDelete := Get(s.index, m) - 1;
      var last := |s.modules| - 1;
      var lastValue := s.modules[last];
      var modules := if last != toDelete then s.modules[toDelete := lastValue] else s.modules;
      var index := if last != toDelete then s.index[lastValue := toDelete + 1] else s.index;
      Set(index[m := 0], modules[..last])
    else s
  }

  /** Membership in constant time is membership in the enumerated list. */
  lemma ContainsIsMembership(s: Set, m: Address)
    requires Valid(s)
    ensures Contains(s, m) <==> m in s.modules
  {
  }

  /** The list never holds a module twice. */
  lemma NoDuplicates(s: Set, i: nat, j: nat)
    requires Valid(s) && i < |s.modules| && j < |s.modules|
    ensures s.modules[i] == s.modules[j] <==> i == j
  {
  }

  /** Counting to `n` leaves room for at most `n` different numbers. */
  lemma {:induction false} Pigeonhole(s: set<nat>, n: nat)
    requires forall x :: x in s ==> x < n
    ensures |s| <= n
  {
    if n == 0 {
      assert s == {};
    } else {
      var t := s - {n - 1};
      Pigeonhole(t, n - 1);
      if n - 1 in s {
        assert s == t + {n - 1};
      } else {
        assert s == t;
      }
    }
  }

  lemma {:induction false} DistinctFit(ms: seq<Address>)
    requires forall i, j :: 0 <= i < j < |ms| ==> ms[i] != ms[j]
    ensures |ms| <= ADDRESS_SPACE
  {
    var s := set m: nat | m in ms;
    DistinctCount(ms, s);
    Pigeonhole(s, ADDRESS_SPACE);
  }

  lemma {:induction false} DistinctCount(ms: seq<Address>, s: set<nat>)
    requires forall i, j :: 0 <= i < j < |ms| ==> ms[i] != ms[j]
    requires s == set m: nat | m in ms
    ensures |s| == |ms|
  {
    if ms != [] {
      var k := |ms| - 1;
      var t := set m: nat | m in ms[..k];
      DistinctCount(ms[..k], t);
      assert ms == ms[..k] + [ms[k]];
      assert s == t + {ms[k]};
    }
  }

  /** Adding a new module appends it to the list and keeps the index right. */
  lemma AddKeeps(s: Set, m: Address)
    requires Valid(s)
    ensures Valid(Add(s, m))
    ensures Add(s, m).modules == if m in s.modules then s.modules else s.modules + [m]
    ensures forall x :: Contains(Add(s, m), x) <==> Contains(s, x) || x == m
  {
    ContainsIsMembership(s, m);
    if !Contains(s, m) {
      var t := Add(s, m);
      DistinctFit(t.modules);
      assert Get(t.index, m) == |t.modules|;
      forall x | x != m
        ensures Get(t.index, x) == Get(s.index, x)
      {
      }
    }
  }

  /** What the index reads after a removal. */
  lemma RemovedIndex(s: Set, m: Address, x: Address)
    requires Valid(s) && Contains(s, m)
    ensures var lastValue := s.modules[|s.modules| - 1];
            Get(Remove(s, m).index, x) ==
            if x == m then 0 else if x == lastValue then Get(s.index, m) else Get(s.index, x)
  {
  }

  /** The modules still listed after a removal, each at its indexed position. */
  lemma RemovedPosition(s: Set, m: Address, i: nat)
    requires Valid(s) && Contains(s, m) && i < |s.modules| - 1
    ensures var t := Remove(s, m); |t.modules| == |s.modules| - 1 && Get(t.index, t.modules[i]) == i + 1
  {
    var d := Get(s.index, m) - 1;
    var last := |s.modules| - 1;
    var x := if i == d then s.modules[last] else s.modules[i];
    assert Remove(s, m).modules[i] == x;
    NoDuplicates(s, i, last);
    NoDuplicates(s, last, d);
    NoDuplicates(s, i, d);
    RemovedIndex(s, m, x);
  }

  /** The index entries left after a removal, each pointing at its module. */
  lemma RemovedEntry(s: Set, m: Address, x: Address)
    requires Valid(s) && Contains(s, m)
    ensures var t := Remove(s, m);
            && (Contains(t, x) <==> Contains(s, x) && x != m)
            && (Contains(t, x) ==> Get(t.index, x) <= |t.modules| && t.modules[Get(t.index, x) - 1] == x)
  {
    RemovedIndex(s, m, x);
    var last := |s.modules| - 1;
    if Contains(s, x) && x != m {
      var k := Get(s.index, x) - 1;
      NoDuplicates(s, k, last);
      NoDuplicates(s, last, Get(s.index, m) - 1);
    }
  }

  /** Removing a module moves the last one into its place, keeps the index right and
      drops exactly that module from the set. */
  lemma RemoveKeeps(s: Set, m: Address)
    requires Valid(s)
    ensures Valid(Remove(s, m))
    ensures forall x :: Contains(Remove(s, m), x) <==> Contains(s, x) && x != m
    ensures Contains(s, m) ==> |Remove(s, m).modules| == |s.modules| - 1
  {
    if Contains(s, m) {
      var t := Remove(s, m);
      forall i | 0 <= i < |t.modules| ensures Get(t.index, t.modules[i]) == i + 1 {
        RemovedPosition(s, m, i);
      }
      forall x
        ensures Contains(t, x) <==> Contains(s, x) && x != m
        ensures Contains(t, x) ==> Get(t.index, x) <= |t.modules| && t.modules[Get(t.index, x) - 1] == x
      {
        RemovedEntry(s, m, x);
      }
    }
  }

  /** The last module takes the place of the removed one, and all others stay where they are. */
  lemma RemovedInPlace(s: Set, m: Address)
    requires Valid(s) && m in s.modules
    ensures var last := |s.modules| - 1;
            && |Remove(s, m).modules| == last
            && forall i :: 0 <= i < last ==> Remove(s, m).modules[i] == if s.modules[i] == m then s.modules[last] else s.modules[i]
  {
    ContainsIsMembership(s, m);
    forall i | 0 <= i < |s.modules| - 1
      ensures Remove(s, m).modules[i] == if s.modules[i] == m then s.modules[|s.modules| - 1] else s.modules[i]
    {
      NoDuplicates(s, i, Get(s.index, m) - 1);
    }
  }
}
