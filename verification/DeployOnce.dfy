/** The setup script's loop over action names: it deploys every distinct action once and
    collects one address per listed action. */
module DeployOnce {
  import opened Evm

  /** The names of a list in the order in which they first occur. */
  function FirstOccurrences(names: seq<string>): seq<string> {
    if names == [] then []
    else
      var last := |names| - 1;
      var seen := FirstOccurrences(names[..last]);
      if names[last] in names[..last] then seen else seen + [names[last]]
  }

  lemma {:induction false} SameNames(names: seq<string>, name: string)
    ensures name in FirstOccurrences(names) <==> name in names
  {
    if names != [] {
      var last := |names| - 1;
      SameNames(names[..last], name);
      assert names == names[..last] + [names[last]];
    }
  }

  lemma {:induction false} DeployedOnce(names: seq<string>, i: nat, j: nat)
    requires i < j < |FirstOccurrences(names)|
    ensures FirstOccurrences(names)[i] != FirstOccurrences(names)[j]
  {
    var last := |names| - 1;
    var seen := FirstOccurrences(names[..last]);
    if j < |seen| {
      DeployedOnce(names[..last], i, j);
    } else {
      SameNames(names[..last], names[last]);
      assert seen[i] in seen;
    }
  }

  /** Where a name first stands in a list; in the list of deployments that is the number of the
      deployment that serves it. */
  function PositionOf(names: seq<string>, name: string): (k: nat)
    requires name in names
    ensures k < |names| && names[k] == name
  {
    if names[0] == name then 0 else 1 + PositionOf(names[1..], name)
  }

  lemma {:induction false} PositionIsStable(deployed: seq<string>, more: string, name: string)
    requires name in deployed
    ensures name in deployed + [more] && PositionOf(deployed + [more], name) == PositionOf(deployed, name)
  {
    if deployed[0] != name {
      assert (deployed + [more])[1..] == deployed[1..] + [more];
      PositionIsStable(deployed[1..], more, name);
    }
  }

  lemma {:induction false} NewPosition(deployed: seq<string>, more: string)
    requires more !in deployed
    ensures PositionOf(deployed + [more], more) == |deployed|
  {
    if deployed != [] {
      assert (deployed + [more])[1..] == deployed[1..] + [more];
      NewPosition(deployed[1..], more);
    }
  }

  /** The actions are deployed in the order in which they are first listed. */
  lemma {:induction false} DeployedInOrder(names: seq<string>, i: nat, j: nat)
    requires i < j < |FirstOccurrences(names)|
    ensures var deployed := FirstOccurrences(names);
            deployed[i] in names && deployed[j] in names && PositionOf(names, deployed[i]) < PositionOf(names, deployed[j])
  {
    hide PositionOf;
    var last := |names| - 1;
    var init, deployed, seen := names[..last], FirstOccurrences(names), FirstOccurrences(names[..last]);
    assert names == init + [names[last]];
    SameNames(names, deployed[i]);
    SameNames(names, deployed[j]);
    SameNames(init, deployed[i]);
    assert deployed[i] == seen[i] && seen[i] in seen;
    PositionIsStable(init, names[last], deployed[i]);
    if j < |seen| {
      assert deployed[j] == seen[j] && seen[j] in seen;
      SameNames(init, deployed[j]);
      DeployedInOrder(init, i, j);
      PositionIsStable(init, names[last], deployed[j]);
    } else {
      NewPosition(init, names[last]);
    }
  }

  /** Different ones of the first `n` deployments have different addresses. */
  ghost predicate DistinctAddresses(deploy: nat -> Address, n: nat) {
    forall i: nat, j: nat :: i < n && j < n && deploy(i) == deploy(j) ==> i == j
  }

  /** `deploy(n)` is the address of the n-th deployment of the run; `deployed` lists the
      deployments made. Every distinct name is deployed once, and two listed actions get the
      same address exactly when they have the same name. */
  method DeployActions(actions: seq<string>, deploy: nat -> Address)
    returns (actionAddresses: seq<Address>, deployed: seq<string>)
    ensures deployed == FirstOccurrences(actions)
    ensures |actionAddresses| == |actions|
    ensures forall k :: 0 <= k < |actions| ==>
              actions[k] in deployed && actionAddresses[k] == deploy(PositionOf(deployed, actions[k]))
    ensures DistinctAddresses(deploy, |deployed|) ==>
              forall i, j :: 0 <= i < |actions| && 0 <= j < |actions| ==>
                (actionAddresses[i] == actionAddresses[j] <==> actions[i] == actions[j])
  {
    hide PositionOf;
    actionAddresses, deployed := [], [];
    var tempArray: seq<string> := [];
    for n := 0 to |actions|
      invariant tempArray == actions[..n] && |actionAddresses| == n
      invariant deployed == FirstOccurrences(actions[..n])
      invariant forall k :: 0 <= k < n ==>
                  actions[k] in deployed && actionAddresses[k] == deploy(PositionOf(deployed, actions[k]))
    {
      var action := actions[n];
      ghost var before := deployed;
      assert actions[..n + 1][..n] == actions[..n] && actions[..n + 1] == actions[..n] + [action];
      SameNames(actions[..n], action);
      if action !in tempArray {
        var address := deploy(|deployed|);
        deployed := deployed + [action];
        tempArray := tempArray + [action];
        actionAddresses := actionAddresses + [address];
        NewPosition(before, action);
        forall k | 0 <= k < n
          ensures actions[k] in deployed && PositionOf(deployed, actions[k]) == PositionOf(before, actions[k])
        {
          PositionIsStable(before, action, actions[k]);
        }
      } else {
        var i := 0;
        while actions[i] != action
          invariant i < n && action !in actions[..i]
          decreases n - i
        {
          assert actions[..i + 1] == actions[..i] + [actions[i]];
          i := i + 1;
        }
        actionAddresses := actionAddresses + [actionAddresses[i]];
        tempArray := tempArray + [action];
      }
    }
    assert actions[..|actions|] == actions;
  }
}
