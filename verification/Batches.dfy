/** The batch calls: when a batch goes through, what it does in one go, and that
    multiUnprovide takes back what multiProvide gave. */
module Batches {
  import opened Evm
  import opened GelatoTypes
  import opened GelatoState
  import opened Providers
  import opened Executors
  import opened Core
  import opened Invariants
  import opened Reachability
  import ModuleSet

  ghost predicate Distinct<T(!new)>(xs: seq<T>) {
    forall i, j :: 0 <= i < j < |xs| ==> xs[i] != xs[j]
  }

  lemma DistinctTail<T(!new)>(xs: seq<T>)
    requires xs != []
    ensures Distinct(xs) <==> xs[0] !in xs[1..] && Distinct(xs[1..])
  {
    assert xs == [xs[0]] + xs[1..];
    if xs[0] !in xs[1..] && Distinct(xs[1..]) {
      forall i, j | 0 <= i < j < |xs| ensures xs[i] != xs[j] {
        assert xs[j] == xs[1..][j - 1];
        if i > 0 {
          assert xs[i] == xs[1..][i - 1];
        }
      }
    }
  }

  // ----- reassigning providers -----

  /** A batch reassignment goes through exactly when the sender is the executor of every
      listed provider, none is listed twice, and the new executor is another, staked one;
      it then moves all of them and nobody else. */
  lemma {:induction false} ReassigningABatch(s: State, sender: Address, providers: seq<Address>, newExecutor: Address)
    ensures var r := MultiReassignProviders(s, sender, providers, newExecutor);
            && (r.Ok? <==> providers == [] || (&& newExecutor != sender && s.IsExecutorMinStaked(newExecutor)
                                               && Distinct(providers)
                                               && forall p :: p in providers ==> s.ExecutorByProvider(p) == sender))
            && (r.Ok? ==> forall p :: r.value.ExecutorByProvider(p) == if p in providers then newExecutor else s.ExecutorByProvider(p))
            && (r.Revert? ==>
                  r.error == if s.ExecutorByProvider(providers[0]) != sender then SenderIsNotAssignedExecutor
                             else if newExecutor == sender then AlreadyAssigned
                             else if !s.IsExecutorMinStaked(newExecutor) then ExecutorNotMinStaked
                             else SenderIsNotAssignedExecutor)
    decreases |providers|
  {
    if providers != [] {
      var p := providers[0];
      DistinctTail(providers);
      assert forall q :: q in providers <==> q == p || q in providers[1..];
      var t := ExecutorAssignsExecutor(s, sender, p, newExecutor);
      if t.Ok? {
        assert forall q :: t.value.ExecutorByProvider(q) == if q == p then newExecutor else s.ExecutorByProvider(q);
        ReassigningABatch(t.value, sender, providers[1..], newExecutor);
      }
    }
  }

  /** The counters follow: the sender loses as many providers as the new executor gains. */
  lemma {:induction false} ReassigningCounts(s: State, sender: Address, providers: seq<Address>, newExecutor: Address)
    requires Inv(s) && sender != ZERO_ADDRESS && newExecutor != ZERO_ADDRESS
    requires MultiReassignProviders(s, sender, providers, newExecutor).Ok?
    ensures var t := MultiReassignProviders(s, sender, providers, newExecutor).value;
            && (providers != [] ==> newExecutor != sender)
            && (providers != [] ==> t.ProvidersCount(sender) + |providers| == s.ProvidersCount(sender))
            && (providers != [] ==> t.ProvidersCount(newExecutor) == s.ProvidersCount(newExecutor) + |providers|)
    decreases |providers|
  {
    if providers != [] {
      var t := ExecutorAssignsExecutor(s, sender, providers[0], newExecutor).value;
      ExecutorAssignsKeeps(s, sender, providers[0], newExecutor);
      ReassignedProviders(s.assign, t.assign, providers[0], sender, newExecutor, sender);
      ReassignedProviders(s.assign, t.assign, providers[0], sender, newExecutor, newExecutor);
      assert t.ProvidersCount(sender) == |ProvidersOf(t.assign, sender)| == s.ProvidersCount(sender) - 1;
      assert t.ProvidersCount(newExecutor) == |ProvidersOf(t.assign, newExecutor)| == s.ProvidersCount(newExecutor) + 1;
      hide Inv;
      ReassigningCounts(t, sender, providers[1..], newExecutor);
    }
  }

  // ----- task specs -----

  function Hashes(specs: seq<TaskSpec>): seq<SpecHash> {
    seq(|specs|, i requires 0 <= i < |specs| => HashTaskSpec(specs[i]))
  }

  lemma HashesTail(specs: seq<TaskSpec>)
    requires specs != []
    ensures Hashes(specs) == [HashTaskSpec(specs[0])] + Hashes(specs[1..])
    ensures Hashes(specs)[1..] == Hashes(specs[1..])
  {
  }

  /** The ceiling a spec asks for; zero stands for none at all. */
  function AskedCeil(spec: TaskSpec): uint256 {
    if spec.gasPriceCeil == 0 then MODULUS - 1 else spec.gasPriceCeil
  }

  /** The ceiling under a hash after a batch: that of the last spec with this hash, or the one
      before if there is none. */
  function LatestCeil(specs: seq<TaskSpec>, h: SpecHash, before: uint256): uint256
    decreases |specs|
  {
    if specs == [] then before
    else
      var last := specs[|specs| - 1];
      if HashTaskSpec(last) == h then AskedCeil(last) else LatestCeil(specs[..|specs| - 1], h, before)
  }

  /** Each spec of the batch differs in its ceiling from the one in force when its turn comes. */
  predicate ChangesEach(s: State, sender: Address, specs: seq<TaskSpec>) {
    forall i :: 0 <= i < |specs| ==>
      var h := HashTaskSpec(specs[i]);
      LatestCeil(specs[..i], h, s.GasPriceCeil(sender, h)) != AskedCeil(specs[i])
  }

  lemma {:induction false} LatestCeilIsSet(specs: seq<TaskSpec>, h: SpecHash, before: uint256)
    ensures if h in Hashes(specs) then LatestCeil(specs, h, before) != 0 else LatestCeil(specs, h, before) == before
    decreases |specs|
  {
    if specs != [] {
      var init, last := specs[..|specs| - 1], specs[|specs| - 1];
      assert Hashes(specs) == Hashes(init) + [HashTaskSpec(last)];
      LatestCeilIsSet(init, h, before);
    }
  }

  lemma {:induction false} LastSpec(s: State, sender: Address, specs: seq<TaskSpec>, last: TaskSpec)
    ensures ProvideTaskSpecs(s, sender, specs + [last]) ==
            var t :- ProvideTaskSpecs(s, sender, specs);
            SetTaskSpecGasPriceCeil(t, sender, HashTaskSpec(last), AskedCeil(last))
    decreases |specs|
  {
    var all := specs + [last];
    if specs == [] {
      assert all[0] == last && all[1..] == [];
    } else {
      assert all[0] == specs[0] && all[1..] == specs[1..] + [last];
      var t := SetTaskSpecGasPriceCeil(s, sender, HashTaskSpec(specs[0]), AskedCeil(specs[0]));
      hide SetTaskSpecGasPriceCeil, HashTaskSpec;
      if t.Ok? {
        LastSpec(t.value, sender, specs[1..], last);
      }
    }
  }

  lemma LastChanges(s: State, sender: Address, specs: seq<TaskSpec>, last: TaskSpec)
    ensures ChangesEach(s, sender, specs + [last]) <==>
            && ChangesEach(s, sender, specs)
            && var h := HashTaskSpec(last);
            LatestCeil(specs, h, s.GasPriceCeil(sender, h)) != AskedCeil(last)
  {
    hide HashTaskSpec, LatestCeil, AskedCeil;
    var all := specs + [last];
    assert forall i :: 0 <= i < |specs| ==> all[..i] == specs[..i] && all[i] == specs[i];
    assert all[..|specs|] == specs && all[|specs|] == last;
  }

  /** Providing specs goes through exactly when each spec changes the ceiling in force at its
      turn. The last spec of each hash then decides its ceiling, and nothing else changes. */
  lemma {:induction false} ProvidingSpecsIsExact(s: State, sender: Address, specs: seq<TaskSpec>)
    ensures var r := ProvideTaskSpecs(s, sender, specs);
            && (r.Ok? <==> ChangesEach(s, sender, specs))
            && (r.Ok? ==> forall p, h :: r.value.GasPriceCeil(p, h) ==
                            if p == sender then LatestCeil(specs, h, s.GasPriceCeil(p, h)) else s.GasPriceCeil(p, h))
            && (r.Revert? ==> r.error == AlreadyWhitelistedWithGasPriceCeil)
    decreases |specs|
  {
    if specs != [] {
      var init, last := specs[..|specs| - 1], specs[|specs| - 1];
      assert specs == init + [last];
      LastSpec(s, sender, init, last);
      LastChanges(s, sender, init, last);
      ProvidingSpecsIsExact(s, sender, init);
      hide HashTaskSpec, AskedCeil, ChangesEach;
      var r := ProvideTaskSpecs(s, sender, init);
      if r.Ok? {
        OneCeil(r.value, sender, HashTaskSpec(last), AskedCeil(last));
      }
    }
  }

  lemma OneCeil(s: State, sender: Address, h: SpecHash, ceil: uint256)
    ensures var r := SetTaskSpecGasPriceCeil(s, sender, h, ceil);
            && (r.Ok? <==> s.GasPriceCeil(sender, h) != ceil)
            && (r.Revert? ==> r.error == AlreadyWhitelistedWithGasPriceCeil)
            && (r.Ok? ==> r.value == s.(listings := s.listings.(taskSpecGasPriceCeil := r.value.listings.taskSpecGasPriceCeil)))
            && (r.Ok? ==> forall p, g :: r.value.GasPriceCeil(p, g) == if p == sender && g == h then ceil else s.GasPriceCeil(p, g))
  {
  }

  /** No later spec of the batch has the hash of the one at position `i`. */
  ghost predicate LastOfItsHash(specs: seq<TaskSpec>, i: nat)
    requires i < |specs|
  {
    forall j :: i < j < |specs| ==> HashTaskSpec(specs[j]) != HashTaskSpec(specs[i])
  }

  lemma {:induction false} LatestIsLast(specs: seq<TaskSpec>, i: nat, before: uint256)
    requires i < |specs| && LastOfItsHash(specs, i)
    ensures LatestCeil(specs, HashTaskSpec(specs[i]), before) == AskedCeil(specs[i])
    decreases |specs|
  {
    var init := specs[..|specs| - 1];
    hide HashTaskSpec, AskedCeil;
    if i < |init| {
      assert init[i] == specs[i] && forall j :: 0 <= j < |init| ==> init[j] == specs[j];
      LatestIsLast(init, i, before);
    }
  }

  /** After provideTaskSpecs the last spec of each hash decides: its ceiling stands there, or the
      greatest number there is if it gave none. */
  lemma LastSpecDecides(s: State, sender: Address, specs: seq<TaskSpec>, i: nat)
    requires i < |specs| && LastOfItsHash(specs, i) && ProvideTaskSpecs(s, sender, specs).Ok?
    ensures ProvideTaskSpecs(s, sender, specs).value.GasPriceCeil(sender, HashTaskSpec(specs[i])) ==
            if specs[i].gasPriceCeil == 0 then 0x1_0000000000000000_0000000000000000_0000000000000000_0000000000000000 - 1
            else specs[i].gasPriceCeil
  {
    hide HashTaskSpec, ProvideTaskSpecs, ChangesEach, LatestCeil, LastOfItsHash;
    ProvidingSpecsIsExact(s, sender, specs);
    LatestIsLast(specs, i, s.GasPriceCeil(sender, HashTaskSpec(specs[i])));
  }

  /** So canExec never refuses a task on account of its price if the last spec that covers it
      gave no ceiling. */
  lemma NoCeilNoLimit(s: State, sender: Address, specs: seq<TaskSpec>, i: nat, caller: Option<Address>, r: TaskReceipt,
                      gasLimit: uint256, gasPrice: uint256, now: uint256, views: Views)
    requires i < |specs| && LastOfItsHash(specs, i) && specs[i].gasPriceCeil == 0 && ProvideTaskSpecs(s, sender, specs).Ok?
    requires r.HasTask() && r.provider.addr == sender && HashTaskSpec(CastTaskToSpec(r.CurrentTask())) == HashTaskSpec(specs[i])
    ensures CanExec(ProvideTaskSpecs(s, sender, specs).value, caller, r, gasLimit, gasPrice, now, views) != Ok(TaskSpecGasPriceCeilOrNotProvided)
  {
    LastSpecDecides(s, sender, specs, i);
    var t := ProvideTaskSpecs(s, sender, specs).value;
    NoConditionIsAPrice(r.CurrentTask(), views, 0);
    hide HashTaskSpec, CastTaskToSpec, ProvideTaskSpecs, IsProviderLiquid, CheckConditions, CheckTerms, LastOfItsHash;
  }

  lemma {:induction false} NoConditionIsAPrice(task: Task, views: Views, i: nat)
    ensures CheckConditions(task, views, i) != Ok(TaskSpecGasPriceCeilOrNotProvided)
    ensures CheckTerms(task, views, i) != Ok(TaskSpecGasPriceCeilOrNotProvided)
    decreases |task.conditions| + |task.actions| - i
  {
    if i < |task.conditions| || i < |task.actions| {
      NoConditionIsAPrice(task, views, i + 1);
    }
  }

  /** Unproviding goes through exactly when every hash has a ceiling and none is listed
      twice; it then clears those ceilings and no other. */
  lemma {:induction false} UnprovidedCeils(s: State, sender: Address, specs: seq<TaskSpec>)
    ensures var r := UnprovideTaskSpecs(s, sender, specs);
            && (r.Ok? <==> Distinct(Hashes(specs)) && forall h :: h in Hashes(specs) ==> s.GasPriceCeil(sender, h) != 0)
            && (r.Ok? ==> forall p, h :: r.value.GasPriceCeil(p, h) ==
                                         if p == sender && h in Hashes(specs) then 0 else s.GasPriceCeil(p, h))
            && (r.Revert? ==> r.error == RedundantTaskSpec)
    decreases |specs|
  {
    if specs != [] {
      var h := HashTaskSpec(specs[0]);
      HashesTail(specs);
      DistinctTail(Hashes(specs));
      hide HashTaskSpec, Hashes, Distinct;
      assert forall g :: g in Hashes(specs) <==> g == h || g in Hashes(specs[1..]);
      var r := UnprovideTaskSpec(s, sender, h);
      if r.Ok? {
        assert forall p, g :: r.value.GasPriceCeil(p, g) == if p == sender && g == h then 0 else s.GasPriceCeil(p, g);
        UnprovidedCeils(r.value, sender, specs[1..]);
      }
    }
  }

  // ----- modules -----

  lemma AddedModule(s: State, sender: Address, m: Address)
    requires ModulesOk(s.listings)
    ensures var r := AddProviderModule(s, sender, m);
            && (r.Ok? <==> m !in s.Modules(sender).modules)
            && (r.Revert? ==> r.error == RedundantModule)
            && (r.Ok? ==> && r.value.Modules(sender).modules == s.Modules(sender).modules + [m]
                          && (forall p :: p != sender ==> r.value.Modules(p) == s.Modules(p))
                          && ModulesOk(r.value.listings))
  {
    ModuleSet.AddKeeps(s.Modules(sender), m);
    ModuleSet.ContainsIsMembership(s.Modules(sender), m);
    hide ModuleSet.Valid;
  }

  lemma ModulesAreDistinct(s: State, p: Address)
    requires ModulesOk(s.listings)
    ensures Distinct(s.Modules(p).modules)
  {
    var set_ := s.Modules(p);
    forall i, j | 0 <= i < j < |set_.modules| ensures set_.modules[i] != set_.modules[j] {
      ModuleSet.NoDuplicates(set_, i, j);
    }
  }

  lemma NotDistinct<T(!new)>(xs: seq<T>, ys: seq<T>)
    requires ys != [] && ys[0] in xs
    ensures !Distinct(xs + ys)
  {
    var k :| 0 <= k < |xs| && xs[k] == ys[0];
    assert (xs + ys)[k] == (xs + ys)[|xs|];
  }

  lemma {:induction false} AddedInOrder(s: State, sender: Address, kept: seq<Address>, modules: seq<Address>)
    requires ModulesOk(s.listings) && kept == s.Modules(sender).modules
    ensures var r := AddProviderModules(s, sender, modules);
            && (r.Ok? <==> Distinct(kept + modules))
            && (r.Revert? ==> r.error == RedundantModule)
            && (r.Ok? ==> r.value.Modules(sender).modules == kept + modules)
    decreases |modules|
  {
    hide Distinct, ModulesOk, AddProviderModule;
    if modules == [] {
      assert kept + modules == kept;
      ModulesAreDistinct(s, sender);
    } else {
      var m := modules[0];
      AddedModule(s, sender, m);
      var r := AddProviderModule(s, sender, m);
      if r.Ok? {
        AddedInOrder(r.value, sender, kept + [m], modules[1..]);
        assert (kept + [m]) + modules[1..] == kept + modules;
      } else {
        NotDistinct(kept, modules);
      }
    }
  }

  lemma {:induction false} AddingIsLocal(s: State, sender: Address, modules: seq<Address>)
    requires AddProviderModules(s, sender, modules).Ok?
    ensures var t := AddProviderModules(s, sender, modules).value;
            && t.listings.taskSpecGasPriceCeil == s.listings.taskSpecGasPriceCeil
            && forall p :: p != sender ==> t.Modules(p) == s.Modules(p)
    decreases |modules|
  {
    if modules != [] {
      AddingIsLocal(AddProviderModule(s, sender, modules[0]).value, sender, modules[1..]);
    }
  }

  lemma DistinctParts<T(!new)>(xs: seq<T>, ys: seq<T>)
    requires Distinct(xs)
    ensures Distinct(xs + ys) <==> Distinct(ys) && forall y :: y in ys ==> y !in xs
  {
    var zs := xs + ys;
    assert forall i :: 0 <= i < |ys| ==> ys[i] == zs[|xs| + i];
    assert forall i :: 0 <= i < |xs| ==> xs[i] == zs[i];
    if Distinct(zs) {
      forall y | y in ys ensures y !in xs {
        var j :| 0 <= j < |ys| && ys[j] == y;
        assert forall i :: 0 <= i < |xs| ==> zs[i] != zs[|xs| + j];
      }
    }
    if Distinct(ys) && forall y :: y in ys ==> y !in xs {
      forall i, j | 0 <= i < j < |zs| ensures zs[i] != zs[j] {
        if i >= |xs| {
          assert ys[i - |xs|] != ys[j - |xs|];
        } else if j < |xs| {
          assert xs[i] != xs[j];
        } else {
          assert zs[j] in ys && zs[i] in xs;
        }
      }
    }
  }

  /** Adding goes through exactly when no module is listed twice or already provided; it
      then appends the batch to the provider's list. */
  lemma AddedModules(s: State, sender: Address, modules: seq<Address>)
    requires ModulesOk(s.listings)
    ensures var r := AddProviderModules(s, sender, modules);
            && (r.Ok? <==> Distinct(modules) && forall m :: m in modules ==> m !in s.Modules(sender).modules)
            && (r.Revert? ==> r.error == RedundantModule)
            && (r.Ok? ==> && r.value.Modules(sender).modules == s.Modules(sender).modules + modules
                          && forall p :: p != sender ==> r.value.Modules(p) == s.Modules(p))
  {
    hide Distinct, AddProviderModules, ModuleSet.Valid;
    var kept := s.Modules(sender).modules;
    ModulesAreDistinct(s, sender);
    DistinctParts(kept, modules);
    AddedInOrder(s, sender, kept, modules);
    if AddProviderModules(s, sender, modules).Ok? {
      AddingIsLocal(s, sender, modules);
    }
  }

  /** Taking out a module that stands behind `kept` leaves `kept` in front. */
  lemma RemovalKeepsPrefix(s: ModuleSet.Set, kept: seq<Address>, m: Address)
    requires ModuleSet.Valid(s) && ModuleSet.Contains(s, m) && kept <= s.modules && m !in kept
    ensures kept <= ModuleSet.Remove(s, m).modules
    ensures |ModuleSet.Remove(s, m).modules| == |s.modules| - 1
  {
    var d := Get(s.index, m) - 1;
    assert s.modules[d] == m && d >= |kept|;
    forall i | 0 <= i < |kept| ensures ModuleSet.Remove(s, m).modules[i] == kept[i] {}
  }

  /** Removing exactly the modules that were added last restores the list, order included,
      although each removal moves the last module around. */
  lemma {:induction false} RemovedModules(s: State, sender: Address, kept: seq<Address>, modules: seq<Address>)
    requires ModulesOk(s.listings)
    requires kept <= s.Modules(sender).modules && |s.Modules(sender).modules| == |kept| + |modules|
    requires Distinct(modules) && forall m :: m in modules ==> m in s.Modules(sender).modules && m !in kept
    ensures var r := RemoveProviderModules(s, sender, modules);
            && r.Ok?
            && r.value.Modules(sender).modules == kept
            && forall p :: p != sender ==> r.value.Modules(p) == s.Modules(p)
    decreases |modules|
  {
    if modules != [] {
      var m, set_ := modules[0], s.Modules(sender);
      DistinctTail(modules);
      hide Distinct;
      assert forall x :: x in modules <==> x == m || x in modules[1..];
      ModuleSet.ContainsIsMembership(set_, m);
      ModuleSet.RemoveKeeps(set_, m);
      RemovalKeepsPrefix(set_, kept, m);
      var t := RemoveProviderModule(s, sender, m).value;
      forall x | x in modules[1..] ensures x in t.Modules(sender).modules {
        ModuleSet.ContainsIsMembership(set_, x);
        ModuleSet.ContainsIsMembership(t.Modules(sender), x);
      }
      hide ModuleSet.Valid, ModuleSet.Contains, ModuleSet.Remove;
      RemovedModules(t, sender, kept, modules[1..]);
    }
  }

  /** Removing goes through exactly when every module is listed and none is named twice; the
      provider is left with the others, whatever their order has become. */
  lemma {:induction false} RemovingModulesIsExact(s: State, sender: Address, modules: seq<Address>)
    requires ModulesOk(s.listings)
    ensures var r := RemoveProviderModules(s, sender, modules);
            && (r.Ok? <==> Distinct(modules) && forall m :: m in modules ==> m in s.Modules(sender).modules)
            && (r.Revert? ==> r.error == RedundantModule)
            && (r.Ok? ==>
                  && (forall m :: m in r.value.Modules(sender).modules <==> m in s.Modules(sender).modules && m !in modules)
                  && (forall p :: p != sender ==> r.value.Modules(p) == s.Modules(p)))
    decreases |modules|
  {
    if modules != [] {
      var m, set_ := modules[0], s.Modules(sender);
      DistinctTail(modules);
      hide Distinct;
      assert forall x :: x in modules <==> x == m || x in modules[1..];
      RemovedModule(s, sender, m);
      var r := RemoveProviderModule(s, sender, m);
      hide RemoveProviderModule, ModulesOk;
      if r.Ok? {
        RemovingModulesIsExact(r.value, sender, modules[1..]);
      }
    }
  }

  lemma RemovedModule(s: State, sender: Address, m: Address)
    requires ModulesOk(s.listings)
    ensures var r := RemoveProviderModule(s, sender, m);
            && (r.Ok? <==> m in s.Modules(sender).modules)
            && (r.Revert? ==> r.error == RedundantModule)
            && (r.Ok? ==> && (forall x :: x in r.value.Modules(sender).modules <==> x in s.Modules(sender).modules && x != m)
                          && (forall p :: p != sender ==> r.value.Modules(p) == s.Modules(p))
                          && ModulesOk(r.value.listings))
  {
    var set_ := s.Modules(sender);
    ModuleSet.ContainsIsMembership(set_, m);
    if ModuleSet.Contains(set_, m) {
      ModuleSet.RemoveKeeps(set_, m);
      var rest := ModuleSet.Remove(set_, m);
      forall x ensures x in rest.modules <==> x in set_.modules && x != m {
        ModuleSet.ContainsIsMembership(set_, x);
        ModuleSet.ContainsIsMembership(rest, x);
      }
      hide ModuleSet.Remove;
    }
  }

  // ----- multiProvide and multiUnprovide -----

  /** Withdrawing what was just provided leaves the money as it was before. */
  lemma FundsBack(s: State, t: State, sender: Address, value: uint256) returns (t1: State)
    requires value > 0 && s.money.balance + value < MODULUS && s.ProviderFunds(sender) + value < MODULUS
    requires t.money == Money(s.money.balance + value, s.money.providerFunds[sender := s.ProviderFunds(sender) + value],
                              s.money.executorStake, s.money.sysAdminFunds, s.money.forced)
    ensures var (booked, paid) := UnprovideFunds(t, sender, value);
            SendValue(booked, paid, Reply([], true)) == Ok(t1)
    ensures t1 == t.(money := t1.money)
    ensures t1.money.balance == s.money.balance && SameMapping(t1.money.providerFunds, s.money.providerFunds)
    ensures t1.money.executorStake == s.money.executorStake && t1.money.sysAdminFunds == s.money.sysAdminFunds && t1.money.forced == s.money.forced
  {
    var (booked, paid) := UnprovideFunds(t, sender, value);
    t1 := booked.(money := booked.money.(balance := booked.money.balance - paid));
  }

  /** What has to hold for the payment and the assignment inside multiProvide. */
  predicate PaysAndAssigns(s: State, sender: Address, value: uint256, executor: Address) {
    && s.money.balance + value < MODULUS
    && (executor != ZERO_ADDRESS ==> executor != s.ExecutorByProvider(sender) && s.IsExecutorMinStaked(executor))
  }

  /** The storage after the payment and the assignment. */
  function Prepared(s: State, sender: Address, value: uint256, executor: Address): State {
    var current := s.ExecutorByProvider(sender);
    s.(money := if value == 0 then s.money
                else s.money.(balance := Wrap(s.money.balance + value),
                              providerFunds := s.money.providerFunds[sender := Wrap(s.ProviderFunds(sender) + value)]),
       assign := if executor == ZERO_ADDRESS then s.assign
                 else Reassign(s.assign, sender, current, executor, current != ZERO_ADDRESS, true))
  }

  lemma FundingStage(s: State, sender: Address, value: uint256)
    requires Inv(s) && s.money.balance + value < MODULUS
    ensures var s0 := Receive(s, value).value;
            (if value != 0 then ProvideFunds(s0, sender, value) else Ok(s0)) == Ok(Prepared(s, sender, value, ZERO_ADDRESS))
    ensures s.ProviderFunds(sender) + value < MODULUS
  {
    SumUpdate(s.money.providerFunds, sender, 0);
    hide Inv;
  }

  lemma AssigningStage(s: State, sender: Address, value: uint256, executor: Address)
    requires executor != ZERO_ADDRESS
    ensures var s1 := Prepared(s, sender, value, ZERO_ADDRESS);
            ProviderAssignsExecutor(s1, sender, executor) ==
            if executor == s.ExecutorByProvider(sender) then Revert(AlreadyAssigned)
            else if !s.IsExecutorMinStaked(executor) then Revert(ExecutorNotMinStaked)
            else Ok(Prepared(s, sender, value, executor))
  {
    hide Reassign, Wrap;
  }

  lemma ProvidedStages(s: State, sender: Address, value: uint256, executor: Address,
                       specs: seq<TaskSpec>, modules: seq<Address>)
    requires Inv(s) && sender != ZERO_ADDRESS
    ensures var r := ApplyLocal(s, sender, MultiProvideCall(value, executor, specs, modules));
            if PaysAndAssigns(s, sender, value, executor) then
              r == var s3 :- ProvideTaskSpecs(Prepared(s, sender, value, executor), sender, specs);
                   AddProviderModules(s3, sender, modules)
            else r == Revert(if s.money.balance + value >= MODULUS then MoreEtherThanExists
                             else if executor == s.ExecutorByProvider(sender) then AlreadyAssigned
                             else ExecutorNotMinStaked)
    ensures s.money.balance + value < MODULUS ==> s.ProviderFunds(sender) + value < MODULUS
  {
    if s.money.balance + value < MODULUS {
      FundingStage(s, sender, value);
      if executor != ZERO_ADDRESS {
        AssigningStage(s, sender, value, executor);
      }
      var s0 := Receive(s, value).value;
      hide Inv, Prepared, HashTaskSpec, ProvideTaskSpecs, AddProviderModules, ProvideFunds, ProviderAssignsExecutor;
      assert ApplyLocal(s, sender, MultiProvideCall(value, executor, specs, modules)) == MultiProvide(s0, sender, value, executor, specs, modules);
    }
  }

  /** multiProvide goes through exactly when the ether fits, the executor is another, min-staked
      one or none, each spec changes its ceiling and no module is named twice or already listed.
      It then does all four things at once and nothing else. */
  lemma Provided(s: State, sender: Address, value: uint256, executor: Address,
                 specs: seq<TaskSpec>, modules: seq<Address>)
    requires Inv(s) && sender != ZERO_ADDRESS
    ensures var r := Apply(s, Tx(sender, MultiProvideCall(value, executor, specs, modules)));
            && (r.Ok? <==>
                  && s.money.balance + value < MODULUS
                  && (executor != ZERO_ADDRESS ==> executor != s.ExecutorByProvider(sender) && s.IsExecutorMinStaked(executor))
                  && ChangesEach(s, sender, specs)
                  && Distinct(modules) && forall m :: m in modules ==> m !in s.Modules(sender).modules)
            && (r.Revert? ==>
                  r.error == if s.money.balance + value >= MODULUS then MoreEtherThanExists
                             else if executor != ZERO_ADDRESS && executor == s.ExecutorByProvider(sender) then AlreadyAssigned
                             else if executor != ZERO_ADDRESS && !s.IsExecutorMinStaked(executor) then ExecutorNotMinStaked
                             else if !ChangesEach(s, sender, specs) then AlreadyWhitelistedWithGasPriceCeil
                             else RedundantModule)
            && (r.Ok? ==>
                  var t := r.value;
                  && ModulesOk(t.listings) && s.ProviderFunds(sender) + value < MODULUS
                  && t == Prepared(s, sender, value, executor).(listings := t.listings)
                  && t.Modules(sender).modules == s.Modules(sender).modules + modules
                  && (forall p :: p != sender ==> t.Modules(p) == s.Modules(p))
                  && (forall p, h :: t.GasPriceCeil(p, h) ==
                        if p == sender then LatestCeil(specs, h, s.GasPriceCeil(p, h)) else s.GasPriceCeil(p, h)))
  {
    var call := MultiProvideCall(value, executor, specs, modules);
    ApplyIsLocal(s, Tx(sender, call));
    ProvidedStages(s, sender, value, executor, specs, modules);
    hide Distinct, ModuleSet.Valid, Apply, ApplyLocal, Inv;
    if PaysAndAssigns(s, sender, value, executor) {
      var s2 := Prepared(s, sender, value, executor);
      assert s2 == s.(money := s2.money, assign := s2.assign);
      hide Prepared;
      ListedTogether(s, s2, sender, specs, modules);
    }
  }

  /** Listing specs and modules in a storage that has the listings of `s`. */
  lemma ListedTogether(s: State, s2: State, sender: Address, specs: seq<TaskSpec>, modules: seq<Address>)
    requires Inv(s) && s2.listings == s.listings
    ensures var r := var s3 :- ProvideTaskSpecs(s2, sender, specs); AddProviderModules(s3, sender, modules);
            && (r.Revert? ==> r.error == if !ChangesEach(s, sender, specs) then AlreadyWhitelistedWithGasPriceCeil else RedundantModule)
            && (r.Ok? <==>
                  && ChangesEach(s, sender, specs)
                  && Distinct(modules) && forall m :: m in modules ==> m !in s.Modules(sender).modules)
            && (r.Ok? ==>
                  var t := r.value;
                  && ModulesOk(t.listings) && t == s2.(listings := t.listings)
                  && t.Modules(sender).modules == s.Modules(sender).modules + modules
                  && (forall p :: p != sender ==> t.Modules(p) == s.Modules(p))
                  && (forall p, h :: t.GasPriceCeil(p, h) ==
                        if p == sender then LatestCeil(specs, h, s.GasPriceCeil(p, h)) else s.GasPriceCeil(p, h)))
  {
    assert ModulesOk(s.listings);
    hide Inv, Distinct, ModulesOk, ProvideTaskSpecs, AddProviderModules, HashTaskSpec, LatestCeil, AskedCeil;
    assert forall p, h :: s2.GasPriceCeil(p, h) == s.GasPriceCeil(p, h);
    assert forall p :: s2.Modules(p) == s.Modules(p);
    ProvidingSpecsIsExact(s2, sender, specs);
    assert ChangesEach(s2, sender, specs) == ChangesEach(s, sender, specs);
    hide ChangesEach;
    if ProvideTaskSpecs(s2, sender, specs).Ok? {
      var s3 := ProvideTaskSpecs(s2, sender, specs).value;
      SpecsKeepModules(s2, sender, specs);
      assert forall p :: s3.Modules(p) == s.Modules(p);
      AddedModules(s3, sender, modules);
      if AddProviderModules(s3, sender, modules).Ok? {
        AddModulesKeep(s3, sender, modules);
        AddingIsLocal(s3, sender, modules);
        var t := AddProviderModules(s3, sender, modules).value;
        assert forall p, h :: t.GasPriceCeil(p, h) == s3.GasPriceCeil(p, h);
      }
    }
  }

  /** Removing what was just listed leaves the module list as it was before and no ceilings. */
  lemma ListingsBack(s: State, t: State, sender: Address, specs: seq<TaskSpec>, modules: seq<Address>)
    requires ModulesOk(t.listings)
    requires Distinct(modules) && (forall m :: m in modules ==> m !in s.Modules(sender).modules)
    requires t.Modules(sender).modules == s.Modules(sender).modules + modules
    requires forall p :: p != sender ==> t.Modules(p) == s.Modules(p)
    requires forall p, h :: if p == sender && h in Hashes(specs) then t.GasPriceCeil(p, h) != 0
                            else t.GasPriceCeil(p, h) == s.GasPriceCeil(p, h)
    ensures var r := UnprovideTaskSpecs(t, sender, specs);
            && (r.Ok? <==> Distinct(Hashes(specs)))
            && (r.Ok? ==>
                  var u := RemoveProviderModules(r.value, sender, modules);
                  && u.Ok? && u.value == t.(listings := u.value.listings)
                  && (forall p :: u.value.Modules(p).modules == s.Modules(p).modules)
                  && (forall p, h :: u.value.GasPriceCeil(p, h) == if p == sender && h in Hashes(specs) then 0 else s.GasPriceCeil(p, h)))
  {
    hide Distinct, Hashes, HashTaskSpec, ModuleSet.Valid, RemoveProviderModules, UnprovideTaskSpecs;
    UnprovidedCeils(t, sender, specs);
    if UnprovideTaskSpecs(t, sender, specs).Ok? {
      var t2 := UnprovideTaskSpecs(t, sender, specs).value;
      SpecsKeepModules(t, sender, specs);
      RemovedModules(t2, sender, s.Modules(sender).modules, modules);
      RemovingKeepsCeils(t2, sender, modules);
    }
  }

  /** Storage that looks the same to every reader of funds, listings, receipts and parameters. */
  ghost predicate Restored(s: State, u: State, sender: Address, specs: seq<TaskSpec>) {
    && u.money.balance == s.money.balance
    && SameMapping(u.money.providerFunds, s.money.providerFunds)
    && u.money.executorStake == s.money.executorStake && u.money.sysAdminFunds == s.money.sysAdminFunds && u.money.forced == s.money.forced
    && (forall p :: u.Modules(p).modules == s.Modules(p).modules)
    && (forall p, h :: u.GasPriceCeil(p, h) == if p == sender && h in Hashes(specs) then 0 else s.GasPriceCeil(p, h))
    && u.book == s.book && u.logs == s.logs && u.params == s.params
  }

  /** multiUnprovide of the same funds, specs and modules goes through exactly when no two
      specs of the batch have the same hash. It then gives back the funds and the module
      list and clears the ceilings; only the executor stays assigned. */
  lemma UnprovideUndoesProvide(s: State, sender: Address, value: uint256, executor: Address,
                               specs: seq<TaskSpec>, modules: seq<Address>)
    requires Inv(s) && sender != ZERO_ADDRESS
    requires Apply(s, Tx(sender, MultiProvideCall(value, executor, specs, modules))).Ok?
    ensures var t := Apply(s, Tx(sender, MultiProvideCall(value, executor, specs, modules))).value;
            var u := Apply(t, Tx(sender, MultiUnprovideCall(value, specs, modules, Reply([], true))));
            && (u.Ok? <==> Distinct(Hashes(specs)))
            && (u.Ok? ==> Restored(s, u.value, sender, specs) && u.value.assign == t.assign)
  {
    hide Distinct, Hashes, HashTaskSpec, Inv, ModulesOk, ApplyLocal, UnprovideFunds, SendValue, RunAll,
         UnprovideTaskSpecs, RemoveProviderModules, LatestCeil, ChangesEach;
    Provided(s, sender, value, executor, specs, modules);
    var t := Apply(s, Tx(sender, MultiProvideCall(value, executor, specs, modules))).value;
    forall p, h ensures if p == sender && h in Hashes(specs) then t.GasPriceCeil(p, h) != 0
                        else t.GasPriceCeil(p, h) == s.GasPriceCeil(p, h)
    {
      LatestCeilIsSet(specs, h, s.GasPriceCeil(p, h));
    }
    var t1 := t;
    if value != 0 {
      t1 := FundsBack(s, t, sender, value);
    }
    assert forall p, h :: t1.GasPriceCeil(p, h) == t.GasPriceCeil(p, h);
    ListingsBack(s, t1, sender, specs, modules);
  }

  /** The ceilings are what they were before exactly when the two calls go through and the
      provider had no ceiling under any hash of the batch. */
  lemma CeilingsComeBack(s: State, sender: Address, value: uint256, executor: Address,
                             specs: seq<TaskSpec>, modules: seq<Address>)
    requires Inv(s) && sender != ZERO_ADDRESS
    requires Apply(s, Tx(sender, MultiProvideCall(value, executor, specs, modules))).Ok?
    ensures var t := Apply(s, Tx(sender, MultiProvideCall(value, executor, specs, modules))).value;
            var u := Apply(t, Tx(sender, MultiUnprovideCall(value, specs, modules, Reply([], true))));
            u.Ok? && (forall p, h :: u.value.GasPriceCeil(p, h) == s.GasPriceCeil(p, h)) <==>
            Distinct(Hashes(specs)) && forall h :: h in Hashes(specs) ==> s.GasPriceCeil(sender, h) == 0
  {
    hide Distinct, Hashes, HashTaskSpec, Inv, Apply;
    UnprovideUndoesProvide(s, sender, value, executor, specs, modules);
  }

  /** A ceiling of 5 raised to 7 by multiProvide ends as 0 after multiUnprovide. */
  lemma OlderCeilingExample(params: Params, spec: TaskSpec)
    requires spec.gasPriceCeil == 7
    ensures var h := HashTaskSpec(spec);
            var s := Step(Deployed(params), Tx(2, SetTaskSpecGasPriceCeilCall(h, 5)));
            var t := Apply(s, Tx(2, MultiProvideCall(0, ZERO_ADDRESS, [spec], [])));
            && s.GasPriceCeil(2, h) == 5 && t.Ok?
            && var u := Apply(t.value, Tx(2, MultiUnprovideCall(0, [spec], [], Reply([], true))));
            u.Ok? && u.value.GasPriceCeil(2, h) == 0
  {
    hide HashTaskSpec, Apply, Inv;
    var h, s0 := HashTaskSpec(spec), Deployed(params);
    var s := FirstCeiling(s0, 2, h, 5);
    DeployedIsValid(params);
    StepKeeps(s0, Tx(2, SetTaskSpecGasPriceCeilCall(h, 5)));
    RaisingIsAChange(s, 2, spec, 5);
    var specs := [spec];
    assert Hashes(specs) == [h];
    hide ChangesEach, Hashes, Deployed, Step;
    assert s.money.balance == 0;
    Provided(s, 2, 0, ZERO_ADDRESS, specs, []);
    UnprovideUndoesProvide(s, 2, 0, ZERO_ADDRESS, specs, []);
  }

  /** Two specs with one hash and ceilings 5 and 7 pass multiProvide, which leaves 7; but
      multiUnprovide of the same batch is refused. */
  lemma SameHashExample(s: State, sender: Address, spec: TaskSpec)
    requires Inv(s) && sender != ZERO_ADDRESS && spec.gasPriceCeil == 5 && s.GasPriceCeil(sender, HashTaskSpec(spec)) == 0
    ensures var specs := [spec, spec.(gasPriceCeil := 7)];
            var t := Apply(s, Tx(sender, MultiProvideCall(0, ZERO_ADDRESS, specs, [])));
            && t.Ok? && t.value.GasPriceCeil(sender, HashTaskSpec(spec)) == 7
            && Apply(t.value, Tx(sender, MultiUnprovideCall(0, specs, [], Reply([], true)))).Revert?
  {
    hide Apply, Inv, ChangesEach, LatestCeil, Restored, Prepared, ModulesOk;
    var specs := [spec, spec.(gasPriceCeil := 7)];
    RisingCeilings(s, sender, spec);
    assert Hashes(specs)[0] == Hashes(specs)[1];
    hide Hashes, HashTaskSpec;
    Provided(s, sender, 0, ZERO_ADDRESS, specs, []);
    UnprovideUndoesProvide(s, sender, 0, ZERO_ADDRESS, specs, []);
  }

  lemma RisingCeilings(s: State, sender: Address, spec: TaskSpec)
    requires spec.gasPriceCeil == 5 && s.GasPriceCeil(sender, HashTaskSpec(spec)) == 0
    ensures var specs := [spec, spec.(gasPriceCeil := 7)];
            ChangesEach(s, sender, specs) && LatestCeil(specs, HashTaskSpec(spec), 0) == 7
  {
    var other := spec.(gasPriceCeil := 7);
    var specs := [spec, other];
    assert HashTaskSpec(other) == HashTaskSpec(spec);
    hide HashTaskSpec;
    assert specs[..0] == [] && specs[..1] == [spec] && [spec][..0] == [];
    assert LatestCeil([spec], HashTaskSpec(spec), 0) == 5;
  }

  lemma FirstCeiling(s0: State, sender: Address, h: SpecHash, ceil: uint256) returns (s: State)
    requires sender != ZERO_ADDRESS && ceil > 0 && s0.GasPriceCeil(sender, h) == 0
    ensures s == Step(s0, Tx(sender, SetTaskSpecGasPriceCeilCall(h, ceil)))
    ensures s.GasPriceCeil(sender, h) == ceil && s.money == s0.money && s.params == s0.params
  {
    s := SetTaskSpecGasPriceCeil(s0, sender, h, ceil).value;
    hide Apply;
    LocalStep(s0, sender, SetTaskSpecGasPriceCeilCall(h, ceil), s);
  }

  lemma RaisingIsAChange(s: State, sender: Address, spec: TaskSpec, ceil: uint256)
    requires s.GasPriceCeil(sender, HashTaskSpec(spec)) == ceil && ceil != AskedCeil(spec)
    ensures ChangesEach(s, sender, [spec])
  {
    hide HashTaskSpec;
    var specs := [spec];
    assert specs[..0] == [];
  }

  lemma {:induction false} RemovingKeepsCeils(s: State, sender: Address, modules: seq<Address>)
    requires RemoveProviderModules(s, sender, modules).Ok?
    ensures RemoveProviderModules(s, sender, modules).value.listings.taskSpecGasPriceCeil == s.listings.taskSpecGasPriceCeil
    decreases |modules|
  {
    if modules != [] {
      RemovingKeepsCeils(RemoveProviderModule(s, sender, modules[0]).value, sender, modules[1..]);
    }
  }
}
