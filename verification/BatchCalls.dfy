/** The calls that list and unlist task specs and modules and reassign providers in batches, as
    transactions: when each goes through, why it is refused, and what it leaves behind. */
module BatchCalls {
  import opened Evm
  import opened GelatoTypes
  import opened GelatoState
  import opened Providers
  import opened Executors
  import opened Core
  import opened Invariants
  import opened Reachability
  import opened Batches

  /** An executor moves a batch of its providers to another, min-staked executor. */
  lemma ReassigningIsExact(s: State, sender: Address, providers: seq<Address>, newExecutor: Address)
    requires sender != ZERO_ADDRESS
    ensures var r := Apply(s, Tx(sender, MultiReassignProvidersCall(providers, newExecutor)));
            && (r.Ok? <==> providers == [] || (&& newExecutor != sender && s.ExecutorStake(newExecutor) >= s.params.minExecutorStake
                                               && Distinct(providers)
                                               && forall p :: p in providers ==> s.ExecutorByProvider(p) == sender))
            && (r.Revert? ==>
                  r.error == if s.ExecutorByProvider(providers[0]) != sender then SenderIsNotAssignedExecutor
                             else if newExecutor == sender then AlreadyAssigned
                             else if s.ExecutorStake(newExecutor) < s.params.minExecutorStake then ExecutorNotMinStaked
                             else SenderIsNotAssignedExecutor)
            && (r.Ok? ==> r.value == s.(assign := r.value.assign))
            && (r.Ok? ==> forall p :: r.value.ExecutorByProvider(p) == if p in providers then newExecutor else s.ExecutorByProvider(p))
  {
    ApplyIsLocal(s, Tx(sender, MultiReassignProvidersCall(providers, newExecutor)));
    hide Apply, Distinct;
    ReassigningABatch(s, sender, providers, newExecutor);
    hide ExecutorAssignsExecutor;
  }

  lemma SpecCallsApply(s: State, sender: Address, specs: seq<TaskSpec>)
    requires sender != ZERO_ADDRESS
    ensures Apply(s, Tx(sender, ProvideTaskSpecsCall(specs))) == ProvideTaskSpecs(s, sender, specs)
    ensures Apply(s, Tx(sender, UnprovideTaskSpecsCall(specs))) == UnprovideTaskSpecs(s, sender, specs)
  {
    hide ProvideTaskSpecs, UnprovideTaskSpecs;
  }

  /** Each spec must change the ceiling its hash has when its turn comes. The last spec of each
      hash then decides: its ceiling stands there, or the greatest number if it gave none. */
  lemma ProvidingIsExact(s: State, sender: Address, specs: seq<TaskSpec>, i: nat)
    requires sender != ZERO_ADDRESS
    ensures var r := Apply(s, Tx(sender, ProvideTaskSpecsCall(specs)));
            && (r.Ok? <==> ChangesEach(s, sender, specs))
            && (r.Revert? ==> r.error == AlreadyWhitelistedWithGasPriceCeil)
            && (r.Ok? ==> r.value == s.(listings := r.value.listings) && forall p :: r.value.Modules(p) == s.Modules(p))
            && (r.Ok? ==> forall p, h :: p != sender || h !in Hashes(specs) ==> r.value.GasPriceCeil(p, h) == s.GasPriceCeil(p, h))
            && (r.Ok? && i < |specs| && LastOfItsHash(specs, i) ==>
                  r.value.GasPriceCeil(sender, HashTaskSpec(specs[i])) ==
                  if specs[i].gasPriceCeil == 0 then 0x1_0000000000000000_0000000000000000_0000000000000000_0000000000000000 - 1
                  else specs[i].gasPriceCeil)
  {
    hide Apply, ApplyLocal, ProvideTaskSpecs, UnprovideTaskSpecs, ChangesEach, HashTaskSpec, Hashes, LatestCeil, LastOfItsHash;
    SpecCallsApply(s, sender, specs);
    ProvidingSpecsIsExact(s, sender, specs);
    var r := ProvideTaskSpecs(s, sender, specs);
    if r.Ok? {
      SpecsKeepModules(s, sender, specs);
      forall p, h | p != sender || h !in Hashes(specs) ensures r.value.GasPriceCeil(p, h) == s.GasPriceCeil(p, h) {
        LatestCeilIsSet(specs, h, s.GasPriceCeil(p, h));
      }
      if i < |specs| && LastOfItsHash(specs, i) {
        LastSpecDecides(s, sender, specs, i);
      }
    }
  }

  /** A single ceiling is set if it is another one. */
  lemma SettingACeilIsExact(s: State, sender: Address, h: SpecHash, ceil: uint256)
    requires sender != ZERO_ADDRESS
    ensures var r := Apply(s, Tx(sender, SetTaskSpecGasPriceCeilCall(h, ceil)));
            && (r.Ok? <==> s.GasPriceCeil(sender, h) != ceil)
            && (r.Revert? ==> r.error == AlreadyWhitelistedWithGasPriceCeil)
            && (r.Ok? ==> r.value == s.(listings := s.listings.(taskSpecGasPriceCeil := r.value.listings.taskSpecGasPriceCeil)))
            && (r.Ok? ==> forall p, g :: r.value.GasPriceCeil(p, g) == if p == sender && g == h then ceil else s.GasPriceCeil(p, g))
  {
    ApplyIsLocal(s, Tx(sender, SetTaskSpecGasPriceCeilCall(h, ceil)));
    hide Apply;
    OneCeil(s, sender, h, ceil);
    hide SetTaskSpecGasPriceCeil;
  }

  /** Specs are taken back if each hash has a ceiling and none is named twice. */
  lemma UnprovidingIsExact(s: State, sender: Address, specs: seq<TaskSpec>)
    requires sender != ZERO_ADDRESS
    ensures var r := Apply(s, Tx(sender, UnprovideTaskSpecsCall(specs)));
            && (r.Ok? <==> Distinct(Hashes(specs)) && forall h :: h in Hashes(specs) ==> s.GasPriceCeil(sender, h) != 0)
            && (r.Revert? ==> r.error == RedundantTaskSpec)
            && (r.Ok? ==> r.value == s.(listings := s.listings.(taskSpecGasPriceCeil := r.value.listings.taskSpecGasPriceCeil)))
            && (r.Ok? ==> forall p, h :: r.value.GasPriceCeil(p, h) ==
                                         if p == sender && h in Hashes(specs) then 0 else s.GasPriceCeil(p, h))
  {
    hide Apply, ApplyLocal, ProvideTaskSpecs, UnprovideTaskSpecs, Distinct, Hashes, HashTaskSpec;
    SpecCallsApply(s, sender, specs);
    UnprovidedCeils(s, sender, specs);
    if UnprovideTaskSpecs(s, sender, specs).Ok? {
      SpecsKeepModules(s, sender, specs);
    }
  }

  lemma ModuleCallsApply(s: State, sender: Address, modules: seq<Address>)
    requires sender != ZERO_ADDRESS
    ensures Apply(s, Tx(sender, AddProviderModulesCall(modules))) == AddProviderModules(s, sender, modules)
    ensures Apply(s, Tx(sender, RemoveProviderModulesCall(modules))) == RemoveProviderModules(s, sender, modules)
  {
    hide AddProviderModules, RemoveProviderModules;
  }

  /** Modules are listed if none of them is named twice or listed already. */
  lemma AddingIsExact(s: State, sender: Address, modules: seq<Address>)
    requires Inv(s) && sender != ZERO_ADDRESS
    ensures var r := Apply(s, Tx(sender, AddProviderModulesCall(modules)));
            && (r.Ok? <==> Distinct(modules) && forall m :: m in modules ==> m !in s.Modules(sender).modules)
            && (r.Revert? ==> r.error == RedundantModule)
            && (r.Ok? ==> && r.value == s.(listings := s.listings.(providerModules := r.value.listings.providerModules))
                          && r.value.Modules(sender).modules == s.Modules(sender).modules + modules
                          && forall p :: p != sender ==> r.value.Modules(p) == s.Modules(p))
  {
    hide Inv, Apply, ApplyLocal, Distinct, ModulesOk;
    ModuleCallsApply(s, sender, modules);
    ValidParts(s);
    AddedModules(s, sender, modules);
    hide AddProviderModules;
    if AddProviderModules(s, sender, modules).Ok? {
      AddingIsLocal(s, sender, modules);
    }
  }

  /** Modules are taken off the list if all of them are on it and none is named twice. */
  lemma RemovingIsExact(s: State, sender: Address, modules: seq<Address>)
    requires Inv(s) && sender != ZERO_ADDRESS
    ensures var r := Apply(s, Tx(sender, RemoveProviderModulesCall(modules)));
            && (r.Ok? <==> Distinct(modules) && forall m :: m in modules ==> m in s.Modules(sender).modules)
            && (r.Revert? ==> r.error == RedundantModule)
            && (r.Ok? ==> && r.value == s.(listings := s.listings.(providerModules := r.value.listings.providerModules))
                          && (forall m :: m in r.value.Modules(sender).modules <==> m in s.Modules(sender).modules && m !in modules)
                          && forall p :: p != sender ==> r.value.Modules(p) == s.Modules(p))
  {
    hide Inv, Apply, ApplyLocal, Distinct, ModulesOk;
    ModuleCallsApply(s, sender, modules);
    ValidParts(s);
    RemovingModulesIsExact(s, sender, modules);
    hide RemoveProviderModules;
    if RemoveProviderModules(s, sender, modules).Ok? {
      RemovingKeepsCeils(s, sender, modules);
    }
  }

  // ----- multiUnprovide -----

  /** The storage after the payout of a multiUnprovide: the amount asked for, or all funds, is
      gone, and the provider's own calls have run. Nothing is paid for the amount zero. */
  function PaidUnprovide(s: State, sender: Address, amount: uint256, payout: Reply): State
    requires s.ProviderFunds(sender) <= s.money.balance
  {
    var funds := s.ProviderFunds(sender);
    var left: uint256 := if amount <= funds then funds - amount else 0;
    if amount == 0 then s
    else
      RunAll(s.(money := s.money.(balance := s.money.balance - (funds - left), providerFunds := s.money.providerFunds[sender := left])),
             payout.nested)
  }

  lemma PayoutStage(s: State, sender: Address, amount: uint256, payout: Reply)
    requires Inv(s) && sender != ZERO_ADDRESS && amount != 0
    ensures s.ProviderFunds(sender) <= s.money.balance
    ensures var (booked, paid) := UnprovideFunds(s, sender, amount);
            SendValue(booked, paid, payout) ==
            if payout.accepted then Ok(PaidUnprovide(s, sender, amount, payout)) else Revert(UnableToSendValue)
    ensures Inv(PaidUnprovide(s, sender, amount, payout))
  {
    hide Inv, RunAll, SendValue;
    Covered(s, sender);
    UnprovideOwes(s, sender, amount);
    var (t, paid) := UnprovideFunds(s, sender, amount);
    PaysOut(t, paid, payout);
    RunAllKeeps(t.(money := t.money.(balance := t.money.balance - paid)), payout.nested);
  }

  /** Taking back specs and modules in one storage. */
  lemma TakenBack(s: State, sender: Address, specs: seq<TaskSpec>, modules: seq<Address>)
    requires Inv(s)
    ensures var r := var t :- UnprovideTaskSpecs(s, sender, specs); RemoveProviderModules(t, sender, modules);
            && (r.Ok? <==>
                  && Distinct(Hashes(specs)) && (forall h :: h in Hashes(specs) ==> s.GasPriceCeil(sender, h) != 0)
                  && Distinct(modules) && (forall m :: m in modules ==> m in s.Modules(sender).modules))
            && (r.Revert? ==>
                  r.error == if Distinct(Hashes(specs)) && (forall h :: h in Hashes(specs) ==> s.GasPriceCeil(sender, h) != 0) then RedundantModule
                             else RedundantTaskSpec)
            && (r.Ok? ==> TookBack(s, r.value, sender, specs, modules))
  {
    ValidParts(s);
    hide Inv, Distinct, Hashes, HashTaskSpec, ModulesOk;
    UnprovidedCeils(s, sender, specs);
    hide UnprovideTaskSpecs;
    if UnprovideTaskSpecs(s, sender, specs).Ok? {
      var t := UnprovideTaskSpecs(s, sender, specs).value;
      SpecsKeepModules(s, sender, specs);
      assert forall p :: t.Modules(p) == s.Modules(p);
      assert ModulesOk(t.listings) by { SameModulesOk(s, t); }
      RemovingModulesIsExact(t, sender, modules);
      hide RemoveProviderModules;
      if RemoveProviderModules(t, sender, modules).Ok? {
        RemovingKeepsCeils(t, sender, modules);
      }
    }
  }

  lemma SameModulesOk(s: State, t: State)
    requires ModulesOk(s.listings) && s.listings.providerModules == t.listings.providerModules
    ensures ModulesOk(t.listings)
  {
  }

  /** `t` is `s` without the sender's ceilings for `specs` and without its `modules`. */
  ghost predicate TookBack(s: State, t: State, sender: Address, specs: seq<TaskSpec>, modules: seq<Address>) {
    && t == s.(listings := t.listings)
    && (forall p, h :: t.GasPriceCeil(p, h) == if p == sender && h in Hashes(specs) then 0 else s.GasPriceCeil(p, h))
    && (forall m :: m in t.Modules(sender).modules <==> m in s.Modules(sender).modules && m !in modules)
    && (forall p :: p != sender ==> t.Modules(p) == s.Modules(p))
  }

  lemma UnprovideStages(s: State, sender: Address, amount: uint256, specs: seq<TaskSpec>, modules: seq<Address>, payout: Reply)
    requires sender != ZERO_ADDRESS
    ensures Apply(s, Tx(sender, MultiUnprovideCall(amount, specs, modules, payout))) ==
            var s1 :- if amount == 0 then Ok(s) else SendValue(UnprovideFunds(s, sender, amount).0, UnprovideFunds(s, sender, amount).1, payout);
            var t :- UnprovideTaskSpecs(s1, sender, specs);
            RemoveProviderModules(t, sender, modules)
  {
    hide SendValue, UnprovideTaskSpecs, RemoveProviderModules, UnprovideFunds;
  }

  /** multiUnprovide, for any amount and whatever the recipient does when it is paid. The specs
      and modules are looked up only after the payout, in the storage its calls have left. */
  lemma MultiUnprovidingIsExact(s: State, sender: Address, amount: uint256, specs: seq<TaskSpec>, modules: seq<Address>, payout: Reply)
    requires Inv(s) && sender != ZERO_ADDRESS
    ensures s.ProviderFunds(sender) <= s.money.balance
    ensures var r, s1 := Apply(s, Tx(sender, MultiUnprovideCall(amount, specs, modules, payout))), PaidUnprovide(s, sender, amount, payout);
            var specsOk := Distinct(Hashes(specs)) && forall h :: h in Hashes(specs) ==> s1.GasPriceCeil(sender, h) != 0;
            && (r.Ok? <==>
                  && (amount == 0 || payout.accepted)
                  && specsOk && Distinct(modules) && forall m :: m in modules ==> m in s1.Modules(sender).modules)
            && (r.Revert? ==>
                  r.error == if amount != 0 && !payout.accepted then UnableToSendValue
                             else if !specsOk then RedundantTaskSpec else RedundantModule)
            && (r.Ok? ==> TookBack(s1, r.value, sender, specs, modules))
  {
    hide Inv, Apply, SendValue, UnprovideTaskSpecs, RemoveProviderModules, UnprovideFunds, Distinct, Hashes, HashTaskSpec, TookBack, PaidUnprovide;
    Covered(s, sender);
    UnprovideStages(s, sender, amount, specs, modules, payout);
    if amount == 0 {
      assert PaidUnprovide(s, sender, amount, payout) == s by { PaidNothing(s, sender, payout); }
      TakenBack(s, sender, specs, modules);
    } else {
      PayoutStage(s, sender, amount, payout);
      TakenBack(PaidUnprovide(s, sender, amount, payout), sender, specs, modules);
    }
  }

  lemma PaidNothing(s: State, sender: Address, payout: Reply)
    requires s.ProviderFunds(sender) <= s.money.balance
    ensures PaidUnprovide(s, sender, 0, payout) == s
  {
    hide RunAll;
  }
}
