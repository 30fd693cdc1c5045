/** GelatoProviders: provider funds, executor assignment, task specs and modules. Every
    function maps the storage before a call to the storage after it, or to a revert. */
module Providers {
  import opened Evm
  import opened GelatoTypes
  import opened GelatoState
  import opened SysAdmin
  import ModuleSet

  const NO_CEIL: uint256 := MODULUS - 1

  // ----- funds -----

  function ProvideFunds(s: State, provider: Address, value: uint256): Outcome<State> {
    if value == 0 then Revert(ZeroValue)
    else
      var newProviderFunds :- SafeAdd(s.ProviderFunds(provider), value);
      Ok(s.(money := s.money.(providerFunds := s.money.providerFunds[provider := newProviderFunds])))
  }

  /** Books a withdrawal clamped to what the provider has; the ether is sent afterwards. */
  function UnprovideFunds(s: State, sender: Address, withdrawAmount: uint256): (State, uint256) {
    var previous := s.ProviderFunds(sender);
    var paid: uint256 := Min(withdrawAmount, previous);
    (s.(money := s.money.(providerFunds := s.money.providerFunds[sender := previous - paid])), paid)
  }

  // ----- executor assignment -----

  /** Moves `provider` from executor `from` to executor `to` and keeps the two counters. */
  function Reassign(a: Assignments, provider: Address, from: Address, to: Address,
                    uncountFrom: bool, countTo: bool): Assignments
  {
    var count0 := a.executorProvidersCount;
    var count1 := if uncountFrom then count0[from := WrapSub(Get(count0, from), 1)] else count0;
    var count2 := if countTo then count1[to := Wrap(Get(count1, to) + 1)] else count1;
    Assignments(a.executorByProvider[provider := to], count2)
  }

  function ProviderAssignsExecutor(s: State, sender: Address, newExecutor: Address): Outcome<State> {
    var current := s.ExecutorByProvider(sender);
    if current == newExecutor then Revert(AlreadyAssigned)
    else if newExecutor != ZERO_ADDRESS && !s.IsExecutorMinStaked(newExecutor) then Revert(ExecutorNotMinStaked)
    else Ok(s.(assign := Reassign(s.assign, sender, current, newExecutor, current != ZERO_ADDRESS, newExecutor != ZERO_ADDRESS)))
  }

  function ExecutorAssignsExecutor(s: State, sender: Address, provider: Address, newExecutor: Address): Outcome<State> {
    var current := s.ExecutorByProvider(provider);
    if current != sender then Revert(SenderIsNotAssignedExecutor)
    else if current == newExecutor then Revert(AlreadyAssigned)
    else if !s.IsExecutorMinStaked(newExecutor) then Revert(ExecutorNotMinStaked)
    else Ok(s.(assign := Reassign(s.assign, provider, current, newExecutor, true, true)))
  }

  // ----- task specs -----

  function SetTaskSpecGasPriceCeil(s: State, sender: Address, h: SpecHash, ceil: uint256): Outcome<State> {
    if s.GasPriceCeil(sender, h) == ceil then Revert(AlreadyWhitelistedWithGasPriceCeil)
    else
      Ok(s.(listings := s.listings.(taskSpecGasPriceCeil := s.listings.taskSpecGasPriceCeil[(sender, h) := ceil])))
  }

  function StoredCeil(spec: TaskSpec): uint256 {
    if spec.gasPriceCeil == 0 then NO_CEIL else spec.gasPriceCeil
  }

  function ProvideTaskSpecs(s: State, sender: Address, specs: seq<TaskSpec>): (r: Outcome<State>)
    ensures r.Ok? ==> r.value == s.(listings := r.value.listings)
    decreases |specs|
  {
    if specs == [] then Ok(s)
    else
      var t :- SetTaskSpecGasPriceCeil(s, sender, HashTaskSpec(specs[0]), StoredCeil(specs[0]));
      ProvideTaskSpecs(t, sender, specs[1..])
  }

  function UnprovideTaskSpec(s: State, sender: Address, h: SpecHash): Outcome<State> {
    if s.GasPriceCeil(sender, h) == 0 then Revert(RedundantTaskSpec)
    else
      Ok(s.(listings := s.listings.(taskSpecGasPriceCeil := s.listings.taskSpecGasPriceCeil[(sender, h) := 0])))
  }

  function UnprovideTaskSpecs(s: State, sender: Address, specs: seq<TaskSpec>): (r: Outcome<State>)
    ensures r.Ok? ==> r.value == s.(listings := r.value.listings)
    decreases |specs|
  {
    if specs == [] then Ok(s)
    else
      var t :- UnprovideTaskSpec(s, sender, HashTaskSpec(specs[0]));
      UnprovideTaskSpecs(t, sender, specs[1..])
  }

  // ----- provider modules -----

  function WithModules(s: State, p: Address, m: ModuleSet.Set): State {
    s.(listings := s.listings.(providerModules := s.listings.providerModules[p := m]))
  }

  function AddProviderModule(s: State, sender: Address, m: Address): Outcome<State> {
    if ModuleSet.Contains(s.Modules(sender), m) then Revert(RedundantModule)
    else Ok(WithModules(s, sender, ModuleSet.Add(s.Modules(sender), m)))
  }

  function AddProviderModules(s: State, sender: Address, modules: seq<Address>): (r: Outcome<State>)
    ensures r.Ok? ==> r.value == s.(listings := r.value.listings)
    decreases |modules|
  {
    if modules == [] then Ok(s)
    else
      var t :- AddProviderModule(s, sender, modules[0]);
      AddProviderModules(t, sender, modules[1..])
  }

  /** The array access inside `remove` aborts if the index points past the list. */
  function RemoveProviderModule(s: State, sender: Address, m: Address): Outcome<State> {
    var set_ := s.Modules(sender);
    if !ModuleSet.Contains(set_, m) then Revert(RedundantModule)
    else if Get(set_.index, m) > |set_.modules| then Revert(InvalidIndex)
    else Ok(WithModules(s, sender, ModuleSet.Remove(set_, m)))
  }

  function RemoveProviderModules(s: State, sender: Address, modules: seq<Address>): (r: Outcome<State>)
    ensures r.Ok? ==> r.value == s.(listings := r.value.listings)
    decreases |modules|
  {
    if modules == [] then Ok(s)
    else
      var t :- RemoveProviderModule(s, sender, modules[0]);
      RemoveProviderModules(t, sender, modules[1..])
  }

  function MultiProvide(s: State, sender: Address, value: uint256, executor: Address,
                        specs: seq<TaskSpec>, modules: seq<Address>): Outcome<State>
  {
    var s1 :- if value != 0 then ProvideFunds(s, sender, value) else Ok(s);
    var s2 :- if executor != ZERO_ADDRESS then ProviderAssignsExecutor(s1, sender, executor) else Ok(s1);
    var s3 :- ProvideTaskSpecs(s2, sender, specs);
    AddProviderModules(s3, sender, modules)
  }

  // ----- liquidity -----

  /** All arithmetic here is unchecked in the source. */
  function MinExecProviderFunds(p: Params, gasLimit: uint256, gasPrice: uint256): uint256 {
    var maxExecTxCost := Wrap(Mul(Wrap(EXEC_TX_OVERHEAD + gasLimit), gasPrice));
    Wrap(maxExecTxCost + Wrap(Mul(maxExecTxCost, p.totalSuccessShare)) / 100)
  }

  predicate IsProviderLiquid(s: State, provider: Address, gasLimit: uint256, gasPrice: uint256) {
    MinExecProviderFunds(s.params, gasLimit, gasPrice) <= s.ProviderFunds(provider)
  }
}
