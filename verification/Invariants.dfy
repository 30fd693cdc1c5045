/** What every reachable state of GelatoCore satisfies, including the states a contract
    called in the middle of a payout or of an execution sees when it calls back. */
module Invariants {
  import opened Evm
  import opened GelatoTypes
  import opened GelatoState
  import opened SysAdmin
  import opened Providers
  import opened Executors
  import opened Core
  import ModuleSet

  // ----- conservation of ether -----

  /** Every wei the contract holds is owed to exactly one account or was forced in. */
  ghost predicate Solvent(m: Money) {
    m.balance == Sum(m.providerFunds) + Sum(m.executorStake) + m.sysAdminFunds + m.forced
  }

  // ----- executor assignment -----

  ghost function ProvidersOf(a: Assignments, e: Address): set<Address> {
    set p | p in a.executorByProvider && a.executorByProvider[p] == e
  }

  /** The counter of a real executor is the number of providers assigned to it. */
  ghost predicate CountsAgree(a: Assignments) {
    forall e :: e != ZERO_ADDRESS ==> Get(a.executorProvidersCount, e) == |ProvidersOf(a, e)|
  }

  /** The minimum stake is not above any earlier one. */
  ghost predicate LowestSoFar(s: State) {
    forall k :: 0 <= k < |s.logs.minStakeSet| ==> s.params.minExecutorStake <= s.logs.minStakeSet[k].0
  }

  /** A stake that reaches the minimum or reached it before some change. */
  ghost predicate EverEnough(s: State, stake: nat) {
    || stake >= s.params.minExecutorStake
    || exists k :: 0 <= k < |s.logs.minStakeSet| && stake >= s.logs.minStakeSet[k].0
  }

  /** The minimum stake is positive and was positive before every change. */
  ghost predicate AlwaysPositiveMinStake(s: State) {
    && s.params.minExecutorStake > 0
    && forall k :: 0 <= k < |s.logs.minStakeSet| ==> s.logs.minStakeSet[k].0 > 0
  }

  ghost predicate AssignedWereMinStaked(s: State) {
    forall p :: p in s.assign.executorByProvider && s.assign.executorByProvider[p] != ZERO_ADDRESS
      ==> EverEnough(s, s.ExecutorStake(s.assign.executorByProvider[p]))
  }

  /** The log of changes leads up to the present minimum stake. */
  ghost predicate LogIsCurrent(s: State) {
    var l := s.logs.minStakeSet;
    l != [] ==> l[|l| - 1].1 == s.params.minExecutorStake
  }

  ghost predicate AssignmentsOk(s: State) {
    && CountsAgree(s.assign)
    && AssignedWereMinStaked(s)
    && LogIsCurrent(s)
    && s.ExecutorStake(ZERO_ADDRESS) == 0
    && (AlwaysPositiveMinStake(s) ==> s.ProvidersCount(ZERO_ADDRESS) == 0)
  }

  // ----- receipts -----

  ghost predicate Once(ids: seq<nat>) {
    forall i, j :: 0 <= i < j < |ids| ==> ids[i] != ids[j]
  }

  /** Ids count submissions from 1 without gaps, the table holds only receipts that were
      submitted under their own id, and an id is executed, cancelled or dropped at most
      once, after which it never comes back. */
  ghost predicate BookOk(b: Book, l: Logs) {
    && |l.submitted| == b.currentTaskReceiptId
    && (forall i :: 0 <= i < |l.submitted| ==>
          && l.submitted[i].id == i + 1
          && l.submitted[i].cycleId <= i + 1
          && (l.submitted[i].cycleId == 0 ==> l.submitted[i].submissionsLeft == 1))
    && (forall id :: id in b.taskReceiptHash ==>
          1 <= id <= b.currentTaskReceiptId && b.taskReceiptHash[id] == l.submitted[id - 1])
    && (forall id :: id in l.executed ==> 1 <= id <= b.currentTaskReceiptId && id !in b.taskReceiptHash)
    && (forall id :: id in l.cancelled ==> 1 <= id <= b.currentTaskReceiptId && id !in b.taskReceiptHash)
    && (forall id :: id in l.dropped ==> 1 <= id <= b.currentTaskReceiptId && id !in b.taskReceiptHash)
    && Once(l.executed) && Once(l.cancelled) && Once(l.dropped)
    && (forall id :: id in l.executed ==> id !in l.cancelled && id !in l.dropped)
    && (forall id :: id in l.cancelled ==> id !in l.dropped)
  }

  ghost predicate ModulesOk(l: Listings) {
    forall p :: p in l.providerModules ==> ModuleSet.Valid(l.providerModules[p])
  }

  ghost predicate Inv(s: State) {
    && Solvent(s.money)
    && AssignmentsOk(s)
    && BookOk(s.book, s.logs)
    && ModulesOk(s.listings)
  }

  /** How the receipts of a later state relate to those of an earlier one: logs only grow,
      and an issued id that is not in the table never returns to it or to the logs. */
  ghost predicate Evolves(b: Book, l: Logs, b': Book, l': Logs) {
    && b.currentTaskReceiptId <= b'.currentTaskReceiptId
    && l.submitted <= l'.submitted
    && l.executed <= l'.executed
    && l.cancelled <= l'.cancelled
    && l.dropped <= l'.dropped
    && l.minStakeSet <= l'.minStakeSet
    && (forall id :: id <= b.currentTaskReceiptId && id !in b.taskReceiptHash ==>
          && id !in b'.taskReceiptHash
          && (id in l'.executed ==> id in l.executed)
          && (id in l'.cancelled ==> id in l.cancelled)
          && (id in l'.dropped ==> id in l.dropped))
  }

  lemma NobodyAssigned(a: Assignments)
    requires a.executorByProvider == map[] && a.executorProvidersCount == map[]
    ensures CountsAgree(a)
  {
    forall e ensures ProvidersOf(a, e) == {} {}
  }

  lemma DeployedIsValid(params: Params)
    ensures Inv(Deployed(params))
  {
    var s := Deployed(params);
    NobodyAssigned(s.assign);
    hide CountsAgree;
    assert AssignmentsOk(s);
    assert BookOk(s.book, s.logs);
  }

  // ----- money -----

  /** `s` would be valid once `amount` has left the contract. */
  ghost predicate Owes(s: State, amount: uint256) {
    && amount <= s.money.balance
    && Inv(s.(money := s.money.(balance := s.money.balance - amount)))
  }

  lemma Covered(s: State, a: Address)
    requires Inv(s)
    ensures s.ProviderFunds(a) <= s.money.balance && s.ExecutorStake(a) <= s.money.balance && s.money.sysAdminFunds <= s.money.balance
  {
    SumUpdate(s.money.providerFunds, a, 0);
    SumUpdate(s.money.executorStake, a, 0);
  }

  lemma StakeKeeps(s: State, sender: Address, value: uint256)
    requires Inv(s) && sender != ZERO_ADDRESS
    requires Receive(s, value).Ok? && StakeExecutor(Receive(s, value).value, sender, value).Ok?
    ensures Inv(StakeExecutor(Receive(s, value).value, sender, value).value)
    ensures StakeExecutor(Receive(s, value).value, sender, value).value.ExecutorStake(sender) == s.ExecutorStake(sender) + value
  {
    hide CountsAgree, BookOk, ModulesOk;
    SumUpdate(s.money.executorStake, sender, Wrap(s.ExecutorStake(sender) + value));
  }

  lemma ProvideFundsKeeps(s: State, provider: Address, value: uint256)
    requires Inv(s) && value > 0 && Receive(s, value).Ok?
    ensures var t := ProvideFunds(Receive(s, value).value, provider, value);
            t.Ok? && Inv(t.value) && t.value.ProviderFunds(provider) == s.ProviderFunds(provider) + value
  {
    hide CountsAgree, BookOk, ModulesOk;
    SumUpdate(s.money.providerFunds, provider, 0);
    SumUpdate(s.money.providerFunds, provider, s.ProviderFunds(provider) + value);
  }

  lemma UnprovideOwes(s: State, sender: Address, amount: uint256)
    requires Inv(s)
    ensures var (t, paid) := UnprovideFunds(s, sender, amount); Owes(t, paid)
  {
    var (t, paid) := UnprovideFunds(s, sender, amount);
    SumUpdate(s.money.providerFunds, sender, t.ProviderFunds(sender));
  }

  lemma UnstakeOwes(s: State, sender: Address)
    requires Inv(s) && sender != ZERO_ADDRESS && UnstakeExecutor(s, sender).Ok?
    ensures var (t, paid) := UnstakeExecutor(s, sender).value;
            Owes(t, paid) && forall p :: t.ExecutorByProvider(p) != sender
  {
    SumUpdate(s.money.executorStake, sender, 0);
    var (t, paid) := UnstakeExecutor(s, sender).value;
    assert ProvidersOf(s.assign, sender) == {};
    assert forall p :: p in t.assign.executorByProvider && t.assign.executorByProvider[p] == sender ==> p in ProvidersOf(s.assign, sender);
  }

  lemma WithdrawExcessOwes(s: State, sender: Address, amount: uint256)
    requires Inv(s) && sender != ZERO_ADDRESS && WithdrawExcessExecutorStake(s, sender, amount).Ok?
    ensures var (t, paid) := WithdrawExcessExecutorStake(s, sender, amount).value;
            Owes(t, paid) && t.IsExecutorMinStaked(sender)
  {
    var (t, paid) := WithdrawExcessExecutorStake(s, sender, amount).value;
    SumUpdate(s.money.executorStake, sender, t.ExecutorStake(sender));
  }

  lemma SysAdminOwes(s: State, sender: Address, amount: uint256)
    requires Inv(s) && WithdrawSysAdminFunds(s, sender, amount).Ok?
    ensures var (t, paid) := WithdrawSysAdminFunds(s, sender, amount).value; Owes(t, paid)
  {
  }

  lemma PayKeeps(s: State, provider: Address, executor: Address, toExecutor: uint256, toSysAdmin: uint256)
    requires Inv(s) && executor != ZERO_ADDRESS
    requires Pay(s, provider, executor, toExecutor, toSysAdmin).Ok?
    ensures Inv(Pay(s, provider, executor, toExecutor, toSysAdmin).value)
  {
    var t := Pay(s, provider, executor, toExecutor, toSysAdmin).value;
    SumUpdate(s.money.providerFunds, provider, t.ProviderFunds(provider));
    SumUpdate(s.money.executorStake, executor, t.ExecutorStake(executor));
  }

  // ----- assignment -----

  lemma ProvidersFit(a: Assignments, e: Address)
    ensures |ProvidersOf(a, e)| <= ADDRESS_SPACE
  {
    var s: set<nat> := set p: nat | p in a.executorByProvider && a.executorByProvider[p] == e;
    ModuleSet.Pigeonhole(s, ADDRESS_SPACE);
    assert s == ProvidersOf(a, e);
  }

  lemma Joins(a: Assignments, b: Assignments, p: Address, e: Address)
    requires b.executorByProvider == a.executorByProvider[p := e]
    requires p in a.executorByProvider ==> a.executorByProvider[p] != e
    ensures |ProvidersOf(b, e)| == |ProvidersOf(a, e)| + 1
  {
    assert p !in ProvidersOf(a, e);
    forall q ensures q in ProvidersOf(b, e) <==> q in ProvidersOf(a, e) + {p} {}
    assert ProvidersOf(b, e) == ProvidersOf(a, e) + {p};
  }

  lemma Leaves(a: Assignments, b: Assignments, p: Address, e: Address, to: Address)
    requires b.executorByProvider == a.executorByProvider[p := to] && to != e
    requires p in a.executorByProvider && a.executorByProvider[p] == e
    ensures |ProvidersOf(b, e)| == |ProvidersOf(a, e)| - 1
  {
    assert p in ProvidersOf(a, e);
    forall q ensures q in ProvidersOf(b, e) <==> q in ProvidersOf(a, e) - {p} {}
    assert ProvidersOf(b, e) == ProvidersOf(a, e) - {p};
  }

  lemma Stays(a: Assignments, b: Assignments, p: Address, e: Address, to: Address)
    requires b.executorByProvider == a.executorByProvider[p := to] && to != e
    requires p in a.executorByProvider ==> a.executorByProvider[p] != e
    ensures ProvidersOf(b, e) == ProvidersOf(a, e)
  {
    forall q ensures q in ProvidersOf(b, e) <==> q in ProvidersOf(a, e) {}
  }

  /** Moving one provider changes the two sets of providers by exactly that provider. */
  lemma ReassignedProviders(a: Assignments, b: Assignments, provider: Address, from: Address, to: Address, e: Address)
    requires from == if provider in a.executorByProvider then a.executorByProvider[provider] else ZERO_ADDRESS
    requires from != to && e != ZERO_ADDRESS
    requires b.executorByProvider == a.executorByProvider[provider := to]
    ensures |ProvidersOf(b, e)| == |ProvidersOf(a, e)| + (if e == to then 1 else 0) - (if e == from then 1 else 0)
  {
    if e == to {
      Joins(a, b, provider, e);
    } else if e == from {
      Leaves(a, b, provider, e, to);
    } else {
      Stays(a, b, provider, e, to);
    }
  }

  lemma ReassignKeepsCounts(a: Assignments, provider: Address, from: Address, to: Address, countTo: bool)
    requires CountsAgree(a)
    requires from == if provider in a.executorByProvider then a.executorByProvider[provider] else ZERO_ADDRESS
    requires from != to && (to != ZERO_ADDRESS ==> countTo)
    ensures CountsAgree(Reassign(a, provider, from, to, from != ZERO_ADDRESS, countTo))
  {
    var b := Reassign(a, provider, from, to, from != ZERO_ADDRESS, countTo);
    forall e | e != ZERO_ADDRESS
      ensures Get(b.executorProvidersCount, e) == |ProvidersOf(b, e)|
    {
      ProvidersFit(b, e);
      ReassignedProviders(a, b, provider, from, to, e);
      assert Get(a.executorProvidersCount, e) == |ProvidersOf(a, e)|;
    }
  }

  lemma ProviderAssignsKeeps(s: State, sender: Address, newExecutor: Address)
    requires Inv(s) && ProviderAssignsExecutor(s, sender, newExecutor).Ok?
    ensures Inv(ProviderAssignsExecutor(s, sender, newExecutor).value)
  {
    ReassignKeepsCounts(s.assign, sender, s.ExecutorByProvider(sender), newExecutor, newExecutor != ZERO_ADDRESS);
  }

  lemma ExecutorAssignsKeeps(s: State, sender: Address, provider: Address, newExecutor: Address)
    requires Inv(s) && sender != ZERO_ADDRESS && ExecutorAssignsExecutor(s, sender, provider, newExecutor).Ok?
    ensures Inv(ExecutorAssignsExecutor(s, sender, provider, newExecutor).value)
  {
    ReassignKeepsCounts(s.assign, provider, s.ExecutorByProvider(provider), newExecutor, true);
  }

  lemma {:induction false} MultiReassignKeeps(s: State, sender: Address, providers: seq<Address>, newExecutor: Address)
    requires Inv(s) && sender != ZERO_ADDRESS && MultiReassignProviders(s, sender, providers, newExecutor).Ok?
    ensures Inv(MultiReassignProviders(s, sender, providers, newExecutor).value)
    decreases |providers|
  {
    if providers != [] {
      ExecutorAssignsKeeps(s, sender, providers[0], newExecutor);
      MultiReassignKeeps(ExecutorAssignsExecutor(s, sender, providers[0], newExecutor).value, sender, providers[1..], newExecutor);
    }
  }

  // ----- listings -----

  lemma {:induction false} SpecsKeepModules(s: State, sender: Address, specs: seq<TaskSpec>)
    ensures var r := ProvideTaskSpecs(s, sender, specs); r.Ok? ==> r.value.listings.providerModules == s.listings.providerModules
    ensures var r := UnprovideTaskSpecs(s, sender, specs); r.Ok? ==> r.value.listings.providerModules == s.listings.providerModules
    decreases |specs|
  {
    if specs != [] {
      var h := HashTaskSpec(specs[0]);
      var t := SetTaskSpecGasPriceCeil(s, sender, h, StoredCeil(specs[0]));
      if t.Ok? { SpecsKeepModules(t.value, sender, specs[1..]); }
      var u := UnprovideTaskSpec(s, sender, h);
      if u.Ok? { SpecsKeepModules(u.value, sender, specs[1..]); }
    }
  }

  lemma {:induction false} AddModulesKeep(s: State, sender: Address, modules: seq<Address>)
    requires ModulesOk(s.listings) && AddProviderModules(s, sender, modules).Ok?
    ensures ModulesOk(AddProviderModules(s, sender, modules).value.listings)
    decreases |modules|
  {
    if modules != [] {
      ModuleSet.AddKeeps(s.Modules(sender), modules[0]);
      AddModulesKeep(AddProviderModule(s, sender, modules[0]).value, sender, modules[1..]);
    }
  }

  lemma {:induction false} RemoveModulesKeep(s: State, sender: Address, modules: seq<Address>)
    requires ModulesOk(s.listings) && RemoveProviderModules(s, sender, modules).Ok?
    ensures ModulesOk(RemoveProviderModules(s, sender, modules).value.listings)
    decreases |modules|
  {
    if modules != [] {
      ModuleSet.RemoveKeeps(s.Modules(sender), modules[0]);
      RemoveModulesKeep(RemoveProviderModule(s, sender, modules[0]).value, sender, modules[1..]);
    }
  }

  lemma ProvidingListingsKeeps(s: State, sender: Address, specs: seq<TaskSpec>, modules: seq<Address>)
    requires Inv(s) && ProvideTaskSpecs(s, sender, specs).Ok?
    requires AddProviderModules(ProvideTaskSpecs(s, sender, specs).value, sender, modules).Ok?
    ensures Inv(AddProviderModules(ProvideTaskSpecs(s, sender, specs).value, sender, modules).value)
  {
    SpecsKeepModules(s, sender, specs);
    AddModulesKeep(ProvideTaskSpecs(s, sender, specs).value, sender, modules);
  }

  lemma UnprovidingListingsKeeps(s: State, sender: Address, specs: seq<TaskSpec>, modules: seq<Address>)
    requires Inv(s) && UnprovideTaskSpecs(s, sender, specs).Ok?
    requires RemoveProviderModules(UnprovideTaskSpecs(s, sender, specs).value, sender, modules).Ok?
    ensures Inv(RemoveProviderModules(UnprovideTaskSpecs(s, sender, specs).value, sender, modules).value)
  {
    SpecsKeepModules(s, sender, specs);
    RemoveModulesKeep(UnprovideTaskSpecs(s, sender, specs).value, sender, modules);
  }

  lemma MultiProvideKeeps(s: State, sender: Address, value: uint256, executor: Address,
                          specs: seq<TaskSpec>, modules: seq<Address>)
    requires Inv(s) && Receive(s, value).Ok?
    requires MultiProvide(Receive(s, value).value, sender, value, executor, specs, modules).Ok?
    ensures Inv(MultiProvide(Receive(s, value).value, sender, value, executor, specs, modules).value)
  {
    hide Inv;
    var s0 := Receive(s, value).value;
    assert value == 0 ==> s0 == s;
    if value != 0 { ProvideFundsKeeps(s, sender, value); }
    var s1 := if value != 0 then ProvideFunds(s0, sender, value).value else s0;
    if executor != ZERO_ADDRESS { ProviderAssignsKeeps(s1, sender, executor); }
    var s2 := if executor != ZERO_ADDRESS then ProviderAssignsExecutor(s1, sender, executor).value else s1;
    ProvidingListingsKeeps(s2, sender, specs, modules);
  }

  // ----- receipts -----

  lemma EvolvesTransitive(a: State, b: State, c: State)
    requires Evolves(a.book, a.logs, b.book, b.logs) && Evolves(b.book, b.logs, c.book, c.logs)
    ensures Evolves(a.book, a.logs, c.book, c.logs)
  {
  }

  lemma DeleteKeeps(s: State, id: nat)
    requires BookOk(s.book, s.logs)
    ensures var t := DeleteTaskReceipt(s, id);
            BookOk(t.book, t.logs) && Evolves(s.book, s.logs, t.book, t.logs) && id !in t.book.taskReceiptHash
  {
  }

  lemma DropKeeps(s: State, id: nat)
    requires BookOk(s.book, s.logs)
    ensures var t := DropTaskReceipt(s, id);
            BookOk(t.book, t.logs) && Evolves(s.book, s.logs, t.book, t.logs) && id !in t.book.taskReceiptHash
  {
  }

  lemma StoreKeeps(s: State, newCycle: bool, userProxy: Address, provider: Provider, index: nat,
                   tasks: seq<Task>, expiryDate: uint256, cycleId: nat, submissionsLeft: uint256)
    requires BookOk(s.book, s.logs)
    requires newCycle || (cycleId <= s.book.currentTaskReceiptId && (cycleId == 0 ==> submissionsLeft == 1))
    ensures var t := StoreTaskReceipt(s, newCycle, userProxy, provider, index, tasks, expiryDate, cycleId, submissionsLeft);
            BookOk(t.book, t.logs) && Evolves(s.book, s.logs, t.book, t.logs)
  {
  }

  lemma CancelKeeps(s: State, sender: Address, r: TaskReceipt)
    requires BookOk(s.book, s.logs) && CancelTask(s, sender, r).Ok?
    ensures var t := CancelTask(s, sender, r).value;
            BookOk(t.book, t.logs) && Evolves(s.book, s.logs, t.book, t.logs)
            && t.logs.minStakeSet == s.logs.minStakeSet
            && r.id in t.logs.cancelled
  {
    DeleteKeeps(s, r.id);
    assert CancelTask(s, sender, r).value.logs.cancelled[|s.logs.cancelled|] == r.id;
  }

  lemma {:induction false} MultiCancelKeeps(s: State, sender: Address, receipts: seq<TaskReceipt>)
    requires Inv(s) && MultiCancelTasks(s, sender, receipts).Ok?
    ensures var t := MultiCancelTasks(s, sender, receipts).value;
            && Inv(t) && Evolves(s.book, s.logs, t.book, t.logs)
            && forall r :: r in receipts ==> r.id in t.logs.cancelled && r.id !in t.book.taskReceiptHash
    decreases |receipts|
  {
    if receipts != [] {
      CancelKeeps(s, sender, receipts[0]);
      var t := CancelTask(s, sender, receipts[0]).value;
      MultiCancelKeeps(t, sender, receipts[1..]);
      EvolvesTransitive(s, t, MultiCancelTasks(s, sender, receipts).value);
    }
  }
}
