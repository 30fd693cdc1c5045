/** GelatoCore as the object it is on chain: one storage, updated in place by the methods
    anyone can call. Each method is proved to do what the function of the same name says;
    a call that reverts is undone as a whole. */
module GelatoCoreContract {
  import opened Evm
  import opened GelatoTypes
  import opened GelatoState
  import SysAdmin
  import Providers
  import Executors
  import Core
  import Invariants
  import Reachability
  import ModuleSet

  class GelatoCore {
    // GelatoSysAdmin
    var owner: Address
    var gelatoMaxGas: uint256
    var internalGasRequirement: uint256
    var minExecutorStake: uint256
    var executorSuccessShare: uint256
    var sysAdminSuccessShare: uint256
    var totalSuccessShare: uint256
    var sysAdminFunds: uint256

    // GelatoProviders
    var providerFunds: map<Address, uint256>
    var executorStake: map<Address, uint256>
    var executorByProvider: map<Address, Address>
    var executorProvidersCount: map<Address, uint256>
    var taskSpecGasPriceCeil: map<(Address, SpecHash), uint256>
    var providerModules: map<Address, ModuleSet.Set>

    // GelatoCore
    var currentTaskReceiptId: nat
    var taskReceiptHash: map<nat, TaskReceipt>

    // the ether held by the contract and the events it emitted
    var balance: uint256
    var forced: nat
    var logs: Logs

    function Settings(): Params
      reads `owner, `gelatoMaxGas, `internalGasRequirement, `minExecutorStake, `executorSuccessShare,
            `sysAdminSuccessShare, `totalSuccessShare
    {
      Params(owner, gelatoMaxGas, internalGasRequirement, minExecutorStake, executorSuccessShare,
             sysAdminSuccessShare, totalSuccessShare)
    }

    function Funds(): Money
      reads `balance, `providerFunds, `executorStake, `sysAdminFunds, `forced
    {
      Money(balance, providerFunds, executorStake, sysAdminFunds, forced)
    }

    function Assigned(): Assignments
      reads `executorByProvider, `executorProvidersCount
    {
      Assignments(executorByProvider, executorProvidersCount)
    }

    function Listed(): Listings
      reads `taskSpecGasPriceCeil, `providerModules
    {
      Listings(taskSpecGasPriceCeil, providerModules)
    }

    function Receipts(): Book
      reads `currentTaskReceiptId, `taskReceiptHash
    {
      Book(currentTaskReceiptId, taskReceiptHash)
    }

    /** The whole storage as a value. */
    function View(): State
      reads this
    {
      State(Funds(), Assigned(), Listed(), Settings(), Receipts(), logs)
    }

    /** A call ended the way `spec` says: it reverted with that error, or it went through and
        left that storage. */
    ghost predicate Agrees(r: Outcome<()>, spec: Outcome<State>)
      reads this
    {
      match spec
      case Ok(t) => r.Ok? && View() == t
      case Revert(error) => r == Revert(error)
    }

    constructor (params: Params)
      ensures View() == Deployed(params)
    {
      owner, gelatoMaxGas, internalGasRequirement := params.owner, params.gelatoMaxGas, params.internalGasRequirement;
      minExecutorStake := params.minExecutorStake;
      executorSuccessShare, sysAdminSuccessShare := params.executorSuccessShare, params.sysAdminSuccessShare;
      totalSuccessShare := params.totalSuccessShare;
      sysAdminFunds, balance, forced := 0, 0, 0;
      providerFunds, executorStake, executorByProvider, executorProvidersCount := map[], map[], map[], map[];
      taskSpecGasPriceCeil, providerModules := map[], map[];
      currentTaskReceiptId, taskReceiptHash := 0, map[];
      logs := Logs([], [], [], [], []);
    }

    method RestoreFunds(m: Money)
      modifies `balance, `providerFunds, `executorStake, `sysAdminFunds, `forced
      ensures Funds() == m
    {
      balance, providerFunds, executorStake, sysAdminFunds := m.balance, m.providerFunds, m.executorStake, m.sysAdminFunds;
      forced := m.forced;
    }

    method RestoreSettings(p: Params)
      modifies `owner, `gelatoMaxGas, `internalGasRequirement, `minExecutorStake, `executorSuccessShare,
               `sysAdminSuccessShare, `totalSuccessShare
      ensures Settings() == p
    {
      owner, gelatoMaxGas, internalGasRequirement, minExecutorStake :=
        p.owner, p.gelatoMaxGas, p.internalGasRequirement, p.minExecutorStake;
      executorSuccessShare, sysAdminSuccessShare, totalSuccessShare :=
        p.executorSuccessShare, p.sysAdminSuccessShare, p.totalSuccessShare;
    }

    method RestoreTables(a: Assignments, l: Listings, b: Book)
      modifies `executorByProvider, `executorProvidersCount, `taskSpecGasPriceCeil, `providerModules,
               `currentTaskReceiptId, `taskReceiptHash
      ensures Assigned() == a && Listed() == l && Receipts() == b
    {
      executorByProvider, executorProvidersCount := a.executorByProvider, a.executorProvidersCount;
      taskSpecGasPriceCeil, providerModules := l.taskSpecGasPriceCeil, l.providerModules;
      currentTaskReceiptId, taskReceiptHash := b.currentTaskReceiptId, b.taskReceiptHash;
    }

    /** What the EVM does when a call frame reverts. */
    method RollBack(s: State)
      modifies this
      ensures View() == s
    {
      hide GelatoCore.Funds, GelatoCore.Settings, GelatoCore.Assigned, GelatoCore.Listed, GelatoCore.Receipts;
      RestoreFunds(s.money);
      RestoreSettings(s.params);
      RestoreTables(s.assign, s.listings, s.book);
      logs := s.logs;
    }

    // ----- GelatoSysAdmin -----

    method SetGelatoMaxGas(sender: Address, newMaxGas: uint256) returns (r: Outcome<()>)
      modifies this
      ensures Agrees(r, SysAdmin.SetGelatoMaxGas(old(View()), sender, newMaxGas))
    {
      if sender != owner { return Revert(CallerIsNotTheOwner); }
      gelatoMaxGas := newMaxGas;
      return Ok(());
    }

    method SetInternalGasRequirement(sender: Address, newRequirement: uint256) returns (r: Outcome<()>)
      modifies this
      ensures Agrees(r, SysAdmin.SetInternalGasRequirement(old(View()), sender, newRequirement))
    {
      if sender != owner { return Revert(CallerIsNotTheOwner); }
      internalGasRequirement := newRequirement;
      return Ok(());
    }

    method SetMinExecutorStake(sender: Address, newMin: uint256) returns (r: Outcome<()>)
      modifies this
      ensures Agrees(r, SysAdmin.SetMinExecutorStake(old(View()), sender, newMin))
    {
      if sender != owner { return Revert(CallerIsNotTheOwner); }
      logs := logs.(minStakeSet := logs.minStakeSet + [(minExecutorStake, newMin)]);
      minExecutorStake := newMin;
      return Ok(());
    }

    method SetExecutorSuccessShare(sender: Address, percentage: uint256) returns (r: Outcome<()>)
      modifies this
      ensures Agrees(r, SysAdmin.SetExecutorSuccessShare(old(View()), sender, percentage))
    {
      if sender != owner { return Revert(CallerIsNotTheOwner); }
      executorSuccessShare := percentage;
      totalSuccessShare := Wrap(percentage + sysAdminSuccessShare);
      return Ok(());
    }

    method SetSysAdminSuccessShare(sender: Address, percentage: uint256) returns (r: Outcome<()>)
      modifies this
      ensures Agrees(r, SysAdmin.SetSysAdminSuccessShare(old(View()), sender, percentage))
    {
      if sender != owner { return Revert(CallerIsNotTheOwner); }
      sysAdminSuccessShare := percentage;
      totalSuccessShare := Wrap(executorSuccessShare + percentage);
      return Ok(());
    }

    method WithdrawSysAdminFunds(sender: Address, amount: uint256, payout: Core.Reply) returns (r: Outcome<()>)
      modifies this
      ensures Agrees(r, var (t, paid) :- SysAdmin.WithdrawSysAdminFunds(old(View()), sender, amount); Core.SendValue(t, paid, payout))
      decreases payout, 2
    {
      if sender != owner { return Revert(CallerIsNotTheOwner); }
      var realWithdrawAmount: uint256 := Min(amount, sysAdminFunds);
      sysAdminFunds := sysAdminFunds - realWithdrawAmount;
      r := SendValue(realWithdrawAmount, payout);
    }

    // ----- GelatoProviders: funds -----

    method ProvideFunds(provider: Address, value: uint256) returns (r: Outcome<()>)
      modifies this
      ensures Agrees(r, Providers.ProvideFunds(old(View()), provider, value))
    {
      if value == 0 { return Revert(ZeroValue); }
      var newProviderFunds :- SafeAdd(Get(providerFunds, provider), value);
      providerFunds := providerFunds[provider := newProviderFunds];
      return Ok(());
    }

    method UnprovideFunds(sender: Address, withdrawAmount: uint256, payout: Core.Reply) returns (r: Outcome<()>)
      modifies this
      ensures Agrees(r, var (t, paid) := Providers.UnprovideFunds(old(View()), sender, withdrawAmount); Core.SendValue(t, paid, payout))
      decreases payout, 2
    {
      var previousProviderFunds := Get(providerFunds, sender);
      var realWithdrawAmount: uint256 := Min(withdrawAmount, previousProviderFunds);
      providerFunds := providerFunds[sender := previousProviderFunds - realWithdrawAmount];
      r := SendValue(realWithdrawAmount, payout);
    }

    // ----- GelatoProviders: assignment -----

    function ExecutorOf(provider: Address): Address
      reads this
    {
      if provider in executorByProvider then executorByProvider[provider] else ZERO_ADDRESS
    }

    predicate IsExecutorMinStaked(executor: Address)
      reads this
    {
      Get(executorStake, executor) >= minExecutorStake
    }

    method ProviderAssignsExecutor(sender: Address, newExecutor: Address) returns (r: Outcome<()>)
      modifies this
      ensures Agrees(r, Providers.ProviderAssignsExecutor(old(View()), sender, newExecutor))
    {
      var currentExecutor := ExecutorOf(sender);
      if currentExecutor == newExecutor { return Revert(AlreadyAssigned); }
      if newExecutor != ZERO_ADDRESS {
        if !IsExecutorMinStaked(newExecutor) { return Revert(ExecutorNotMinStaked); }
      }
      if currentExecutor != ZERO_ADDRESS {
        executorProvidersCount := executorProvidersCount[currentExecutor := WrapSub(Get(executorProvidersCount, currentExecutor), 1)];
      }
      executorByProvider := executorByProvider[sender := newExecutor];
      if newExecutor != ZERO_ADDRESS {
        executorProvidersCount := executorProvidersCount[newExecutor := Wrap(Get(executorProvidersCount, newExecutor) + 1)];
      }
      return Ok(());
    }

    method ExecutorAssignsExecutor(sender: Address, provider: Address, newExecutor: Address) returns (r: Outcome<()>)
      modifies this
      ensures Agrees(r, Providers.ExecutorAssignsExecutor(old(View()), sender, provider, newExecutor))
    {
      var currentExecutor := ExecutorOf(provider);
      if currentExecutor != sender { return Revert(SenderIsNotAssignedExecutor); }
      if currentExecutor == newExecutor { return Revert(AlreadyAssigned); }
      if !IsExecutorMinStaked(newExecutor) { return Revert(ExecutorNotMinStaked); }
      executorProvidersCount := executorProvidersCount[currentExecutor := WrapSub(Get(executorProvidersCount, currentExecutor), 1)];
      executorByProvider := executorByProvider[provider := newExecutor];
      executorProvidersCount := executorProvidersCount[newExecutor := Wrap(Get(executorProvidersCount, newExecutor) + 1)];
      return Ok(());
    }

    // ----- GelatoProviders: task specs and modules -----

    /** Fills an array of actions without their data, one by one, and hashes it. */
    method ComputeTaskSpecHash(spec: TaskSpec) returns (h: SpecHash)
      ensures h == HashTaskSpec(spec)
    {
      var noDataActions := new NoDataAction[|spec.actions|](_ => NoDataAction(0, Call, DataFlow.None, false, false));
      for i := 0 to |spec.actions|
        invariant forall k :: 0 <= k < i ==> noDataActions[k] == StripAction(spec.actions[k])
      {
        var action := spec.actions[i];
        noDataActions[i] := NoDataAction(action.addr, action.operation, action.dataFlow, action.value != 0, action.termsOkCheck);
      }
      assert noDataActions[..] == HashTaskSpec(spec).actions;
      return SpecHash(spec.conditions, noDataActions[..]);
    }

    method SetTaskSpecGasPriceCeil(sender: Address, hash: SpecHash, ceil: uint256) returns (r: Outcome<()>)
      modifies this
      ensures Agrees(r, Providers.SetTaskSpecGasPriceCeil(old(View()), sender, hash, ceil))
    {
      if Get(taskSpecGasPriceCeil, (sender, hash)) == ceil { return Revert(AlreadyWhitelistedWithGasPriceCeil); }
      taskSpecGasPriceCeil := taskSpecGasPriceCeil[(sender, hash) := ceil];
      return Ok(());
    }

    method ProvideTaskSpecs(sender: Address, specs: seq<TaskSpec>) returns (r: Outcome<()>)
      modifies this
      ensures Agrees(r, Providers.ProvideTaskSpecs(old(View()), sender, specs))
    {
      hide HashTaskSpec;
      for i := 0 to |specs|
        invariant Providers.ProvideTaskSpecs(old(View()), sender, specs) == Providers.ProvideTaskSpecs(View(), sender, specs[i..])
      {
        assert specs[i..][0] == specs[i] && specs[i..][1..] == specs[i + 1..];
        var ceil := if specs[i].gasPriceCeil == 0 then Providers.NO_CEIL else specs[i].gasPriceCeil;
        var hash := ComputeTaskSpecHash(specs[i]);
        var _ :- SetTaskSpecGasPriceCeil(sender, hash, ceil);
      }
      return Ok(());
    }

    method UnprovideTaskSpecs(sender: Address, specs: seq<TaskSpec>) returns (r: Outcome<()>)
      modifies this
      ensures Agrees(r, Providers.UnprovideTaskSpecs(old(View()), sender, specs))
    {
      hide HashTaskSpec;
      for i := 0 to |specs|
        invariant Providers.UnprovideTaskSpecs(old(View()), sender, specs) == Providers.UnprovideTaskSpecs(View(), sender, specs[i..])
      {
        assert specs[i..][0] == specs[i] && specs[i..][1..] == specs[i + 1..];
        var hash := ComputeTaskSpecHash(specs[i]);
        if Get(taskSpecGasPriceCeil, (sender, hash)) == 0 { return Revert(RedundantTaskSpec); }
        taskSpecGasPriceCeil := taskSpecGasPriceCeil[(sender, hash) := 0];
      }
      return Ok(());
    }

    function ModulesOf(provider: Address): ModuleSet.Set
      reads this
    {
      if provider in providerModules then providerModules[provider] else ModuleSet.EMPTY
    }

    method AddProviderModules(sender: Address, modules: seq<Address>) returns (r: Outcome<()>)
      modifies this
      ensures Agrees(r, Providers.AddProviderModules(old(View()), sender, modules))
    {
      for i := 0 to |modules|
        invariant Providers.AddProviderModules(old(View()), sender, modules) == Providers.AddProviderModules(View(), sender, modules[i..])
      {
        assert modules[i..][0] == modules[i] && modules[i..][1..] == modules[i + 1..];
        var set_ := ModulesOf(sender);
        if ModuleSet.Contains(set_, modules[i]) { return Revert(RedundantModule); }
        providerModules := providerModules[sender := ModuleSet.Add(set_, modules[i])];
      }
      return Ok(());
    }

    method RemoveProviderModules(sender: Address, modules: seq<Address>) returns (r: Outcome<()>)
      modifies this
      ensures Agrees(r, Providers.RemoveProviderModules(old(View()), sender, modules))
    {
      for i := 0 to |modules|
        invariant Providers.RemoveProviderModules(old(View()), sender, modules) == Providers.RemoveProviderModules(View(), sender, modules[i..])
      {
        assert modules[i..][0] == modules[i] && modules[i..][1..] == modules[i + 1..];
        var set_ := ModulesOf(sender);
        if !ModuleSet.Contains(set_, modules[i]) { return Revert(RedundantModule); }
        if Get(set_.index, modules[i]) > |set_.modules| { return Revert(InvalidIndex); }
        providerModules := providerModules[sender := ModuleSet.Remove(set_, modules[i])];
      }
      return Ok(());
    }

    method MultiProvide(sender: Address, value: uint256, executor: Address, specs: seq<TaskSpec>, modules: seq<Address>)
      returns (r: Outcome<()>)
      modifies this
      ensures Agrees(r, Providers.MultiProvide(old(View()), sender, value, executor, specs, modules))
    {
      hide Providers.ProvideFunds, Providers.ProviderAssignsExecutor, Providers.ProvideTaskSpecs, Providers.AddProviderModules, GelatoCore.View;
      if value != 0 {
        var _ :- ProvideFunds(sender, value);
      }
      if executor != ZERO_ADDRESS {
        var _ :- ProviderAssignsExecutor(sender, executor);
      }
      var _ :- ProvideTaskSpecs(sender, specs);
      r := AddProviderModules(sender, modules);
    }

    method MultiUnprovide(sender: Address, amount: uint256, specs: seq<TaskSpec>, modules: seq<Address>, payout: Core.Reply)
      returns (r: Outcome<()>)
      modifies this
      ensures Agrees(r, Core.MultiUnprovide(old(View()), sender, amount, specs, modules, payout))
      decreases payout, 3
    {
      hide Providers.UnprovideFunds, Core.SendValue, Providers.UnprovideTaskSpecs, Providers.RemoveProviderModules, GelatoCore.View;
      if amount != 0 {
        var _ :- UnprovideFunds(sender, amount, payout);
      }
      var _ :- UnprovideTaskSpecs(sender, specs);
      r := RemoveProviderModules(sender, modules);
    }

    // ----- GelatoExecutors -----

    method StakeExecutor(sender: Address, value: uint256) returns (r: Outcome<()>)
      modifies this
      ensures Agrees(r, Executors.StakeExecutor(old(View()), sender, value))
    {
      var newStake := Wrap(Get(executorStake, sender) + value);
      if newStake < minExecutorStake { return Revert(BelowMinStake); }
      executorStake := executorStake[sender := newStake];
      return Ok(());
    }

    method UnstakeExecutor(sender: Address, payout: Core.Reply) returns (r: Outcome<()>)
      modifies this
      ensures Agrees(r, var (t, paid) :- Executors.UnstakeExecutor(old(View()), sender); Core.SendValue(t, paid, payout))
      decreases payout, 2
    {
      if Get(executorProvidersCount, sender) != 0 { return Revert(StillAssigned); }
      var unbondedStake := Get(executorStake, sender);
      if unbondedStake == 0 { return Revert(AlreadyUnstaked); }
      executorStake := executorStake[sender := 0];
      r := SendValue(unbondedStake, payout);
    }

    method WithdrawExcessExecutorStake(sender: Address, amount: uint256, payout: Core.Reply) returns (r: Outcome<()>)
      modifies this
      ensures Agrees(r, var (t, paid) :- Executors.WithdrawExcessExecutorStake(old(View()), sender, amount); Core.SendValue(t, paid, payout))
      decreases payout, 2
    {
      if !IsExecutorMinStaked(sender) { return Revert(NotMinStaked); }
      var currentExecutorStake := Get(executorStake, sender);
      var excessExecutorStake := currentExecutorStake - minExecutorStake;
      var realWithdrawAmount: uint256 := Min(amount, excessExecutorStake);
      executorStake := executorStake[sender := currentExecutorStake - realWithdrawAmount];
      r := SendValue(realWithdrawAmount, payout);
    }

    method MultiReassignProviders(sender: Address, providers: seq<Address>, newExecutor: Address) returns (r: Outcome<()>)
      modifies this
      ensures Agrees(r, Executors.MultiReassignProviders(old(View()), sender, providers, newExecutor))
    {
      for i := 0 to |providers|
        invariant Executors.MultiReassignProviders(old(View()), sender, providers, newExecutor)
               == Executors.MultiReassignProviders(View(), sender, providers[i..], newExecutor)
      {
        assert providers[i..][0] == providers[i] && providers[i..][1..] == providers[i + 1..];
        var _ :- ExecutorAssignsExecutor(sender, providers[i], newExecutor);
      }
      return Ok(());
    }

    // ----- GelatoCore: submission -----

    /** Fills in the gas fields of a self-provider's tasks, in place. */
    method HandleSelfProviderGasDefaults(tasks: array<Task>) returns (r: Outcome<()>)
      modifies tasks
      ensures var spec := Core.SelfProviderGasDefaults(Settings(), old(tasks[..]));
              if spec.Ok? then r.Ok? && tasks[..] == spec.value else r == Revert(spec.error)
    {
      hide Then;
      ghost var was := tasks[..];
      assert tasks[..0] == [];
      ThenNothing(Core.SelfProviderGasDefaults(Settings(), was));
      for i := 0 to tasks.Length
        invariant tasks[i..] == was[i..]
        invariant Core.SelfProviderGasDefaults(Settings(), was) == Then(Ok(tasks[..i]), Core.SelfProviderGasDefaults(Settings(), was[i..]))
      {
        ghost var done := tasks[..i];
        RevertStops(done);
        assert was[i..][0] == tasks[i] && was[i..][1..] == was[i + 1..];
        if tasks[i].selfProviderGasLimit == 0 {
          tasks[i] := tasks[i].(selfProviderGasLimit := gelatoMaxGas);
        } else {
          var floor :- SafeMul(internalGasRequirement, 2);
          if tasks[i].selfProviderGasLimit < floor { return Revert(SelfProviderGasLimitTooLow); }
        }
        if tasks[i].selfProviderGasPriceCeil == 0 {
          tasks[i] := tasks[i].(selfProviderGasPriceCeil := Providers.NO_CEIL);
        }
        assert tasks[..i + 1] == done + [tasks[i]];
        ThenAssociates(Ok(done), Ok([tasks[i]]), Core.SelfProviderGasDefaults(Settings(), was[i + 1..]));
        OneMore(done, tasks[i]);
      }
      ThenNothing(Ok(tasks[..]));
      assert tasks[..tasks.Length] == tasks[..];
      return Ok(());
    }

    method WithDefaults(sender: Address, provider: Provider, tasks: seq<Task>) returns (r: Outcome<seq<Task>>)
      ensures r == Core.Defaulted(Settings(), sender, provider, tasks)
    {
      if sender != provider.addr { return Ok(tasks); }
      var memory := new Task[|tasks|](i requires 0 <= i < |tasks| => tasks[i]);
      assert memory[..] == tasks;
      var _ :- HandleSelfProviderGasDefaults(memory);
      return Ok(memory[..]);
    }

    method StoreTaskReceipt(newCycle: bool, userProxy: Address, provider: Provider, index: nat,
                            tasks: seq<Task>, expiryDate: uint256, cycleId: nat, submissionsLeft: uint256)
      modifies this
      ensures View() == Core.StoreTaskReceipt(old(View()), newCycle, userProxy, provider, index, tasks, expiryDate, cycleId, submissionsLeft)
    {
      var nextTaskReceiptId := currentTaskReceiptId + 1;
      currentTaskReceiptId := nextTaskReceiptId;
      var taskReceipt := TaskReceipt(nextTaskReceiptId, userProxy, provider, index, tasks, expiryDate,
                                     if newCycle then nextTaskReceiptId else cycleId, submissionsLeft);
      taskReceiptHash := taskReceiptHash[taskReceipt.id := taskReceipt];
      logs := logs.(submitted := logs.submitted + [taskReceipt]);
    }

    method SubmitTask(sender: Address, provider: Provider, task: Task, expiryDate: uint256) returns (r: Outcome<()>)
      modifies this
      ensures Agrees(r, Core.SubmitTask(old(View()), sender, provider, task, expiryDate))
    {
      var singleTask :- WithDefaults(sender, provider, [task]);
      StoreTaskReceipt(false, sender, provider, 0, singleTask, expiryDate, 0, 1);
      return Ok(());
    }

    method SubmitTaskCycle(sender: Address, provider: Provider, tasks: seq<Task>, expiryDate: uint256, cycles: uint256)
      returns (r: Outcome<()>)
      modifies this
      ensures Agrees(r, Core.SubmitTaskCycle(old(View()), sender, provider, tasks, expiryDate, cycles))
    {
      var tasks' :- WithDefaults(sender, provider, tasks);
      StoreTaskReceipt(true, sender, provider, 0, tasks', expiryDate, 0, Wrap(cycles * |tasks|));
      return Ok(());
    }

    method SubmitTaskChain(sender: Address, provider: Provider, tasks: seq<Task>, expiryDate: uint256, submits: uint256)
      returns (r: Outcome<()>)
      modifies this
      ensures Agrees(r, Core.SubmitTaskChain(old(View()), sender, provider, tasks, expiryDate, submits))
    {
      if submits != 0 {
        if submits < |tasks| { return Revert(LessRequestedSubmitsThanTasks); }
      }
      var tasks' :- WithDefaults(sender, provider, tasks);
      StoreTaskReceipt(true, sender, provider, 0, tasks', expiryDate, 0, submits);
      return Ok(());
    }

    // ----- GelatoCore: validation -----

    method CheckConditions(task: Task, views: Core.Views) returns (v: Outcome<Core.Verdict>)
      ensures v == Core.CheckConditions(task, views, 0)
    {
      for i := 0 to |task.conditions|
        invariant Core.CheckConditions(task, views, 0) == Core.CheckConditions(task, views, i)
      {
        match views.conditionOk(i) {
          case Answered(ok) => if !ok { return Ok(Core.ConditionNotOk(i)); }
          case Failed => return Ok(Core.ConditionReverted(i));
          case Aborts => return Revert(ViewAborted);
        }
      }
      return Ok(Core.OK);
    }

    method CheckTerms(task: Task, views: Core.Views) returns (v: Outcome<Core.Verdict>)
      ensures v == Core.CheckTerms(task, views, 0)
    {
      for i := 0 to |task.actions|
        invariant Core.CheckTerms(task, views, 0) == Core.CheckTerms(task, views, i)
      {
        if !task.actions[i].termsOkCheck { continue; }
        match views.termsOk(i) {
          case Answered(ok) => if !ok { return Ok(Core.ActionTermsNotOk(i)); }
          case Failed => return Ok(Core.ActionTermsReverted(i));
          case Aborts => return Revert(ViewAborted);
        }
      }
      return Ok(Core.OK);
    }

    method CanExec(caller: Option<Address>, r: TaskReceipt, gasLimit: uint256, gasPrice: uint256, now: uint256, views: Core.Views)
      returns (v: Outcome<Core.Verdict>)
      ensures v == Core.CanExec(View(), caller, r, gasLimit, gasPrice, now, views)
    {
      var provider := r.provider.addr;
      if !IsExecutorMinStaked(ExecutorOf(provider)) { return Ok(Core.ExecutorNotMinStakedVerdict); }
      if !Providers.IsProviderLiquid(View(), provider, gasLimit, gasPrice) { return Ok(Core.ProviderIlliquidity); }
      if !r.HasTask() { return Revert(InvalidIndex); }
      var res :- Core.ProviderCanExec(View(), r.userProxy, r.provider, r.CurrentTask(), gasPrice, views.isProvided);
      if res != Core.OK { return Ok(res); }
      if r.id !in taskReceiptHash || taskReceiptHash[r.id] != r { return Ok(Core.InvalidTaskReceiptHashVerdict); }
      if r.expiryDate != 0 && r.expiryDate <= now { return Ok(Core.TaskReceiptExpired); }
      res :- CheckConditions(r.CurrentTask(), views);
      if res != Core.OK { return Ok(res); }
      res :- CheckTerms(r.CurrentTask(), views);
      if res != Core.OK { return Ok(res); }
      if caller == Option.None { return Ok(Core.OK); }
      if caller == Some(ExecutorOf(provider)) { return Ok(Core.OK); }
      return Ok(Core.InvalidExecutorVerdict);
    }

    // ----- GelatoCore: execution -----

    method Pay(sender: Address, provider: Address, toExecutor: uint256, toSysAdmin: uint256) returns (r: Outcome<()>)
      modifies this
      ensures Agrees(r, Core.Pay(old(View()), provider, sender, toExecutor, toSysAdmin))
    {
      hide Wrap, GelatoCore.Settings, GelatoCore.Assigned, GelatoCore.Listed, GelatoCore.Receipts;
      var total :- SafeAdd(toExecutor, toSysAdmin);
      if Get(providerFunds, provider) < total { return Revert(ProviderFundsUnderflow); }
      providerFunds := providerFunds[provider := Get(providerFunds, provider) - total];
      executorStake := executorStake[sender := Wrap(Get(executorStake, sender) + toExecutor)];
      sysAdminFunds := Wrap(sysAdminFunds + toSysAdmin);
      return Ok(());
    }

    method ProcessProviderPayables(sender: Address, provider: Address, pay: Core.ExecutorPay, gasUsed: Gas,
                                   gasLimit: uint256, gasPrice: uint256) returns (r: Outcome<()>)
      modifies this
      ensures Agrees(r, Core.ProcessProviderPayables(old(View()), sender, provider, pay, gasUsed, gasLimit, gasPrice))
    {
      hide Core.Pay;
      var cappedGasUsed := Core.CappedGasUsed(gasUsed, gasLimit);
      if pay == Core.Reward {
        var executorCompensation :- SysAdmin.ExecutorSuccessFee(Settings(), cappedGasUsed, gasPrice);
        var sysAdminCompensation :- SysAdmin.SysAdminSuccessFee(Settings(), cappedGasUsed, gasPrice);
        r := Pay(sender, provider, executorCompensation, sysAdminCompensation);
      } else {
        var executorRefund :- SafeMul(cappedGasUsed, gasPrice);
        r := Pay(sender, provider, executorRefund, 0);
      }
    }

    method ExecTask(r: TaskReceipt, env: Core.ExecEnv) returns (done: Outcome<()>)
      requires r.HasTask()
      modifies this
      ensures Agrees(done, Core.ExecTask(old(View()), r, env))
      decreases env, 1
    {
      if env.payload.PayloadReverted? { return Revert(ExecPayloadReverted); }
      taskReceiptHash := taskReceiptHash - {r.id};
      RunAll(env.proxyCall.nested);
      if !env.proxyCall.accepted { return Revert(ProxyCallReverted); }
      if env.payload.proxyReturndataCheck && !env.execRevertCheckOk { return Revert(ExecRevertCheckReverted); }
      if r.submissionsLeft != 1 {
        StoreTaskReceipt(false, r.userProxy, r.provider, r.NextIndex(), r.tasks, r.expiryDate, r.cycleId,
                         if r.submissionsLeft == 0 then 0 else r.submissionsLeft - 1);
      }
      return Ok(());
    }

    /** OK stands for a successful execution, any other verdict for a failed canExec. */
    method ExecutionWrapper(r: TaskReceipt, gasLimit: uint256, gasPrice: uint256, env: Core.ExecEnv) returns (w: Outcome<Core.Verdict>)
      modifies this
      ensures match Core.ExecutionWrapper(old(View()), r, gasLimit, gasPrice, env)
              case Ok(ExecSuccess(t)) => w == Ok(Core.OK) && View() == t
              case Ok(CanExecFailed(v)) => w == Ok(v) && v != Core.OK && View() == old(View())
              case Revert(error) => w == Revert(error)
      decreases env, 2
    {
      hide Core.CanExec, Core.ExecTask;
      if env.outOfGas { return Revert(OutOfGas); }
      var verdict :- CanExec(Option.None, r, gasLimit, gasPrice, env.now, env.views);
      if verdict != Core.OK { return Ok(verdict); }
      if !r.HasTask() { return Revert(InvalidIndex); }
      var _ :- ExecTask(r, env);
      return Ok(Core.OK);
    }

    method DropTaskReceipt(id: nat)
      modifies this
      ensures View() == Core.DropTaskReceipt(old(View()), id)
    {
      logs := logs.(dropped := logs.dropped + if id in taskReceiptHash then [id] else []);
      taskReceiptHash := taskReceiptHash - {id};
    }

    method Exec(sender: Address, r: TaskReceipt, env: Core.ExecEnv) returns (done: Outcome<()>)
      requires env.Plausible()
      modifies this
      ensures Agrees(done, Core.Exec(old(View()), sender, r, env))
      decreases env, 3
    {
      hide Core.ExecutionWrapper, Core.ProcessProviderPayables;
      var gasPrice :- Core.OraclePrice(env);
      if sender != ExecutorOf(r.provider.addr) { return Revert(InvalidExecutor); }
      var gasLimit :- Core.GasLimit(View(), r);
      if env.gasLeft < internalGasRequirement { return Revert(InsufficientGas); }
      var before := View();
      var result := ExecutionWrapper(r, gasLimit, gasPrice, env);
      if result == Ok(Core.OK) {
        var _ :- ProcessProviderPayables(sender, r.provider.addr, Core.Reward, env.gasUsed, gasLimit, gasPrice);
        logs := logs.(executed := logs.executed + [r.id]);
      } else if result.Revert? {
        RollBack(before);
        if env.startGas >= gasLimit {
          DropTaskReceipt(r.id);
          var _ :- ProcessProviderPayables(sender, r.provider.addr, Core.Refund, env.gasUsed, gasLimit, gasPrice);
        }
      }
      return Ok(());
    }

    // ----- GelatoCore: cancellation -----

    method CancelTask(sender: Address, r: TaskReceipt) returns (done: Outcome<()>)
      modifies this
      ensures Agrees(done, Core.CancelTask(old(View()), sender, r))
    {
      if sender != r.userProxy && sender != r.provider.addr { return Revert(CancelSender); }
      if r.id !in taskReceiptHash || taskReceiptHash[r.id] != r { return Revert(InvalidTaskReceiptHash); }
      taskReceiptHash := taskReceiptHash - {r.id};
      logs := logs.(cancelled := logs.cancelled + [r.id]);
      return Ok(());
    }

    method MultiCancelTasks(sender: Address, receipts: seq<TaskReceipt>) returns (done: Outcome<()>)
      modifies this
      ensures Agrees(done, Core.MultiCancelTasks(old(View()), sender, receipts))
    {
      for i := 0 to |receipts|
        invariant Core.MultiCancelTasks(old(View()), sender, receipts) == Core.MultiCancelTasks(View(), sender, receipts[i..])
      {
        assert receipts[i..][0] == receipts[i] && receipts[i..][1..] == receipts[i + 1..];
        var _ :- CancelTask(sender, receipts[i]);
      }
      return Ok(());
    }

    // ----- ether and transactions -----

    method Receive(value: uint256) returns (r: Outcome<()>)
      modifies this
      ensures Agrees(r, Core.Receive(old(View()), value))
    {
      if balance + value >= MODULUS { return Revert(MoreEtherThanExists); }
      balance := balance + value;
      return Ok(());
    }

    method ForceEther(value: uint256) returns (r: Outcome<()>)
      modifies this
      ensures Agrees(r, Core.ForceEther(old(View()), value))
    {
      var _ :- Receive(value);
      forced := forced + value;
      return Ok(());
    }

    method SendValue(amount: uint256, payout: Core.Reply) returns (r: Outcome<()>)
      modifies this
      ensures Agrees(r, Core.SendValue(old(View()), amount, payout))
      decreases payout, 1
    {
      if balance < amount { return Revert(InsufficientBalance); }
      balance := balance - amount;
      RunAll(payout.nested);
      return if payout.accepted then Ok(()) else Revert(UnableToSendValue);
    }

    method ApplyLocal(sender: Address, call: Core.Call) returns (r: Outcome<()>)
      requires Core.IsLocal(call)
      modifies this
      ensures Agrees(r, Core.ApplyLocal(old(View()), sender, call))
    {
      hide GelatoCore.View, SysAdmin.SetGelatoMaxGas, SysAdmin.SetInternalGasRequirement, SysAdmin.SetMinExecutorStake,
           SysAdmin.SetExecutorSuccessShare, SysAdmin.SetSysAdminSuccessShare,
           Providers.ProvideFunds, Providers.ProviderAssignsExecutor, Providers.ExecutorAssignsExecutor,
           Providers.ProvideTaskSpecs, Providers.UnprovideTaskSpecs, Providers.SetTaskSpecGasPriceCeil,
           Providers.AddProviderModules, Providers.RemoveProviderModules, Providers.MultiProvide,
           Executors.StakeExecutor, Executors.MultiReassignProviders,
           Core.Receive, Core.SubmitTask, Core.SubmitTaskCycle, Core.SubmitTaskChain, Core.CancelTask, Core.MultiCancelTasks, Core.ForceEther;
      match call
      case StakeExecutorCall(value) =>
        var _ :- Receive(value);
        r := StakeExecutor(sender, value);
      case MultiReassignProvidersCall(providers, newExecutor) => r := MultiReassignProviders(sender, providers, newExecutor);
      case ProvideFundsCall(provider, value) =>
        var _ :- Receive(value);
        r := ProvideFunds(provider, value);
      case ProviderAssignsExecutorCall(newExecutor) => r := ProviderAssignsExecutor(sender, newExecutor);
      case ExecutorAssignsExecutorCall(provider, newExecutor) => r := ExecutorAssignsExecutor(sender, provider, newExecutor);
      case ProvideTaskSpecsCall(specs) => r := ProvideTaskSpecs(sender, specs);
      case UnprovideTaskSpecsCall(specs) => r := UnprovideTaskSpecs(sender, specs);
      case SetTaskSpecGasPriceCeilCall(hash, ceil) => r := SetTaskSpecGasPriceCeil(sender, hash, ceil);
      case AddProviderModulesCall(modules) => r := AddProviderModules(sender, modules);
      case RemoveProviderModulesCall(modules) => r := RemoveProviderModules(sender, modules);
      case MultiProvideCall(value, executor, specs, modules) =>
        var _ :- Receive(value);
        r := MultiProvide(sender, value, executor, specs, modules);
      case SetGelatoMaxGasCall(param) => r := SetGelatoMaxGas(sender, param);
      case SetInternalGasRequirementCall(param) => r := SetInternalGasRequirement(sender, param);
      case SetMinExecutorStakeCall(param) => r := SetMinExecutorStake(sender, param);
      case SetExecutorSuccessShareCall(param) => r := SetExecutorSuccessShare(sender, param);
      case SetSysAdminSuccessShareCall(param) => r := SetSysAdminSuccessShare(sender, param);
      case SubmitTaskCall(provider, task, expiryDate) => r := SubmitTask(sender, provider, task, expiryDate);
      case SubmitTaskCycleCall(provider, tasks, expiryDate, cycles) => r := SubmitTaskCycle(sender, provider, tasks, expiryDate, cycles);
      case SubmitTaskChainCall(provider, tasks, expiryDate, submits) => r := SubmitTaskChain(sender, provider, tasks, expiryDate, submits);
      case CancelTaskCall(receipt) => r := CancelTask(sender, receipt);
      case MultiCancelTasksCall(receipts) => r := MultiCancelTasks(sender, receipts);
      case ForcedEtherCall(value) => r := ForceEther(value);
    }

    method Apply(tx: Core.Tx) returns (r: Outcome<()>)
      modifies this
      ensures Agrees(r, Core.Apply(old(View()), tx))
      decreases tx, 0
    {
      hide GelatoCore.View, Core.ApplyLocal, Core.SendValue, Core.Exec, Core.MultiUnprovide, Executors.UnstakeExecutor,
           Executors.WithdrawExcessExecutorStake, Providers.UnprovideFunds, SysAdmin.WithdrawSysAdminFunds;
      var sender := tx.sender;
      if sender == ZERO_ADDRESS { return Revert(NoSuchSender); }
      match tx.call
      case UnstakeExecutorCall(payout) => r := UnstakeExecutor(sender, payout);
      case WithdrawExcessExecutorStakeCall(amount, payout) => r := WithdrawExcessExecutorStake(sender, amount, payout);
      case UnprovideFundsCall(amount, payout) => r := UnprovideFunds(sender, amount, payout);
      case MultiUnprovideCall(amount, specs, modules, payout) => r := MultiUnprovide(sender, amount, specs, modules, payout);
      case WithdrawSysAdminFundsCall(amount, payout) => r := WithdrawSysAdminFunds(sender, amount, payout);
      case ExecCall(receipt, env) =>
        if !env.Plausible() { return Revert(OutOfGas); }
        r := Exec(sender, receipt, env);
      case _ => r := ApplyLocal(sender, tx.call);
    }

    /** One transaction: it goes through as a whole or leaves no trace. */
    method Transact(tx: Core.Tx)
      modifies this
      ensures View() == Core.Step(old(View()), tx)
      decreases tx, 1
    {
      hide Core.Apply, GelatoCore.View;
      var before := View();
      var r := Apply(tx);
      if r.Revert? {
        RollBack(before);
      }
    }

    method RunAll(txs: seq<Core.Tx>)
      modifies this
      ensures View() == Core.RunAll(old(View()), txs)
      decreases txs, 0
    {
      hide Core.Step, GelatoCore.View;
      for i := 0 to |txs|
        invariant Core.RunAll(old(View()), txs) == Core.RunAll(View(), txs[i..])
      {
        assert txs[i..][0] == txs[i] && txs[i..][1..] == txs[i + 1..];
        Transact(txs[i]);
      }
    }

    /** The contract keeps all its invariants whatever is sent to it. */
    method Process(txs: seq<Core.Tx>)
      requires Invariants.Inv(View())
      modifies this
      ensures View() == Core.RunAll(old(View()), txs)
      ensures Invariants.Inv(View())
      ensures balance == Sum(providerFunds) + Sum(executorStake) + sysAdminFunds + forced
    {
      Reachability.RunAllKeeps(View(), txs);
      RunAll(txs);
    }
  }
}
