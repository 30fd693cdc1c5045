/** GelatoCore: submission, validation, execution and cancellation of tasks, and the
    transactions anyone can send. Calls out of the contract hand control to code that may
    call back in, so a transaction carries the transactions that such a call performs. */
module Core {
  import opened Evm
  import opened GelatoTypes
  import opened GelatoState
  import opened SysAdmin
  import opened Providers
  import opened Executors
  import ModuleSet

  // ----- transactions -----

  /** What a call from GelatoCore into foreign code does before it returns: transactions
      back into GelatoCore, each succeeding or reverting by itself, and then whether the
      call succeeds. */
  datatype Reply = Reply(nested: seq<Tx>, accepted: bool)

  /** The answer of a read-only call into a module, a condition or an action. A target without
      code, or data that is no string, aborts the calling frame past its catch clauses. */
  datatype Answer = Answered(startsWithOK: bool) | Failed | Aborts

  /** What the foreign contracts consulted by canExec answer. */
  datatype Views = Views(isProvided: Answer, conditionOk: nat -> Answer, termsOk: nat -> Answer)

  /** The provider module's execPayload: reverted, or a payload with the flag that asks for
      execRevertCheck. */
  datatype Payload = PayloadReverted | PayloadReady(proxyReturndataCheck: bool)

  /** Everything exec learns from outside: the oracle's answer, gas readings, the block
      time, the views, and how the call of the user proxy goes. `outOfGas` says that the
      frame of executionWrapper is aborted without an error message. */
  datatype ExecEnv = ExecEnv(
    oracle: Option<int>,
    startGas: Gas,
    gasLeft: Gas,
    gasUsed: Gas,
    now: uint256,
    views: Views,
    outOfGas: bool,
    payload: Payload,
    proxyCall: Reply,
    execRevertCheckOk: bool)
  {
    predicate Plausible() {
      && gasLeft <= startGas
      && gasUsed <= startGas
      && (oracle.Some? ==> oracle.value < MODULUS)
    }
  }

  datatype Call =
    | StakeExecutorCall(value: uint256)
    | UnstakeExecutorCall(payout: Reply)
    | WithdrawExcessExecutorStakeCall(amount: uint256, payout: Reply)
    | MultiReassignProvidersCall(providers: seq<Address>, newExecutor: Address)
    | ProvideFundsCall(provider: Address, value: uint256)
    | UnprovideFundsCall(amount: uint256, payout: Reply)
    | ProviderAssignsExecutorCall(newExecutor: Address)
    | ExecutorAssignsExecutorCall(provider: Address, newExecutor: Address)
    | ProvideTaskSpecsCall(specs: seq<TaskSpec>)
    | UnprovideTaskSpecsCall(specs: seq<TaskSpec>)
    | SetTaskSpecGasPriceCeilCall(hash: SpecHash, ceil: uint256)
    | AddProviderModulesCall(modules: seq<Address>)
    | RemoveProviderModulesCall(modules: seq<Address>)
    | MultiProvideCall(value: uint256, executor: Address, specs: seq<TaskSpec>, modules: seq<Address>)
    | MultiUnprovideCall(amount: uint256, specs: seq<TaskSpec>, modules: seq<Address>, payout: Reply)
    | SetGelatoMaxGasCall(param: uint256)
    | SetInternalGasRequirementCall(param: uint256)
    | SetMinExecutorStakeCall(param: uint256)
    | SetExecutorSuccessShareCall(param: uint256)
    | SetSysAdminSuccessShareCall(param: uint256)
    | WithdrawSysAdminFundsCall(amount: uint256, payout: Reply)
    | SubmitTaskCall(gelatoProvider: Provider, task: Task, expiryDate: uint256)
    | SubmitTaskCycleCall(gelatoProvider: Provider, tasks: seq<Task>, expiryDate: uint256, cycles: uint256)
    | SubmitTaskChainCall(gelatoProvider: Provider, tasks: seq<Task>, expiryDate: uint256, submits: uint256)
    | CancelTaskCall(receipt: TaskReceipt)
    | MultiCancelTasksCall(receipts: seq<TaskReceipt>)
    | ExecCall(receipt: TaskReceipt, env: ExecEnv)
    | ForcedEtherCall(value: uint256)

  datatype Tx = Tx(sender: Address, call: Call)

  // ----- submission -----

  /** Self-providers may leave the gas fields at zero; a limit they do set must cover twice
      the internal requirement. */
  function GasLimitOrDefault(p: Params, limit: uint256): Outcome<uint256> {
    if limit == 0 then Ok(p.gelatoMaxGas)
    else
      var floor :- SafeMul(p.internalGasRequirement, 2);
      if limit < floor then Revert(SelfProviderGasLimitTooLow) else Ok(limit)
  }

  function SelfProviderGasDefaults(p: Params, tasks: seq<Task>): Outcome<seq<Task>> {
    if tasks == [] then Ok([])
    else
      var task := tasks[0];
      var limit :- GasLimitOrDefault(p, task.selfProviderGasLimit);
      var ceil := if task.selfProviderGasPriceCeil == 0 then NO_CEIL else task.selfProviderGasPriceCeil;
      Then(Ok([task.(selfProviderGasLimit := limit, selfProviderGasPriceCeil := ceil)]), SelfProviderGasDefaults(p, tasks[1..]))
  }

  function Defaulted(p: Params, sender: Address, provider: Provider, tasks: seq<Task>): Outcome<seq<Task>> {
    if sender == provider.addr then SelfProviderGasDefaults(p, tasks) else Ok(tasks)
  }

  /** Takes the next id, stores the receipt's hash under it and emits LogTaskSubmitted. */
  function StoreTaskReceipt(s: State, newCycle: bool, userProxy: Address, provider: Provider, index: nat,
                            tasks: seq<Task>, expiryDate: uint256, cycleId: nat, submissionsLeft: uint256): State
  {
    var id := s.book.currentTaskReceiptId + 1;
    var receipt := TaskReceipt(id, userProxy, provider, index, tasks, expiryDate,
                               if newCycle then id else cycleId, submissionsLeft);
    s.(book := Book(id, s.book.taskReceiptHash[id := receipt]),
       logs := s.logs.(submitted := s.logs.submitted + [receipt]))
  }

  function SubmitTask(s: State, sender: Address, provider: Provider, task: Task, expiryDate: uint256): Outcome<State> {
    var tasks :- Defaulted(s.params, sender, provider, [task]);
    Ok(StoreTaskReceipt(s, false, sender, provider, 0, tasks, expiryDate, 0, 1))
  }

  /** The number of submissions is an unchecked product. */
  function SubmitTaskCycle(s: State, sender: Address, provider: Provider, tasks: seq<Task>, expiryDate: uint256,
                           cycles: uint256): Outcome<State>
  {
    var tasks' :- Defaulted(s.params, sender, provider, tasks);
    Ok(StoreTaskReceipt(s, true, sender, provider, 0, tasks', expiryDate, 0, Wrap(cycles * |tasks|)))
  }

  function SubmitTaskChain(s: State, sender: Address, provider: Provider, tasks: seq<Task>, expiryDate: uint256,
                           sumOfRequestedTaskSubmits: uint256): Outcome<State>
  {
    if sumOfRequestedTaskSubmits != 0 && sumOfRequestedTaskSubmits < |tasks| then Revert(LessRequestedSubmitsThanTasks)
    else
      var tasks' :- Defaulted(s.params, sender, provider, tasks);
      Ok(StoreTaskReceipt(s, true, sender, provider, 0, tasks', expiryDate, 0, sumOfRequestedTaskSubmits))
  }

  // ----- validation -----

  datatype Verdict =
    | OK
    | ExecutorNotMinStakedVerdict
    | ProviderIlliquidity
    | SelfProviderGasPriceCeil
    | TaskSpecGasPriceCeilOrNotProvided
    | InvalidProviderModule
    | ModuleChecksFailed
    | InvalidTaskReceiptHashVerdict
    | TaskReceiptExpired
    | ConditionNotOk(index: nat)
    | ConditionReverted(index: nat)
    | ActionTermsNotOk(index: nat)
    | ActionTermsReverted(index: nat)
    | InvalidExecutorVerdict

  function ProviderModuleChecks(s: State, userProxy: Address, provider: Provider, isProvided: Answer): Outcome<Verdict> {
    if !ModuleSet.Contains(s.Modules(provider.addr), provider.providerModule) then Ok(InvalidProviderModule)
    else if userProxy == provider.addr then Ok(OK)
    else match isProvided
      case Aborts => Revert(ViewAborted)
      case Failed => Ok(ModuleChecksFailed)
      case Answered(ok) => Ok(if ok then OK else ModuleChecksFailed)
  }

  function ProviderCanExec(s: State, userProxy: Address, provider: Provider, task: Task, gasPrice: uint256,
                           isProvided: Answer): Outcome<Verdict>
  {
    if userProxy == provider.addr && task.selfProviderGasPriceCeil < gasPrice then Ok(SelfProviderGasPriceCeil)
    else if userProxy != provider.addr
         && s.GasPriceCeil(provider.addr, HashTaskSpec(CastTaskToSpec(task))) < gasPrice then Ok(TaskSpecGasPriceCeilOrNotProvided)
    else ProviderModuleChecks(s, userProxy, provider, isProvided)
  }

  /** The first condition from position `i` on that does not answer OK decides. */
  function CheckConditions(task: Task, views: Views, i: nat): Outcome<Verdict>
    decreases |task.conditions| - i
  {
    if i >= |task.conditions| then Ok(OK)
    else match views.conditionOk(i)
      case Aborts => Revert(ViewAborted)
      case Failed => Ok(ConditionReverted(i))
      case Answered(ok) => if ok then CheckConditions(task, views, i + 1) else Ok(ConditionNotOk(i))
  }

  /** The first action from position `i` on that asks for a terms check and fails it decides. */
  function CheckTerms(task: Task, views: Views, i: nat): Outcome<Verdict>
    decreases |task.actions| - i
  {
    if i >= |task.actions| then Ok(OK)
    else if !task.actions[i].termsOkCheck then CheckTerms(task, views, i + 1)
    else match views.termsOk(i)
      case Aborts => Revert(ViewAborted)
      case Failed => Ok(ActionTermsReverted(i))
      case Answered(ok) => if ok then CheckTerms(task, views, i + 1) else Ok(ActionTermsNotOk(i))
  }

  /** `caller` is None when GelatoCore calls itself. */
  function CanExec(s: State, caller: Option<Address>, r: TaskReceipt, gasLimit: uint256, gasPrice: uint256,
                   now: uint256, views: Views): Outcome<Verdict>
  {
    if !s.IsExecutorMinStaked(s.ExecutorByProvider(r.provider.addr)) then Ok(ExecutorNotMinStakedVerdict)
    else if !IsProviderLiquid(s, r.provider.addr, gasLimit, gasPrice) then Ok(ProviderIlliquidity)
    else if !r.HasTask() then Revert(InvalidIndex)
    else
      var task := r.CurrentTask();
      var provided :- ProviderCanExec(s, r.userProxy, r.provider, task, gasPrice, views.isProvided);
      if provided != OK then Ok(provided)
      else if !s.IsLive(r) then Ok(InvalidTaskReceiptHashVerdict)
      else if r.expiryDate != 0 && r.expiryDate <= now then Ok(TaskReceiptExpired)
      else
        var conditions :- CheckConditions(task, views, 0);
        if conditions != OK then Ok(conditions)
        else
          var terms :- CheckTerms(task, views, 0);
          if terms != OK then Ok(terms)
          else if caller == Option.None || caller == Some(s.ExecutorByProvider(r.provider.addr)) then Ok(OK)
          else Ok(InvalidExecutorVerdict)
  }

  // ----- payment -----

  datatype ExecutorPay = Reward | Refund

  function CappedGasUsed(gasUsed: Gas, gasLimit: uint256): (g: uint256)
    ensures g == Min(gasUsed, gasLimit) + EXEC_TX_OVERHEAD
  {
    if gasUsed < gasLimit then Wrap(gasUsed + EXEC_TX_OVERHEAD) else Wrap(gasLimit + EXEC_TX_OVERHEAD)
  }

  /** Moves the executor's and the system administrator's share out of the provider's funds. */
  function Pay(s: State, provider: Address, executor: Address, toExecutor: uint256, toSysAdmin: uint256): Outcome<State> {
    var total :- SafeAdd(toExecutor, toSysAdmin);
    if s.ProviderFunds(provider) < total then Revert(ProviderFundsUnderflow)
    else
      Ok(s.(money := s.money.(
              providerFunds := s.money.providerFunds[provider := s.ProviderFunds(provider) - total],
              executorStake := s.money.executorStake[executor := Wrap(s.ExecutorStake(executor) + toExecutor)],
              sysAdminFunds := Wrap(s.money.sysAdminFunds + toSysAdmin))))
  }

  function ProcessProviderPayables(s: State, sender: Address, provider: Address, pay: ExecutorPay,
                                   gasUsed: Gas, gasLimit: uint256, gasPrice: uint256): Outcome<State>
  {
    var capped := CappedGasUsed(gasUsed, gasLimit);
    match pay
    case Reward =>
      var executorFee :- ExecutorSuccessFee(s.params, capped, gasPrice);
      var sysAdminFee :- SysAdminSuccessFee(s.params, capped, gasPrice);
      Pay(s, provider, sender, executorFee, sysAdminFee)
    case Refund =>
      var refund :- SafeMul(capped, gasPrice);
      Pay(s, provider, sender, refund, 0)
  }

  // ----- cancellation -----

  function DeleteTaskReceipt(s: State, id: nat): State {
    s.(book := s.book.(taskReceiptHash := s.book.taskReceiptHash - {id}))
  }

  function CancelTask(s: State, sender: Address, r: TaskReceipt): Outcome<State> {
    if sender != r.userProxy && sender != r.provider.addr then Revert(CancelSender)
    else if !s.IsLive(r) then Revert(InvalidTaskReceiptHash)
    else
      var t := DeleteTaskReceipt(s, r.id);
      Ok(t.(logs := t.logs.(cancelled := t.logs.cancelled + [r.id])))
  }

  function MultiCancelTasks(s: State, sender: Address, receipts: seq<TaskReceipt>): (r: Outcome<State>)
    ensures r.Ok? ==> r.value == s.(book := r.value.book, logs := r.value.logs)
    decreases |receipts|
  {
    if receipts == [] then Ok(s)
    else
      var t :- CancelTask(s, sender, receipts[0]);
      MultiCancelTasks(t, sender, receipts[1..])
  }

  // ----- running transactions -----

  /** The ether sent along is in the contract's balance before its code runs. */
  function Receive(s: State, value: uint256): Outcome<State> {
    if s.money.balance + value >= MODULUS then Revert(MoreEtherThanExists)
    else Ok(s.(money := s.money.(balance := s.money.balance + value)))
  }

  /** Ether that arrives without a call of the contract's code. */
  function ForceEther(s: State, value: uint256): Outcome<State> {
    var t :- Receive(s, value);
    Ok(t.(money := t.money.(forced := t.money.forced + value)))
  }

  /** Sends ether out, lets the recipient run, and fails if the recipient fails. */
  function SendValue(s: State, amount: uint256, payout: Reply): Outcome<State>
    decreases payout, 1
  {
    if s.money.balance < amount then Revert(InsufficientBalance)
    else
      var t := RunAll(s.(money := s.money.(balance := s.money.balance - amount)), payout.nested);
      if payout.accepted then Ok(t) else Revert(UnableToSendValue)
  }

  /** `_exec`: the receipt is deleted before the proxy runs, and resubmitted after it
      succeeded unless this was the last submission. */
  function ExecTask(s: State, r: TaskReceipt, env: ExecEnv): Outcome<State>
    requires r.HasTask()
    decreases env, 1
  {
    if env.payload.PayloadReverted? then Revert(ExecPayloadReverted)
    else
      var t := RunAll(DeleteTaskReceipt(s, r.id), env.proxyCall.nested);
      if !env.proxyCall.accepted then Revert(ProxyCallReverted)
      else if env.payload.proxyReturndataCheck && !env.execRevertCheckOk then Revert(ExecRevertCheckReverted)
      else if r.submissionsLeft == 1 then Ok(t)
      else
        var left := if r.submissionsLeft == 0 then 0 else r.submissionsLeft - 1;
        Ok(StoreTaskReceipt(t, false, r.userProxy, r.provider, r.NextIndex(), r.tasks, r.expiryDate, r.cycleId, left))
  }

  datatype ExecutionResult = ExecSuccess(state: State) | CanExecFailed(verdict: Verdict)

  function ExecutionWrapper(s: State, r: TaskReceipt, gasLimit: uint256, gasPrice: uint256, env: ExecEnv): Outcome<ExecutionResult>
    decreases env, 2
  {
    if env.outOfGas then Revert(OutOfGas)
    else
      var verdict :- CanExec(s, Option.None, r, gasLimit, gasPrice, env.now, env.views);
      if verdict != OK then Ok(CanExecFailed(verdict))
      else if !r.HasTask() then Revert(InvalidIndex)
      else
        var t :- ExecTask(s, r, env);
        Ok(ExecSuccess(t))
  }

  /** Non-self-providers are always given gelatoMaxGas. */
  function GasLimit(s: State, r: TaskReceipt): Outcome<uint256> {
    if !r.SelfProvider() then Ok(s.params.gelatoMaxGas)
    else if !r.HasTask() then Revert(InvalidIndex)
    else Ok(r.CurrentTask().selfProviderGasLimit)
  }

  function OraclePrice(env: ExecEnv): Outcome<uint256>
    requires env.Plausible()
  {
    if env.oracle.None? then Revert(OracleFailed)
    else if env.oracle.value <= 0 then Revert(GasPriceZeroOrBelow)
    else Ok(env.oracle.value)
  }

  /** Deletes whatever is stored under an id and notes it if something was. */
  function DropTaskReceipt(s: State, id: nat): State {
    var t := DeleteTaskReceipt(s, id);
    t.(logs := t.logs.(dropped := t.logs.dropped + if id in s.book.taskReceiptHash then [id] else []))
  }

  /** A reverted wrapper rolled back everything it did: the storage is `s` again. The deletion
      looks at the id alone, not at the stored hash. */
  function AfterRevert(s: State, sender: Address, r: TaskReceipt, gasLimit: uint256, gasPrice: uint256, env: ExecEnv): Outcome<State> {
    if env.startGas < gasLimit then Ok(s)
    else
      ProcessProviderPayables(DropTaskReceipt(s, r.id), sender, r.provider.addr, Refund, env.gasUsed, gasLimit, gasPrice)
  }

  function Exec(s: State, sender: Address, r: TaskReceipt, env: ExecEnv): Outcome<State>
    requires env.Plausible()
    decreases env, 3
  {
    var gasPrice :- OraclePrice(env);
    if sender != s.ExecutorByProvider(r.provider.addr) then Revert(InvalidExecutor)
    else
      var gasLimit :- GasLimit(s, r);
      if env.gasLeft < s.params.internalGasRequirement then Revert(InsufficientGas)
      else match ExecutionWrapper(s, r, gasLimit, gasPrice, env)
        case Ok(CanExecFailed(_)) => Ok(s)
        case Ok(ExecSuccess(t)) =>
          var u :- ProcessProviderPayables(t, sender, r.provider.addr, Reward, env.gasUsed, gasLimit, gasPrice);
          Ok(u.(logs := u.logs.(executed := u.logs.executed + [r.id])))
        case Revert(_) => AfterRevert(s, sender, r, gasLimit, gasPrice, env)
  }

  function MultiUnprovide(s: State, sender: Address, amount: uint256, specs: seq<TaskSpec>, modules: seq<Address>,
                          payout: Reply): Outcome<State>
    decreases payout, 2
  {
    var s1 :- if amount != 0 then var (booked, paid) := UnprovideFunds(s, sender, amount); SendValue(booked, paid, payout)
              else Ok(s);
    var s2 :- UnprovideTaskSpecs(s1, sender, specs);
    RemoveProviderModules(s2, sender, modules)
  }

  /** The calls that never leave the contract. */
  function ApplyLocal(s: State, sender: Address, call: Call): Outcome<State> {
    match call
    case StakeExecutorCall(value) => var t :- Receive(s, value); StakeExecutor(t, sender, value)
    case MultiReassignProvidersCall(providers, newExecutor) => MultiReassignProviders(s, sender, providers, newExecutor)
    case ProvideFundsCall(provider, value) => var t :- Receive(s, value); ProvideFunds(t, provider, value)
    case ProviderAssignsExecutorCall(newExecutor) => ProviderAssignsExecutor(s, sender, newExecutor)
    case ExecutorAssignsExecutorCall(provider, newExecutor) => ExecutorAssignsExecutor(s, sender, provider, newExecutor)
    case ProvideTaskSpecsCall(specs) => ProvideTaskSpecs(s, sender, specs)
    case UnprovideTaskSpecsCall(specs) => UnprovideTaskSpecs(s, sender, specs)
    case SetTaskSpecGasPriceCeilCall(hash, ceil) => SetTaskSpecGasPriceCeil(s, sender, hash, ceil)
    case AddProviderModulesCall(modules) => AddProviderModules(s, sender, modules)
    case RemoveProviderModulesCall(modules) => RemoveProviderModules(s, sender, modules)
    case MultiProvideCall(value, executor, specs, modules) =>
      var t :- Receive(s, value);
      MultiProvide(t, sender, value, executor, specs, modules)
    case SetGelatoMaxGasCall(param) => SetGelatoMaxGas(s, sender, param)
    case SetInternalGasRequirementCall(param) => SetInternalGasRequirement(s, sender, param)
    case SetMinExecutorStakeCall(param) => SetMinExecutorStake(s, sender, param)
    case SetExecutorSuccessShareCall(param) => SetExecutorSuccessShare(s, sender, param)
    case SetSysAdminSuccessShareCall(param) => SetSysAdminSuccessShare(s, sender, param)
    case SubmitTaskCall(provider, task, expiryDate) => SubmitTask(s, sender, provider, task, expiryDate)
    case SubmitTaskCycleCall(provider, tasks, expiryDate, cycles) => SubmitTaskCycle(s, sender, provider, tasks, expiryDate, cycles)
    case SubmitTaskChainCall(provider, tasks, expiryDate, submits) => SubmitTaskChain(s, sender, provider, tasks, expiryDate, submits)
    case CancelTaskCall(receipt) => CancelTask(s, sender, receipt)
    case MultiCancelTasksCall(receipts) => MultiCancelTasks(s, sender, receipts)
    case ForcedEtherCall(value) => ForceEther(s, value)
    case _ => Ok(s)
  }

  predicate IsLocal(call: Call) {
    !call.UnstakeExecutorCall? && !call.WithdrawExcessExecutorStakeCall? && !call.UnprovideFundsCall?
    && !call.MultiUnprovideCall? && !call.WithdrawSysAdminFundsCall? && !call.ExecCall?
  }

  /** One call of GelatoCore by `sender`: the storage after it, or a revert. */
  function Apply(s: State, tx: Tx): Outcome<State>
    decreases tx, 0
  {
    var sender := tx.sender;
    if sender == ZERO_ADDRESS then Revert(NoSuchSender)
    else match tx.call
      case UnstakeExecutorCall(payout) =>
        var (t, paid) :- UnstakeExecutor(s, sender);
        SendValue(t, paid, payout)
      case WithdrawExcessExecutorStakeCall(amount, payout) =>
        var (t, paid) :- WithdrawExcessExecutorStake(s, sender, amount);
        SendValue(t, paid, payout)
      case UnprovideFundsCall(amount, payout) =>
        var (t, paid) := UnprovideFunds(s, sender, amount);
        SendValue(t, paid, payout)
      case MultiUnprovideCall(amount, specs, modules, payout) => MultiUnprovide(s, sender, amount, specs, modules, payout)
      case WithdrawSysAdminFundsCall(amount, payout) =>
        var (t, paid) :- WithdrawSysAdminFunds(s, sender, amount);
        SendValue(t, paid, payout)
      case ExecCall(receipt, env) => if env.Plausible() then Exec(s, sender, receipt, env) else Revert(OutOfGas)
      case _ => ApplyLocal(s, sender, tx.call)
  }

  /** A reverted transaction leaves the storage as it was. */
  function Step(s: State, tx: Tx): State
    decreases tx, 1
  {
    match Apply(s, tx)
    case Ok(t) => t
    case Revert(_) => s
  }

  function RunAll(s: State, txs: seq<Tx>): State
    decreases txs, 0
  {
    if txs == [] then s else RunAll(Step(s, txs[0]), txs[1..])
  }
}
