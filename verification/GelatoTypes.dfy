/** The structs of IGelatoCore and IGelatoProviders. */
module GelatoTypes {
  import opened Evm
  import opened Bytes

  datatype Provider = Provider(addr: Address, providerModule: Address)

  datatype Condition = Condition(inst: Address, data: bytes)

  datatype Operation = Call | Delegatecall

  datatype DataFlow = None | In | Out | InAndOut

  datatype Action = Action(
    addr: Address,
    data: bytes,
    operation: Operation,
    dataFlow: DataFlow,
    value: uint256,
    termsOkCheck: bool)

  datatype Task = Task(
    conditions: seq<Condition>,
    actions: seq<Action>,
    selfProviderGasLimit: uint256,
    selfProviderGasPriceCeil: uint256)

  datatype TaskReceipt = TaskReceipt(
    id: nat,
    userProxy: Address,
    provider: Provider,
    index: nat,
    tasks: seq<Task>,
    expiryDate: uint256,
    cycleId: nat,
    submissionsLeft: uint256)
  {
    predicate SelfProvider() {
      provider.addr == userProxy
    }

    /** Reading `tasks[index]` past the end makes the EVM abort the call frame. */
    predicate HasTask() {
      index < |tasks|
    }

    function CurrentTask(): Task
      requires HasTask()
    {
      tasks[index]
    }

    function NextIndex(): nat
      requires HasTask()
    {
      if index == |tasks| - 1 then 0 else index + 1
    }
  }

  datatype TaskSpec = TaskSpec(conditions: seq<Address>, actions: seq<Action>, gasPriceCeil: uint256)

  /** What a task-spec hash is computed from: actions lose their data and keep of their
      value only whether it is zero. Keccak is taken to be injective, so the hashed
      structure itself stands for the hash. */
  datatype NoDataAction = NoDataAction(
    addr: Address,
    operation: Operation,
    dataFlow: DataFlow,
    value: bool,
    termsOkCheck: bool)

  datatype SpecHash = SpecHash(conditions: seq<Address>, actions: seq<NoDataAction>)

  function StripAction(a: Action): NoDataAction {
    NoDataAction(a.addr, a.operation, a.dataFlow, a.value != 0, a.termsOkCheck)
  }

  function HashTaskSpec(spec: TaskSpec): SpecHash {
    SpecHash(spec.conditions, seq(|spec.actions|, i requires 0 <= i < |spec.actions| => StripAction(spec.actions[i])))
  }

  function CastTaskToSpec(task: Task): TaskSpec {
    TaskSpec(
      seq(|task.conditions|, i requires 0 <= i < |task.conditions| => task.conditions[i].inst),
      task.actions,
      0)
  }

  /** A task is covered by a whitelisted spec exactly when they agree position by position
      on everything except calldata and the size of a non-zero value. */
  lemma SpecCoversTask(spec: TaskSpec, task: Task)
    ensures HashTaskSpec(CastTaskToSpec(task)) == HashTaskSpec(spec) <==>
            && |spec.conditions| == |task.conditions|
            && |spec.actions| == |task.actions|
            && (forall i :: 0 <= i < |spec.conditions| ==> spec.conditions[i] == task.conditions[i].inst)
            && (forall i :: 0 <= i < |spec.actions| ==>
                  && spec.actions[i].addr == task.actions[i].addr
                  && spec.actions[i].operation == task.actions[i].operation
                  && spec.actions[i].dataFlow == task.actions[i].dataFlow
                  && (spec.actions[i].value == 0 <==> task.actions[i].value == 0)
                  && spec.actions[i].termsOkCheck == task.actions[i].termsOkCheck)
  {
    var h, g := HashTaskSpec(CastTaskToSpec(task)), HashTaskSpec(spec);
    if h == g {
      forall i | 0 <= i < |spec.conditions|
        ensures spec.conditions[i] == task.conditions[i].inst
      {
        assert h.conditions[i] == g.conditions[i];
      }
      assert |h.actions| == |g.actions|;
      forall i | 0 <= i < |spec.actions|
        ensures StripAction(spec.actions[i]) == StripAction(task.actions[i])
      {
        assert h.actions[i] == g.actions[i];
      }
    }
  }
}
