/** Task receipts in their two off-chain forms: objects built by validating constructors, and
    the nested arrays that event logs carry. */
module TaskReceiptCodec {
  import opened Evm
  import opened JavaScript

  // ----- constants of ethers and of the enums -----

  function HexZeros(digits: nat): string {
    "0x" + seq(digits, _ => '0')
  }

  const HASH_ZERO: JS := Str(HexZeros(64))
  const ADDRESS_ZERO: JS := Str(HexZeros(40))
  const ZERO: JS := BigNum(0)
  const CALL: int := 0
  const DELEGATECALL: int := 1
  const NO_DATA_FLOW: JS := Num(0)

  // ----- the classes -----

  /** Also the options objects their constructors take, which have the same members. */
  datatype Condition = Condition(inst: JS, data: JS)

  datatype Action = Action(addr: JS, data: JS, operation: JS, dataFlow: JS, value: JS, termsOkCheck: JS)

  datatype Provider = Provider(addr: JS, providerModule: JS)

  datatype Task = Task(conditions: seq<Condition>, actions: seq<Action>, selfProviderGasLimit: JS, selfProviderGasPriceCeil: JS)

  datatype TaskReceipt = TaskReceipt(
    id: JS,
    userProxy: JS,
    provider: Provider,
    index: JS,
    tasks: seq<Task>,
    expiryDate: JS,
    cycleId: JS,
    submissionsLeft: JS)

  /** An optional array argument. */
  datatype ArrayArg<T> = Falsy | NotAnArray | Elements(elems: seq<T>)

  datatype TaskArgs = TaskArgs(
    conditions: ArrayArg<Condition>,
    actions: ArrayArg<Action>,
    selfProviderGasLimit: JS,
    selfProviderGasPriceCeil: JS)

  datatype TaskReceiptArgs = TaskReceiptArgs(
    id: JS,
    userProxy: JS,
    provider: Option<Provider>,
    index: JS,
    tasks: ArrayArg<Task>,
    expiryDate: JS,
    cycleId: JS,
    submissionsLeft: JS)

  /** utils.bigNumberify: which values it accepts is left to ethers, except that a big
      number is returned as it is. */
  type Bigger = JS -> Option<int>

  ghost predicate KeepsBigNumbers(bigNumberify: Bigger) {
    forall n :: bigNumberify(BigNum(n)) == Some(n)
  }

  // ----- the constructors -----

  function MakeCondition(args: Condition): Condition {
    Condition(Or(args.inst, ADDRESS_ZERO), Or(args.data, HASH_ZERO))
  }

  predicate IsDataFlow(v: JS) {
    v.Num? && 0 <= v.n <= 3
  }

  function MakeAction(args: Action): Attempt<Action> {
    if !Truthy(args.addr) then Thrown(ActionNoAddr)
    else if args.operation.Undefined? then Thrown(ActionNoOperation)
    else if !Is(args.operation, CALL) && !Is(args.operation, DELEGATECALL) then Thrown(ActionWrongOperation)
    else if Is(args.operation, DELEGATECALL) && Truthy(args.value) && ToString(args.value) != "0" then Thrown(ActionDelegatecallValue)
    else if Truthy(args.dataFlow) && !IsDataFlow(args.dataFlow) then Thrown(ActionInvalidDataFlow)
    else if !args.termsOkCheck.Undefined? && !args.termsOkCheck.Bool? then Thrown(ActionTermsOkCheck)
    else Done(Action(args.addr, Or(args.data, HASH_ZERO), args.operation, Default(args.dataFlow, NO_DATA_FLOW),
                     Or(args.value, ZERO), Default(args.termsOkCheck, Bool(false))))
  }

  method NewAction(addr: JS, data: JS, operation: JS, dataFlow: JS, value: JS, termsOkCheck: JS) returns (r: Attempt<Action>)
    ensures r == MakeAction(Action(addr, data, operation, dataFlow, value, termsOkCheck))
  {
    hide ToString, IsDataFlow, HexZeros;
    if !Truthy(addr) {
      r := Thrown(ActionNoAddr);
    } else if operation.Undefined? {
      r := Thrown(ActionNoOperation);
    } else if !Is(operation, CALL) && !Is(operation, DELEGATECALL) {
      r := Thrown(ActionWrongOperation);
    } else if Is(operation, DELEGATECALL) && Truthy(value) && ToString(value) != "0" {
      r := Thrown(ActionDelegatecallValue);
    } else if Truthy(dataFlow) && !IsDataFlow(dataFlow) {
      r := Thrown(ActionInvalidDataFlow);
    } else if !termsOkCheck.Undefined? && !termsOkCheck.Bool? {
      r := Thrown(ActionTermsOkCheck);
    } else {
      var data' := if Truthy(data) then data else HASH_ZERO;
      var dataFlow' := if !dataFlow.Undefined? then dataFlow else NO_DATA_FLOW;
      var value' := if Truthy(value) then value else ZERO;
      var termsOkCheck' := if termsOkCheck.Bool? && termsOkCheck.b then termsOkCheck else Bool(false);
      r := Done(Action(addr, data', operation, dataFlow', value', termsOkCheck'));
    }
  }

  function MakeProvider(args: Provider): Attempt<Provider> {
    if !args.addr.Str? then Thrown(ProviderNoAddr) else Done(args)
  }

  function CheckTaskMembers(conditions: ArrayArg<Condition>, actions: ArrayArg<Action>): Attempt<()> {
    if conditions.NotAnArray? then Thrown(TaskConditions)
    else if !actions.Elements? || |actions.elems| == 0 then Thrown(TaskActions)
    else Done(())
  }

  function MakeTask(args: TaskArgs): Attempt<Task> {
    var _ :- CheckTaskMembers(args.conditions, args.actions);
    Done(Task(if args.conditions.Elements? then args.conditions.elems else [], args.actions.elems,
              Or(args.selfProviderGasLimit, Num(0)), Or(args.selfProviderGasPriceCeil, Num(0))))
  }

  function CheckTasks(tasks: seq<Task>): Attempt<()> {
    if tasks == [] then Done(())
    else
      var _ :- CheckTaskMembers(Elements(tasks[0].conditions), Elements(tasks[0].actions));
      CheckTasks(tasks[1..])
  }

  /** `v !== undefined ? bigNumberify(v) : Zero`. */
  function Number(v: JS, bigNumberify: Bigger): Attempt<JS> {
    if v.Undefined? then Done(ZERO)
    else match bigNumberify(v)
      case Some(n) => Done(BigNum(n))
      case None => Thrown(NotANumber)
  }

  function MakeTaskReceipt(args: TaskReceiptArgs, bigNumberify: Bigger): Attempt<TaskReceipt> {
    if args.userProxy.Undefined? then Thrown(ReceiptNoUserProxy)
    else if args.provider.None? then Thrown(ReceiptNoProvider)
    else if !args.tasks.Elements? then Thrown(ReceiptTasksNoArray)
    else if |args.tasks.elems| == 0 then Thrown(ReceiptTasksEmpty)
    else
      var _ :- CheckTasks(args.tasks.elems);
      var id :- Number(args.id, bigNumberify);
      var index :- Number(args.index, bigNumberify);
      Done(TaskReceipt(id, args.userProxy, args.provider.value, index, args.tasks.elems, Default(args.expiryDate, ZERO),
                       Default(args.cycleId, ZERO), Default(args.submissionsLeft, Num(1))))
  }

  method NewTaskReceipt(args: TaskReceiptArgs, bigNumberify: Bigger) returns (r: Attempt<TaskReceipt>)
    ensures r == MakeTaskReceipt(args, bigNumberify)
  {
    if args.userProxy.Undefined? { return Thrown(ReceiptNoUserProxy); }
    if args.provider.None? { return Thrown(ReceiptNoProvider); }
    if !args.tasks.Elements? { return Thrown(ReceiptTasksNoArray); }
    var tasks := args.tasks.elems;
    if |tasks| == 0 { return Thrown(ReceiptTasksEmpty); }
    for i := 0 to |tasks|
      invariant CheckTasks(tasks) == CheckTasks(tasks[i..])
    {
      var _ :- CheckTaskMembers(Elements(tasks[i].conditions), Elements(tasks[i].actions));
      assert tasks[i..][0] == tasks[i] && tasks[i..][1..] == tasks[i + 1..];
    }
    var id: JS := ZERO;
    if !args.id.Undefined? {
      match bigNumberify(args.id) {
        case Some(n) => id := BigNum(n);
        case None => return Thrown(NotANumber);
      }
    }
    var index: JS := ZERO;
    if !args.index.Undefined? {
      match bigNumberify(args.index) {
        case Some(n) => index := BigNum(n);
        case None => return Thrown(NotANumber);
      }
    }
    return Done(TaskReceipt(id, args.userProxy, args.provider.value, index, tasks,
                            if !args.expiryDate.Undefined? then args.expiryDate else ZERO,
                            if !args.cycleId.Undefined? then args.cycleId else ZERO,
                            if args.submissionsLeft.Undefined? then Num(1) else args.submissionsLeft));
  }

  // ----- objects to arrays -----

  function PrintCondition(c: Condition): JS {
    Arr([c.inst, c.data])
  }

  function PrintConditions(cs: seq<Condition>): (xs: seq<JS>)
    ensures |xs| == |cs|
  {
    if cs == [] then [] else [PrintCondition(cs[0])] + PrintConditions(cs[1..])
  }

  function PrintAction(a: Action): JS {
    Arr([a.addr, a.data, a.operation, a.dataFlow, a.value, a.termsOkCheck])
  }

  function PrintActions(actions: seq<Action>): (xs: seq<JS>)
    ensures |xs| == |actions|
  {
    if actions == [] then [] else [PrintAction(actions[0])] + PrintActions(actions[1..])
  }

  function PrintTask(t: Task): JS {
    Arr([Arr(PrintConditions(t.conditions)), Arr(PrintActions(t.actions)), t.selfProviderGasLimit, t.selfProviderGasPriceCeil])
  }

  function PrintTasks(tasks: seq<Task>): (xs: seq<JS>)
    ensures |xs| == |tasks|
  {
    if tasks == [] then [] else [PrintTask(tasks[0])] + PrintTasks(tasks[1..])
  }

  function PrintReceipt(o: TaskReceipt): JS {
    Arr([o.id, o.userProxy, Arr([o.provider.addr, o.provider.providerModule]), o.index, Arr(PrintTasks(o.tasks)),
         o.expiryDate, o.cycleId, o.submissionsLeft])
  }

  method ConvertToArrayOfConditionArrays(cs: seq<Condition>) returns (conditions: seq<JS>)
    ensures conditions == PrintConditions(cs)
  {
    conditions := [];
    for i := 0 to |cs|
      invariant PrintConditions(cs) == conditions + PrintConditions(cs[i..])
    {
      conditions := conditions + [Arr([cs[i].inst, cs[i].data])];
    }
  }

  method ConvertToArrayOfActionArrays(objs: seq<Action>) returns (actions: seq<JS>)
    ensures actions == PrintActions(objs)
  {
    actions := [];
    for i := 0 to |objs|
      invariant PrintActions(objs) == actions + PrintActions(objs[i..])
    {
      var a := objs[i];
      actions := actions + [Arr([a.addr, a.data, a.operation, a.dataFlow, a.value, a.termsOkCheck])];
    }
  }

  method ConvertToArrayOfTaskArrays(objs: seq<Task>) returns (tasks: seq<JS>)
    ensures tasks == PrintTasks(objs)
  {
    tasks := [];
    for i := 0 to |objs|
      invariant PrintTasks(objs) == tasks + PrintTasks(objs[i..])
    {
      var conditions := ConvertToArrayOfConditionArrays(objs[i].conditions);
      var actions := ConvertToArrayOfActionArrays(objs[i].actions);
      tasks := tasks + [Arr([Arr(conditions), Arr(actions), objs[i].selfProviderGasLimit, objs[i].selfProviderGasPriceCeil])];
    }
  }

  method ConvertTaskReceiptObjToArray(o: TaskReceipt) returns (a: JS)
    ensures a == PrintReceipt(o)
  {
    var tasks := ConvertToArrayOfTaskArrays(o.tasks);
    return Arr([o.id, o.userProxy, Arr([o.provider.addr, o.provider.providerModule]), o.index, Arr(tasks),
                o.expiryDate, o.cycleId, o.submissionsLeft]);
  }

  // ----- arrays to objects -----

  function ParseCondition(x: JS): Attempt<Condition> {
    var inst :- At(x, 0);
    var data := At(x, 1).value;
    Done(MakeCondition(Condition(inst, data)))
  }

  function ParseConditions(xs: seq<JS>): Attempt<seq<Condition>> {
    if xs == [] then Done([])
    else
      var c :- ParseCondition(xs[0]);
      Onto([c], ParseConditions(xs[1..]))
  }

  function ParseAction(x: JS): Attempt<Action> {
    var addr :- At(x, 0);
    var data := At(x, 1).value;
    var operation := At(x, 2).value;
    var dataFlow := At(x, 3).value;
    var value := At(x, 4).value;
    var termsOkCheck := At(x, 5).value;
    MakeAction(Action(addr, data, operation, dataFlow, value, termsOkCheck))
  }

  function ParseActions(xs: seq<JS>): Attempt<seq<Action>> {
    if xs == [] then Done([])
    else
      var a :- ParseAction(xs[0]);
      Onto([a], ParseActions(xs[1..]))
  }

  function ParseTask(x: JS): Attempt<Task> {
    var conditionsLog :- At(x, 0);
    var conditionItems :- Iterate(conditionsLog);
    var conditions :- ParseConditions(conditionItems);
    var actionsLog := At(x, 1).value;
    var actionItems :- Iterate(actionsLog);
    var actions :- ParseActions(actionItems);
    var gasLimit := At(x, 2).value;
    var gasPriceCeil := At(x, 3).value;
    MakeTask(TaskArgs(Elements(conditions), Elements(actions), gasLimit, gasPriceCeil))
  }

  function ParseTasks(xs: seq<JS>): Attempt<seq<Task>> {
    if xs == [] then Done([])
    else
      var t :- ParseTask(xs[0]);
      Onto([t], ParseTasks(xs[1..]))
  }

  function ParseProvider(x: JS): Attempt<Provider> {
    var addr :- At(x, 0);
    var providerModule := At(x, 1).value;
    MakeProvider(Provider(addr, providerModule))
  }

  function ParseReceipt(a: JS, bigNumberify: Bigger): Attempt<TaskReceipt> {
    var tasksLog :- At(a, 4);
    var items :- Iterate(tasksLog);
    var tasks :- ParseTasks(items);
    var id := At(a, 0).value;
    var userProxy := At(a, 1).value;
    var providerLog := At(a, 2).value;
    var provider :- ParseProvider(providerLog);
    var index := At(a, 3).value;
    var expiryDate := At(a, 5).value;
    var cycleId := At(a, 6).value;
    var submissionsLeft := At(a, 7).value;
    MakeTaskReceipt(TaskReceiptArgs(id, userProxy, Some(provider), index, Elements(tasks), expiryDate, cycleId, submissionsLeft), bigNumberify)
  }

  method ConvertToArrayOfConditionObjs(conditionsLog: JS) returns (r: Attempt<seq<Condition>>)
    ensures r == match Iterate(conditionsLog) case Done(items) => ParseConditions(items) case Thrown(e) => Thrown(e)
  {
    var items :- Iterate(conditionsLog);
    var conditions: seq<Condition> := [];
    OntoNothing(conditions, ParseConditions(items));
    for i := 0 to |items|
      invariant ParseConditions(items) == Onto(conditions, ParseConditions(items[i..]))
    {
      assert items[i..][0] == items[i] && items[i..][1..] == items[i + 1..];
      var inst :- At(items[i], 0);
      var data := At(items[i], 1).value;
      var condition := MakeCondition(Condition(inst, data));
      OntoMore(conditions, condition, ParseConditions(items[i + 1..]));
      conditions := conditions + [condition];
    }
    OntoNothing(conditions, Done([]));
    return Done(conditions);
  }

  method ConvertToArrayOfActionObjs(actionsLog: JS) returns (r: Attempt<seq<Action>>)
    ensures r == match Iterate(actionsLog) case Done(items) => ParseActions(items) case Thrown(e) => Thrown(e)
  {
    hide MakeAction;
    var items :- Iterate(actionsLog);
    var actions: seq<Action> := [];
    OntoNothing(actions, ParseActions(items));
    for i := 0 to |items|
      invariant ParseActions(items) == Onto(actions, ParseActions(items[i..]))
    {
      assert items[i..][0] == items[i] && items[i..][1..] == items[i + 1..];
      var addr :- At(items[i], 0);
      var data := At(items[i], 1).value;
      var operation := At(items[i], 2).value;
      var dataFlow := At(items[i], 3).value;
      var value := At(items[i], 4).value;
      var termsOkCheck := At(items[i], 5).value;
      var action :- NewAction(addr, data, operation, dataFlow, value, termsOkCheck);
      OntoMore(actions, action, ParseActions(items[i + 1..]));
      actions := actions + [action];
    }
    OntoNothing(actions, Done([]));
    return Done(actions);
  }

  method ConvertToArrayOfTaskObjs(tasksLog: JS) returns (r: Attempt<seq<Task>>)
    ensures r == match Iterate(tasksLog) case Done(items) => ParseTasks(items) case Thrown(e) => Thrown(e)
  {
    hide MakeTask, ParseConditions, ParseActions, Iterate;
    var items :- Iterate(tasksLog);
    var tasks: seq<Task> := [];
    OntoNothing(tasks, ParseTasks(items));
    for i := 0 to |items|
      invariant ParseTasks(items) == Onto(tasks, ParseTasks(items[i..]))
    {
      assert items[i..][0] == items[i] && items[i..][1..] == items[i + 1..];
      var conditionsLog :- At(items[i], 0);
      var conditions :- ConvertToArrayOfConditionObjs(conditionsLog);
      var actionsLog := At(items[i], 1).value;
      var actions :- ConvertToArrayOfActionObjs(actionsLog);
      var gasLimit := At(items[i], 2).value;
      var gasPriceCeil := At(items[i], 3).value;
      var task :- MakeTask(TaskArgs(Elements(conditions), Elements(actions), gasLimit, gasPriceCeil));
      OntoMore(tasks, task, ParseTasks(items[i + 1..]));
      tasks := tasks + [task];
    }
    OntoNothing(tasks, Done([]));
    return Done(tasks);
  }

  method ConvertTaskReceiptArrayToObj(a: JS, bigNumberify: Bigger) returns (r: Attempt<TaskReceipt>)
    ensures r == ParseReceipt(a, bigNumberify)
  {
    hide ParseTasks, MakeTaskReceipt, ParseProvider, Iterate;
    var tasksLog :- At(a, 4);
    var tasks :- ConvertToArrayOfTaskObjs(tasksLog);
    var id := At(a, 0).value;
    var userProxy := At(a, 1).value;
    var providerLog := At(a, 2).value;
    var provider :- ParseProvider(providerLog);
    var index := At(a, 3).value;
    var expiryDate := At(a, 5).value;
    var cycleId := At(a, 6).value;
    var submissionsLeft := At(a, 7).value;
    r := NewTaskReceipt(TaskReceiptArgs(id, userProxy, Some(provider), index, Elements(tasks), expiryDate, cycleId, submissionsLeft), bigNumberify);
  }

  // ----- what the constructors build -----

  ghost predicate BuiltCondition(c: Condition) {
    exists args :: MakeCondition(args) == c
  }

  ghost predicate BuiltAction(a: Action) {
    exists args :: MakeAction(args) == Done(a)
  }

  ghost predicate BuiltTask(t: Task) {
    && (exists args :: MakeTask(args) == Done(t))
    && (forall c :: c in t.conditions ==> BuiltCondition(c))
    && (forall a :: a in t.actions ==> BuiltAction(a))
  }

  ghost predicate BuiltReceipt(o: TaskReceipt, bigNumberify: Bigger) {
    && (exists args :: MakeTaskReceipt(args, bigNumberify) == Done(o))
    && MakeProvider(o.provider).Done?
    && (forall t :: t in o.tasks ==> BuiltTask(t))
  }

  /** A prefix 0x and nothing but zeros: 32 bytes for a hash, 20 for an address. */
  lemma ZerosAreSpelled(k: nat)
    requires k < 66
    ensures HASH_ZERO.Str? && |HASH_ZERO.s| == 66 && HASH_ZERO.s[k] == if k == 1 then 'x' else '0'
    ensures ADDRESS_ZERO.Str? && |ADDRESS_ZERO.s| == 42 && (k < 42 ==> ADDRESS_ZERO.s[k] == HASH_ZERO.s[k])
  {
  }

  /** Which actions can be built, why the others cannot, and what the constructor fills in. */
  lemma ActionsAreChecked(args: Action)
    ensures var r, zeroOrOne := MakeAction(args), args.operation == Num(0) || args.operation == Num(1);
            var flow := args.dataFlow;
            && (r == Thrown(ActionNoAddr) <==> !Truthy(args.addr))
            && (r == Thrown(ActionNoOperation) <==> Truthy(args.addr) && args.operation == Undefined)
            && (r == Thrown(ActionWrongOperation) <==> Truthy(args.addr) && args.operation != Undefined && !zeroOrOne)
            && (Truthy(args.addr) && zeroOrOne ==>
                  var sends := args.operation == Num(1) && Truthy(args.value) && ToString(args.value) != "0";
                  var badFlow := Truthy(flow) && !(flow.Num? && 0 <= flow.n <= 3);
                  var badFlag := args.termsOkCheck != Undefined && args.termsOkCheck != Bool(true) && args.termsOkCheck != Bool(false);
                  && (r == Thrown(ActionDelegatecallValue) <==> sends)
                  && (r == Thrown(ActionInvalidDataFlow) <==> !sends && badFlow)
                  && (r == Thrown(ActionTermsOkCheck) <==> !sends && !badFlow && badFlag)
                  && (r.Done? <==> !sends && !badFlow && !badFlag))
            && (r.Done? ==>
                  && r.value.addr == args.addr && r.value.operation == args.operation
                  && r.value.data == (if Truthy(args.data) then args.data else HASH_ZERO)
                  && r.value.dataFlow == (if flow == Undefined then Num(0) else flow)
                  && r.value.value == (if Truthy(args.value) then args.value else BigNum(0))
                  && r.value.termsOkCheck == (if args.termsOkCheck == Undefined then Bool(false) else args.termsOkCheck))
  {
    hide ToString, HexZeros;
  }

  /** The same for tasks, and for providers, whose module is not looked at. */
  lemma TaskPartsAreChecked(args: TaskArgs, provider: Provider)
    ensures MakeProvider(provider) == if provider.addr.Str? then Done(provider) else Thrown(ProviderNoAddr)
    ensures var r := MakeTask(args);
            if args.conditions.NotAnArray? then r == Thrown(TaskConditions)
            else if !args.actions.Elements? || args.actions.elems == [] then r == Thrown(TaskActions)
            else
              && r.Done? && r.value.conditions == (if args.conditions.Falsy? then [] else args.conditions.elems)
              && r.value.actions == args.actions.elems
              && r.value.selfProviderGasLimit == (if Truthy(args.selfProviderGasLimit) then args.selfProviderGasLimit else Num(0))
              && r.value.selfProviderGasPriceCeil == (if Truthy(args.selfProviderGasPriceCeil) then args.selfProviderGasPriceCeil else Num(0))
  {
  }

  lemma {:induction false} TasksAreChecked(tasks: seq<Task>)
    ensures CheckTasks(tasks) == if exists t :: t in tasks && t.actions == [] then Thrown(TaskActions) else Done(())
  {
    if tasks != [] {
      TasksAreChecked(tasks[1..]);
      assert forall t :: t in tasks <==> t == tasks[0] || t in tasks[1..];
    }
  }

  /** The same for receipts. */
  lemma ReceiptsAreChecked(args: TaskReceiptArgs, bigNumberify: Bigger)
    ensures var r := MakeTaskReceipt(args, bigNumberify);
            if args.userProxy == Undefined then r == Thrown(ReceiptNoUserProxy)
            else if args.provider.None? then r == Thrown(ReceiptNoProvider)
            else if !args.tasks.Elements? then r == Thrown(ReceiptTasksNoArray)
            else if args.tasks.elems == [] then r == Thrown(ReceiptTasksEmpty)
            else if exists t :: t in args.tasks.elems && t.actions == [] then r == Thrown(TaskActions)
            else if (args.id != Undefined && bigNumberify(args.id).None?) || (args.index != Undefined && bigNumberify(args.index).None?) then
              r == Thrown(NotANumber)
            else
              && r.Done?
              && r.value.userProxy == args.userProxy && r.value.provider == args.provider.value && r.value.tasks == args.tasks.elems
              && r.value.id == (if args.id == Undefined then BigNum(0) else BigNum(bigNumberify(args.id).value))
              && r.value.index == (if args.index == Undefined then BigNum(0) else BigNum(bigNumberify(args.index).value))
              && r.value.expiryDate == (if args.expiryDate == Undefined then BigNum(0) else args.expiryDate)
              && r.value.cycleId == (if args.cycleId == Undefined then BigNum(0) else args.cycleId)
              && r.value.submissionsLeft == (if args.submissionsLeft == Undefined then Num(1) else args.submissionsLeft)
  {
    hide CheckTasks;
    if args.tasks.Elements? {
      TasksAreChecked(args.tasks.elems);
    }
  }

  /** Rebuilding a built object from its own members gives the same object again. */
  lemma BuiltActionsAreFixed(a: Action)
    ensures BuiltAction(a) <==> MakeAction(a) == Done(a)
  {
    if BuiltAction(a) {
      var args :| MakeAction(args) == Done(a);
      assert ToString(ZERO) == "0";
    }
  }

  lemma BuiltConditionsAreFixed(c: Condition)
    ensures BuiltCondition(c) <==> MakeCondition(c) == c
  {
  }

  // ----- objects to arrays and back -----

  lemma ConditionReadsBack(c: Condition)
    requires BuiltCondition(c)
    ensures ParseCondition(PrintCondition(c)) == Done(c)
  {
    BuiltConditionsAreFixed(c);
  }

  lemma {:induction false} ConditionsReadBack(cs: seq<Condition>)
    requires forall c :: c in cs ==> BuiltCondition(c)
    ensures ParseConditions(PrintConditions(cs)) == Done(cs)
  {
    hide BuiltCondition, ParseCondition, PrintCondition, MakeCondition, At, HexZeros;
    if cs != [] {
      var first, rest := cs[0], cs[1..];
      assert cs == [first] + rest && first in cs && forall x :: x in rest ==> x in cs;
      ConditionReadsBack(first);
      ConditionsReadBack(rest);
      assert PrintConditions(cs) == [PrintCondition(first)] + PrintConditions(rest);
      assert PrintConditions(cs)[1..] == PrintConditions(rest);
    }
  }

  lemma ActionReadsBack(a: Action)
    requires BuiltAction(a)
    ensures ParseAction(PrintAction(a)) == Done(a)
  {
    BuiltActionsAreFixed(a);
  }

  lemma {:induction false} ActionsReadBack(actions: seq<Action>)
    requires forall a :: a in actions ==> BuiltAction(a)
    ensures ParseActions(PrintActions(actions)) == Done(actions)
  {
    hide BuiltAction, ParseAction, PrintAction, MakeAction, At, HexZeros;
    if actions != [] {
      var first, rest := actions[0], actions[1..];
      assert actions == [first] + rest && first in actions && forall x :: x in rest ==> x in actions;
      ActionReadsBack(first);
      ActionsReadBack(rest);
      assert PrintActions(actions) == [PrintAction(first)] + PrintActions(rest);
      assert PrintActions(actions)[1..] == PrintActions(rest);
    }
  }

  lemma BuiltTasksAreFixed(t: Task)
    requires BuiltTask(t)
    ensures MakeTask(TaskArgs(Elements(t.conditions), Elements(t.actions), t.selfProviderGasLimit, t.selfProviderGasPriceCeil)) == Done(t)
  {
    hide BuiltCondition, BuiltAction;
    var args :| MakeTask(args) == Done(t);
  }

  lemma PrintedTaskFields(t: Task)
    ensures var x := PrintTask(t);
            && At(x, 0) == Done(Arr(PrintConditions(t.conditions))) && At(x, 1) == Done(Arr(PrintActions(t.actions)))
            && At(x, 2) == Done(t.selfProviderGasLimit) && At(x, 3) == Done(t.selfProviderGasPriceCeil)
  {
    hide PrintConditions, PrintActions;
  }

  lemma TaskReadsBack(t: Task)
    requires BuiltTask(t)
    ensures ParseTask(PrintTask(t)) == Done(t)
  {
    ConditionsReadBack(t.conditions);
    ActionsReadBack(t.actions);
    BuiltTasksAreFixed(t);
    PrintedTaskFields(t);
    hide At, PrintTask, ParseConditions, ParseActions, PrintConditions, PrintActions, BuiltCondition, BuiltAction, MakeTask;
  }

  lemma {:induction false} TasksReadBack(tasks: seq<Task>)
    requires forall t :: t in tasks ==> BuiltTask(t)
    ensures ParseTasks(PrintTasks(tasks)) == Done(tasks)
  {
    hide BuiltTask, ParseTask, PrintTask;
    if tasks != [] {
      TaskReadsBack(tasks[0]);
      TasksReadBack(tasks[1..]);
      assert PrintTasks(tasks)[1..] == PrintTasks(tasks[1..]);
      assert tasks == [tasks[0]] + tasks[1..];
    }
  }

  lemma BuiltReceiptsAreFixed(o: TaskReceipt, bigNumberify: Bigger)
    requires KeepsBigNumbers(bigNumberify) && BuiltReceipt(o, bigNumberify)
    ensures MakeTaskReceipt(TaskReceiptArgs(o.id, o.userProxy, Some(o.provider), o.index, Elements(o.tasks), o.expiryDate,
                                            o.cycleId, o.submissionsLeft), bigNumberify) == Done(o)
  {
    hide BuiltTask, CheckTasks;
    var args :| MakeTaskReceipt(args, bigNumberify) == Done(o);
  }

  /** Printing a built receipt and reading the array gives the same receipt. */
  lemma ReceiptsReadBack(o: TaskReceipt, bigNumberify: Bigger)
    requires KeepsBigNumbers(bigNumberify) && BuiltReceipt(o, bigNumberify)
    ensures ParseReceipt(PrintReceipt(o), bigNumberify) == Done(o)
  {
    TasksReadBack(o.tasks);
    BuiltReceiptsAreFixed(o, bigNumberify);
    PrintedFields(o);
    hide At, PrintReceipt, ParseProvider, ParseTasks, PrintTasks, BuiltReceipt, MakeTaskReceipt, KeepsBigNumbers;
  }

  lemma PrintedFields(o: TaskReceipt)
    requires MakeProvider(o.provider).Done?
    ensures var a, p := PrintReceipt(o), Arr([o.provider.addr, o.provider.providerModule]);
            && At(a, 0) == Done(o.id) && At(a, 1) == Done(o.userProxy) && At(a, 2) == Done(p) && At(a, 3) == Done(o.index)
            && At(a, 4) == Done(Arr(PrintTasks(o.tasks))) && At(a, 5) == Done(o.expiryDate)
            && At(a, 6) == Done(o.cycleId) && At(a, 7) == Done(o.submissionsLeft)
            && ParseProvider(p) == Done(o.provider)
  {
    hide PrintTasks;
  }

  // ----- arrays to objects and back -----

  function Field(x: JS, k: nat): JS {
    match At(x, k) case Done(v) => v case Thrown(_) => Undefined
  }

  function Items(x: JS): seq<JS> {
    match Iterate(x) case Done(items) => items case Thrown(_) => []
  }

  predicate AcceptableAction(x: JS) {
    && !IsNullish(x) && Truthy(Field(x, 0))
    && (Is(Field(x, 2), CALL) || Is(Field(x, 2), DELEGATECALL))
    && (Is(Field(x, 2), DELEGATECALL) && Truthy(Field(x, 4)) ==> ToString(Field(x, 4)) == "0")
    && (Truthy(Field(x, 3)) ==> IsDataFlow(Field(x, 3)))
    && (Field(x, 5).Undefined? || Field(x, 5).Bool?)
  }

  predicate AcceptableTask(x: JS) {
    && !IsNullish(x) && Iterate(Field(x, 0)).Done? && Iterate(Field(x, 1)).Done?
    && Items(Field(x, 1)) != []
    && (forall c :: c in Items(Field(x, 0)) ==> !IsNullish(c))
    && (forall a :: a in Items(Field(x, 1)) ==> AcceptableAction(a))
  }

  predicate AcceptableReceipt(a: JS, bigNumberify: Bigger) {
    && !IsNullish(a) && Iterate(Field(a, 4)).Done? && Items(Field(a, 4)) != []
    && (forall t :: t in Items(Field(a, 4)) ==> AcceptableTask(t))
    && !Field(a, 1).Undefined?
    && !IsNullish(Field(a, 2)) && Field(Field(a, 2), 0).Str?
    && (!Field(a, 0).Undefined? ==> bigNumberify(Field(a, 0)).Some?)
    && (!Field(a, 3).Undefined? ==> bigNumberify(Field(a, 3)).Some?)
  }

  /** The array with its gaps filled in: missing or falsy data, values and gas fields,
      missing flags and numbers; anything behind the known positions is dropped. */
  function NormalCondition(x: JS): JS {
    Arr([Or(Field(x, 0), ADDRESS_ZERO), Or(Field(x, 1), HASH_ZERO)])
  }

  function NormalAction(x: JS): JS {
    Arr([Field(x, 0), Or(Field(x, 1), HASH_ZERO), Field(x, 2), Default(Field(x, 3), NO_DATA_FLOW),
         Or(Field(x, 4), ZERO), Default(Field(x, 5), Bool(false))])
  }

  function NormalTask(x: JS): JS {
    var cs, actions := Items(Field(x, 0)), Items(Field(x, 1));
    Arr([Arr(seq(|cs|, i requires 0 <= i < |cs| => NormalCondition(cs[i]))),
         Arr(seq(|actions|, i requires 0 <= i < |actions| => NormalAction(actions[i]))),
         Or(Field(x, 2), Num(0)), Or(Field(x, 3), Num(0))])
  }

  function NormalNumber(v: JS, bigNumberify: Bigger): JS {
    match bigNumberify(v) case Some(n) => if v.Undefined? then ZERO else BigNum(n) case None => ZERO
  }

  function NormalReceipt(a: JS, bigNumberify: Bigger): JS {
    var tasks := Items(Field(a, 4));
    Arr([NormalNumber(Field(a, 0), bigNumberify), Field(a, 1), Arr([Field(Field(a, 2), 0), Field(Field(a, 2), 1)]),
         NormalNumber(Field(a, 3), bigNumberify), Arr(seq(|tasks|, i requires 0 <= i < |tasks| => NormalTask(tasks[i]))),
         Default(Field(a, 5), ZERO), Default(Field(a, 6), ZERO), Default(Field(a, 7), Num(1))])
  }

  lemma ParsesCondition(x: JS)
    ensures var r := ParseCondition(x);
            && (r.Done? <==> !IsNullish(x))
            && (r.Done? ==> PrintCondition(r.value) == NormalCondition(x) && BuiltCondition(r.value))
  {
    if !IsNullish(x) {
      assert MakeCondition(Condition(Field(x, 0), Field(x, 1))) == ParseCondition(x).value;
    }
  }

  lemma {:induction false} ParsesConditions(xs: seq<JS>)
    ensures var r := ParseConditions(xs);
            && (r.Done? <==> forall x :: x in xs ==> !IsNullish(x))
            && (r.Done? ==> && PrintConditions(r.value) == seq(|xs|, i requires 0 <= i < |xs| => NormalCondition(xs[i]))
                            && forall c :: c in r.value ==> BuiltCondition(c))
  {
    hide IsNullish, NormalCondition, ParseCondition, PrintCondition, BuiltCondition;
    if xs != [] {
      assert xs == [xs[0]] + xs[1..];
      ParsesCondition(xs[0]);
      ParsesConditions(xs[1..]);
      if ParseCondition(xs[0]).Done? && ParseConditions(xs[1..]).Done? {
        assert ParseConditions(xs).value[1..] == ParseConditions(xs[1..]).value;
      }
    }
  }

  lemma ParsesAction(x: JS)
    ensures var r := ParseAction(x);
            && (r.Done? <==> AcceptableAction(x))
            && (r.Done? ==> PrintAction(r.value) == NormalAction(x) && BuiltAction(r.value))
  {
  }

  lemma {:induction false} ParsesActions(xs: seq<JS>)
    ensures var r := ParseActions(xs);
            && (r.Done? <==> forall x :: x in xs ==> AcceptableAction(x))
            && (r.Done? ==> && PrintActions(r.value) == seq(|xs|, i requires 0 <= i < |xs| => NormalAction(xs[i]))
                            && forall a :: a in r.value ==> BuiltAction(a))
  {
    hide AcceptableAction, NormalAction, ParseAction, PrintAction, BuiltAction;
    if xs != [] {
      assert xs == [xs[0]] + xs[1..];
      ParsesAction(xs[0]);
      ParsesActions(xs[1..]);
      if ParseAction(xs[0]).Done? && ParseActions(xs[1..]).Done? {
        assert ParseActions(xs).value[1..] == ParseActions(xs[1..]).value;
      }
    }
  }

  lemma ParsesTask(x: JS)
    ensures var r := ParseTask(x);
            && (r.Done? <==> AcceptableTask(x))
            && (r.Done? ==> PrintTask(r.value) == NormalTask(x) && BuiltTask(r.value))
  {
    hide AcceptableAction, NormalAction, NormalCondition, ParseConditions, ParseActions, PrintConditions, PrintActions,
         BuiltCondition, BuiltAction;
    ParsesConditions(Items(Field(x, 0)));
    ParsesActions(Items(Field(x, 1)));
  }

  lemma {:induction false} ParsesTasks(xs: seq<JS>)
    ensures var r := ParseTasks(xs);
            && (r.Done? <==> forall x :: x in xs ==> AcceptableTask(x))
            && (r.Done? ==> && PrintTasks(r.value) == seq(|xs|, i requires 0 <= i < |xs| => NormalTask(xs[i]))
                            && forall t :: t in r.value ==> BuiltTask(t))
  {
    hide AcceptableTask, NormalTask, ParseTask, PrintTask, BuiltTask;
    if xs != [] {
      assert xs == [xs[0]] + xs[1..];
      ParsesTask(xs[0]);
      ParsesTasks(xs[1..]);
      if ParseTask(xs[0]).Done? && ParseTasks(xs[1..]).Done? {
        assert ParseTasks(xs).value[1..] == ParseTasks(xs[1..]).value;
      }
    }
  }

  lemma {:induction false} BuiltTasksPass(tasks: seq<Task>)
    requires forall t :: t in tasks ==> BuiltTask(t)
    ensures CheckTasks(tasks).Done?
  {
    if tasks != [] {
      assert BuiltTask(tasks[0]);
      var args :| MakeTask(args) == Done(tasks[0]);
      BuiltTasksPass(tasks[1..]);
    }
  }

  /** Which arrays can be read, exactly, and what comes out when they are printed again: the
      same array with its gaps filled in. */
  lemma ReadingNormalises(a: JS, bigNumberify: Bigger)
    ensures var r := ParseReceipt(a, bigNumberify);
            && (r.Done? <==> AcceptableReceipt(a, bigNumberify))
            && (r.Done? ==> PrintReceipt(r.value) == NormalReceipt(a, bigNumberify) && BuiltReceipt(r.value, bigNumberify))
  {
    hide AcceptableTask, NormalTask, ParseTasks, PrintTasks, BuiltTask, CheckTasks;
    ParsesTasks(Items(Field(a, 4)));
    if ParseTasks(Items(Field(a, 4))).Done? {
      BuiltTasksPass(ParseTasks(Items(Field(a, 4))).value);
    }
  }

  /** Which position of the array each member of the receipt is read from. */
  lemma MembersByPosition(a: JS, bigNumberify: Bigger)
    requires ParseReceipt(a, bigNumberify).Done?
    ensures var o := ParseReceipt(a, bigNumberify).value;
            && o.id == NormalNumber(Field(a, 0), bigNumberify) && o.userProxy == Field(a, 1)
            && o.provider.addr == Field(Field(a, 2), 0) && o.provider.providerModule == Field(Field(a, 2), 1)
            && o.index == NormalNumber(Field(a, 3), bigNumberify)
            && |o.tasks| == |Items(Field(a, 4))|
            && (forall i :: 0 <= i < |o.tasks| ==> PrintTask(o.tasks[i]) == NormalTask(Items(Field(a, 4))[i]))
            && o.expiryDate == Default(Field(a, 5), ZERO) && o.cycleId == Default(Field(a, 6), ZERO)
            && o.submissionsLeft == Default(Field(a, 7), Num(1))
  {
    hide NormalTask, PrintTask, ParseTasks, BuiltTask, CheckTasks;
    var items := Items(Field(a, 4));
    ParsesTasks(items);
    var tasks := ParseTasks(items).value;
    forall i | 0 <= i < |tasks| ensures PrintTask(tasks[i]) == NormalTask(items[i]) {
      PrintedTaskAt(tasks, i);
    }
  }

  /** Which position of the array each member of a condition, an action and a task is read from. */
  lemma PartsByPosition(x: JS)
    ensures ParseCondition(x).Done? ==>
              ParseCondition(x).value == Condition(Or(Field(x, 0), ADDRESS_ZERO), Or(Field(x, 1), HASH_ZERO))
    ensures ParseAction(x).Done? ==>
              ParseAction(x).value == Action(Field(x, 0), Or(Field(x, 1), HASH_ZERO), Field(x, 2), Default(Field(x, 3), NO_DATA_FLOW),
                                             Or(Field(x, 4), ZERO), Default(Field(x, 5), Bool(false)))
    ensures ParseTask(x).Done? ==>
              var t, cs, actions := ParseTask(x).value, Items(Field(x, 0)), Items(Field(x, 1));
              && t.selfProviderGasLimit == Or(Field(x, 2), Num(0)) && t.selfProviderGasPriceCeil == Or(Field(x, 3), Num(0))
              && |t.conditions| == |cs| && (forall i :: 0 <= i < |cs| ==> ParseCondition(cs[i]) == Done(t.conditions[i]))
              && |t.actions| == |actions| && (forall i :: 0 <= i < |actions| ==> ParseAction(actions[i]) == Done(t.actions[i]))
  {
    hide HexZeros, ToString, ParseConditions, ParseActions;
    if ParseTask(x).Done? {
      ConditionsInOrder(Items(Field(x, 0)));
      ActionsInOrder(Items(Field(x, 1)));
      hide ParseCondition, ParseAction;
    }
  }

  lemma {:induction false} ConditionsInOrder(xs: seq<JS>)
    ensures var r := ParseConditions(xs);
            r.Done? ==> |r.value| == |xs| && forall i :: 0 <= i < |xs| ==> ParseCondition(xs[i]) == Done(r.value[i])
  {
    hide ParseCondition;
    if xs != [] {
      ConditionsInOrder(xs[1..]);
    }
  }

  lemma {:induction false} ActionsInOrder(xs: seq<JS>)
    ensures var r := ParseActions(xs);
            r.Done? ==> |r.value| == |xs| && forall i :: 0 <= i < |xs| ==> ParseAction(xs[i]) == Done(r.value[i])
  {
    hide ParseAction;
    if xs != [] {
      ActionsInOrder(xs[1..]);
    }
  }

  lemma {:induction false} PrintedTaskAt(tasks: seq<Task>, i: nat)
    requires i < |tasks|
    ensures PrintTasks(tasks)[i] == PrintTask(tasks[i])
  {
    if i > 0 {
      PrintedTaskAt(tasks[1..], i - 1);
    }
  }

  /** Filling in the gaps twice changes nothing more. */
  lemma NormalisingIsIdempotent(a: JS, bigNumberify: Bigger)
    requires KeepsBigNumbers(bigNumberify) && AcceptableReceipt(a, bigNumberify)
    ensures AcceptableReceipt(NormalReceipt(a, bigNumberify), bigNumberify)
    ensures NormalReceipt(NormalReceipt(a, bigNumberify), bigNumberify) == NormalReceipt(a, bigNumberify)
  {
    hide AcceptableReceipt, NormalReceipt, ParseReceipt, PrintReceipt, BuiltReceipt;
    ReadingNormalises(a, bigNumberify);
    ReceiptsReadBack(ParseReceipt(a, bigNumberify).value, bigNumberify);
    ReadingNormalises(NormalReceipt(a, bigNumberify), bigNumberify);
  }

  /** The arrays that stay as they are are exactly the printed receipts. */
  lemma FixedPointsArePrinted(a: JS, bigNumberify: Bigger)
    requires KeepsBigNumbers(bigNumberify)
    ensures AcceptableReceipt(a, bigNumberify) && NormalReceipt(a, bigNumberify) == a <==>
            exists o :: BuiltReceipt(o, bigNumberify) && PrintReceipt(o) == a
  {
    hide AcceptableReceipt, NormalReceipt, ParseReceipt, PrintReceipt, BuiltReceipt;
    ReadingNormalises(a, bigNumberify);
    if exists o :: BuiltReceipt(o, bigNumberify) && PrintReceipt(o) == a {
      var o :| BuiltReceipt(o, bigNumberify) && PrintReceipt(o) == a;
      ReceiptsReadBack(o, bigNumberify);
    }
  }
}
