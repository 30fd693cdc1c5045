/** GelatoActionPipeline: runs the actions of a task one after the other and feeds what an
    out-flow action returned to the in-flow actions behind it. */
module ActionPipeline {
  import opened Evm
  import opened Bytes
  import opened GelatoTypes

  predicate TakesIn(a: Action) {
    a.dataFlow.In? || a.dataFlow.InAndOut?
  }

  predicate GivesOut(a: Action) {
    a.dataFlow.Out? || a.dataFlow.InAndOut?
  }

  /** The calldata of an action: its own, or one of the three data-flow entry points. */
  datatype Payload =
    | Plain(data: bytes)
    | WithDataFlowIn(data: bytes, inflow: bytes)
    | WithDataFlowOut(data: bytes)
    | WithDataFlowInAndOut(data: bytes, inflow: bytes)
  {
    function Inflow(): Option<bytes> {
      match this
      case WithDataFlowIn(_, d) => Some(d)
      case WithDataFlowInAndOut(_, d) => Some(d)
      case _ => Option.None
    }
  }

  /** A call sent to an action; a delegatecall sends no value. */
  datatype Sent = Sent(addr: Address, operation: Operation, value: uint256, payload: Payload)

  /** How a call ends. `outflow` is what abi.decode makes of its returndata, None if the
      returndata does not decode. */
  datatype Response = Reverted | Returned(outflow: Option<bytes>)

  function Prepare(a: Action, inflow: bytes): Sent {
    Sent(a.addr, a.operation, if a.operation.Call? then a.value else 0,
         match a.dataFlow
         case In => WithDataFlowIn(a.data, inflow)
         case Out => WithDataFlowOut(a.data)
         case InAndOut => WithDataFlowInAndOut(a.data, inflow)
         case None => Plain(a.data))
  }

  /** The calls sent from action `i` on; `respond(k, s)` is how the k-th one ends. */
  function Pipe(actions: seq<Action>, i: nat, inflow: bytes, respond: (nat, Sent) -> Response): Outcome<seq<Sent>>
    decreases |actions| - i
  {
    if i >= |actions| then Ok([])
    else if actions[i].addr == ZERO_ADDRESS then Revert(NoZeroAddress)
    else
      var sent := Prepare(actions[i], inflow);
      match respond(i, sent)
      case Reverted => Revert(ActionReverted)
      case Returned(outflow) =>
        if !GivesOut(actions[i]) then Then(Ok([sent]), Pipe(actions, i + 1, inflow, respond))
        else if outflow.None? then Revert(ActionReverted)
        else Then(Ok([sent]), Pipe(actions, i + 1, outflow.value, respond))
  }

  method ExecActionsAndPipeData(delegated: bool, actions: seq<Action>, respond: (nat, Sent) -> Response)
    returns (r: Outcome<seq<Sent>>)
    ensures r == if !delegated then Revert(DelegatecallOnly) else Pipe(actions, 0, [], respond)
  {
    hide Then;
    if !delegated { return Revert(DelegatecallOnly); }
    var dataFromLastOutFlowAction: bytes := [];
    var trace: seq<Sent> := [];
    ThenNothing(Pipe(actions, 0, [], respond));
    for i := 0 to |actions|
      invariant Pipe(actions, 0, [], respond) == Then(Ok(trace), Pipe(actions, i, dataFromLastOutFlowAction, respond))
    {
      RevertStops(trace);
      var action := actions[i];
      if action.addr == ZERO_ADDRESS { return Revert(NoZeroAddress); }
      var payload := Plain(action.data);
      if action.dataFlow.In? {
        payload := WithDataFlowIn(action.data, dataFromLastOutFlowAction);
      } else if action.dataFlow.Out? {
        payload := WithDataFlowOut(action.data);
      } else if action.dataFlow.InAndOut? {
        payload := WithDataFlowInAndOut(action.data, dataFromLastOutFlowAction);
      }
      var sent := Sent(action.addr, action.operation, if action.operation.Call? then action.value else 0, payload);
      var response := respond(i, sent);
      if response.Reverted? { return Revert(ActionReverted); }
      if action.dataFlow.Out? || action.dataFlow.InAndOut? {
        if response.outflow.None? { return Revert(ActionReverted); }
        dataFromLastOutFlowAction := response.outflow.value;
      }
      ThenAssociates(Ok(trace), Ok([sent]), Pipe(actions, i + 1, dataFromLastOutFlowAction, respond));
      OneMore(trace, sent);
      trace := trace + [sent];
    }
    ThenNothing(Ok(trace));
    return Ok(trace);
  }

  // ----- where data comes from -----

  /** The last out-flow action before position `k`. */
  function LastOut(actions: seq<Action>, k: nat): (j: Option<nat>)
    requires k <= |actions|
    ensures j.Some? ==> j.value < k && GivesOut(actions[j.value]) && forall m :: j.value < m < k ==> !GivesOut(actions[m])
    ensures j.None? ==> forall m :: 0 <= m < k ==> !GivesOut(actions[m])
  {
    if k == 0 then Option.None
    else if GivesOut(actions[k - 1]) then Some(k - 1)
    else LastOut(actions, k - 1)
  }

  /** What action `j` returned. */
  function Output(respond: (nat, Sent) -> Response, j: nat, sent: Sent): bytes {
    match respond(j, sent)
    case Returned(Some(data)) => data
    case _ => []
  }

  /** What flows into position `k` of a run from position `i` that started with `inflow`. */
  function InflowAt(actions: seq<Action>, trace: seq<Sent>, i: nat, inflow: bytes, respond: (nat, Sent) -> Response, k: nat): bytes
    requires i <= k <= |actions| && |trace| == |actions| - i
  {
    match LastOut(actions, k)
    case Some(j) => if j < i then inflow else Output(respond, j, trace[j - i])
    case None => inflow
  }

  lemma {:induction false} PipedAt(actions: seq<Action>, i: nat, inflow: bytes, respond: (nat, Sent) -> Response, k: nat)
    requires i <= k < |actions| && Pipe(actions, i, inflow, respond).Ok?
    ensures var trace := Pipe(actions, i, inflow, respond).value;
            && |trace| == |actions| - i
            && actions[k].addr != ZERO_ADDRESS
            && trace[k - i] == Prepare(actions[k], InflowAt(actions, trace, i, inflow, respond, k))
            && respond(k, trace[k - i]).Returned?
            && (GivesOut(actions[k]) ==> respond(k, trace[k - i]).outflow.Some?)
    decreases |actions| - i
  {
    var trace := Pipe(actions, i, inflow, respond).value;
    var sent := Prepare(actions[i], inflow);
    var next := if GivesOut(actions[i]) then Output(respond, i, sent) else inflow;
    var rest := Pipe(actions, i + 1, next, respond).value;
    assert trace == [sent] + rest;
    if k == i {
      PipedLength(actions, i + 1, next, respond);
    } else {
      PipedAt(actions, i + 1, next, respond, k);
      assert trace[k - i] == rest[k - (i + 1)];
      assert InflowAt(actions, trace, i, inflow, respond, k) == InflowAt(actions, rest, i + 1, next, respond, k);
    }
  }

  lemma {:induction false} PipedLength(actions: seq<Action>, i: nat, inflow: bytes, respond: (nat, Sent) -> Response)
    requires i <= |actions| && Pipe(actions, i, inflow, respond).Ok?
    ensures |Pipe(actions, i, inflow, respond).value| == |actions| - i
    decreases |actions| - i
  {
    if i < |actions| {
      var sent := Prepare(actions[i], inflow);
      PipedLength(actions, i + 1, if GivesOut(actions[i]) then Output(respond, i, sent) else inflow, respond);
    }
  }

  /** In a run that goes through, every action is called once, in order, through the entry
      point its data flow asks for, and an in-flow action is handed exactly what the last
      out-flow action before it returned. */
  lemma EveryInGetsTheLastOut(actions: seq<Action>, respond: (nat, Sent) -> Response, k: nat)
    requires Pipe(actions, 0, [], respond).Ok? && k < |actions|
    ensures var trace := Pipe(actions, 0, [], respond).value;
            && |trace| == |actions|
            && trace[k].addr == actions[k].addr && trace[k].operation == actions[k].operation
            && trace[k].value == (if actions[k].operation.Delegatecall? then 0 else actions[k].value)
            && trace[k].payload.data == actions[k].data
            && (trace[k].payload.Plain? <==> actions[k].dataFlow.None?)
            && (trace[k].payload.WithDataFlowOut? || trace[k].payload.WithDataFlowInAndOut? <==> GivesOut(actions[k]))
            && (trace[k].payload.Inflow().Some? <==> TakesIn(actions[k]))
            && (TakesIn(actions[k]) ==>
                  match LastOut(actions, k)
                  case Some(j) => respond(j, trace[j]) == Returned(trace[k].payload.Inflow())
                  case None => trace[k].payload.Inflow() == Some([]))
  {
    hide Pipe;
    PipedAt(actions, 0, [], respond, k);
    match LastOut(actions, k)
    case Some(j) => PipedAt(actions, 0, [], respond, j);
    case None =>
  }

  /** What flows into position `k`, going by the calls before it: what the last out-flow action
      returned, or nothing. */
  function Flowing(actions: seq<Action>, respond: (nat, Sent) -> Response, trace: seq<Sent>, k: nat): bytes
    requires k <= |actions| && k <= |trace|
  {
    match LastOut(actions, k)
    case None => []
    case Some(j) =>
      var response := respond(j, trace[j]);
      if response.Returned? && response.outflow.Some? then response.outflow.value else []
  }

  /** `sent` is the call of `a` with its own target, operation and data: a delegatecall sends no
      value, and only an action that takes data in gets the inflow. */
  predicate IsCallOf(a: Action, inflow: bytes, sent: Sent) {
    && sent.addr == a.addr && sent.operation == a.operation
    && sent.value == (if a.operation.Delegatecall? then 0 else a.value)
    && sent.payload.data == a.data
    && (if TakesIn(a) then sent.payload.Inflow() == Some(inflow) else sent.payload.Inflow() == Option.None)
    && (GivesOut(a) <==> sent.payload.WithDataFlowOut? || sent.payload.WithDataFlowInAndOut?)
  }

  /** The calls of `trace` are those of the first actions, and each of them was fine. */
  ghost predicate WentWell(actions: seq<Action>, respond: (nat, Sent) -> Response, trace: seq<Sent>) {
    && |trace| <= |actions|
    && forall k :: 0 <= k < |trace| ==>
         && actions[k].addr != ZERO_ADDRESS && IsCallOf(actions[k], Flowing(actions, respond, trace, k), trace[k])
         && respond(k, trace[k]).Returned? && (GivesOut(actions[k]) ==> respond(k, trace[k]).outflow.Some?)
  }

  lemma OneCall(a: Action, inflow: bytes, sent: Sent)
    ensures IsCallOf(a, inflow, sent) <==> sent == Prepare(a, inflow)
  {
  }

  lemma {:induction false} WentWellSoFar(actions: seq<Action>, respond: (nat, Sent) -> Response, trace: seq<Sent>)
    requires WentWell(actions, respond, trace)
    ensures Pipe(actions, 0, [], respond) ==
            Then(Ok(trace), Pipe(actions, |trace|, Flowing(actions, respond, trace, |trace|), respond))
    decreases |trace|
  {
    if trace == [] {
      ThenNothing(Pipe(actions, 0, [], respond));
    } else {
      var k := |trace| - 1;
      var init, sent := trace[..k], trace[k];
      FlowsOn(actions, respond, trace);
      var inflow, outflow := Flowing(actions, respond, trace, k), Flowing(actions, respond, trace, k + 1);
      assert Pipe(actions, k, inflow, respond) == Then(Ok([sent]), Pipe(actions, k + 1, outflow, respond)) by {
        OneCall(actions[k], inflow, sent);
      }
      hide IsCallOf, Then, Flowing, Pipe;
      WentWellSoFar(actions, respond, init);
      ThenAssociates(Ok(init), Ok([sent]), Pipe(actions, k + 1, outflow, respond));
      OneMore(init, sent);
      assert trace == init + [sent];
    }
  }

  lemma FlowsOn(actions: seq<Action>, respond: (nat, Sent) -> Response, trace: seq<Sent>)
    requires trace != [] && WentWell(actions, respond, trace)
    ensures var k := |trace| - 1;
            && WentWell(actions, respond, trace[..k])
            && Flowing(actions, respond, trace[..k], k) == Flowing(actions, respond, trace, k)
            && Flowing(actions, respond, trace, k + 1) ==
               if GivesOut(actions[k]) then respond(k, trace[k]).outflow.value else Flowing(actions, respond, trace, k)
  {
    hide IsCallOf;
    var k := |trace| - 1;
    var init := trace[..k];
    forall j | 0 <= j <= k ensures Flowing(actions, respond, init, j) == Flowing(actions, respond, trace, j) {}
  }

  /** How a run ends is decided where its calls first stop being fine: it goes through with all
      of them, or is refused for the zero address, or because a call reverts or returns no data
      to pass on. */
  lemma RunsAreExact(actions: seq<Action>, respond: (nat, Sent) -> Response, trace: seq<Sent>, next: Sent)
    requires WentWell(actions, respond, trace)
    ensures var r, k := Pipe(actions, 0, [], respond), |trace|;
            if k == |actions| then r == Ok(trace)
            else if actions[k].addr == ZERO_ADDRESS then r == Revert(NoZeroAddress)
            else if IsCallOf(actions[k], Flowing(actions, respond, trace, k), next) then
              var response := respond(k, next);
              response.Reverted? || (GivesOut(actions[k]) && response.outflow.None?) ==> r == Revert(ActionReverted)
            else true
  {
    WentWellSoFar(actions, respond, trace);
    ThenNothing(Ok(trace));
    RevertStops(trace);
    if |trace| < |actions| {
      OneCall(actions[|trace|], Flowing(actions, respond, trace, |trace|), next);
    }
    hide Then, Prepare, IsCallOf;
  }

  // ----- isValid -----

  datatype Report = Report(
    ok: bool,
    outActionIndex: nat,
    inActionIndex: nat,
    currentOutflowType: uint256,
    nextInflowType: uint256)

  /** The check from action `i` on. `inType` and `outType` are what the actions answer when
      asked for their data-flow types, None if the query reverts. */
  function Check(actions: seq<Action>, inType: nat -> Option<uint256>, outType: nat -> Option<uint256>,
                 i: nat, ok: bool, outIndex: nat, current: uint256): Outcome<Report>
    decreases |actions| - i
  {
    if i >= |actions| then Ok(Report(ok, outIndex, 0, current, 0))
    else if TakesIn(actions[i]) && inType(i).None? then Revert(DataFlowTypeError)
    else if TakesIn(actions[i]) && inType(i).value != current then Ok(Report(false, outIndex, i, current, inType(i).value))
    else
      var consumed := TakesIn(actions[i]) || ok;
      if !GivesOut(actions[i]) then Check(actions, inType, outType, i + 1, consumed, outIndex, current)
      else if !consumed then Ok(Report(false, outIndex, 0, current, 0))
      else if outType(i).None? then Revert(DataFlowTypeError)
      else Check(actions, inType, outType, i + 1, false, i, outType(i).value)
  }

  method IsValid(actions: seq<Action>, inType: nat -> Option<uint256>, outType: nat -> Option<uint256>)
    returns (r: Outcome<Report>)
    ensures r == Check(actions, inType, outType, 0, true, 0, 0)
  {
    var ok, outActionIndex, inActionIndex := true, 0, 0;
    var currentOutflowType: uint256, nextInflowType: uint256 := 0, 0;
    var i := 0;
    while i < |actions|
      invariant i <= |actions| && inActionIndex == 0 && nextInflowType == 0
      invariant Check(actions, inType, outType, 0, true, 0, 0) == Check(actions, inType, outType, i, ok, outActionIndex, currentOutflowType)
    {
      if actions[i].dataFlow.In? || actions[i].dataFlow.InAndOut? {
        match inType(i) {
          case Some(inFlowType) =>
            if inFlowType != currentOutflowType {
              nextInflowType := inFlowType;
              inActionIndex := i;
              ok := false;
              break;
            } else {
              ok := true;
            }
          case None => return Revert(DataFlowTypeError);
        }
      }
      if actions[i].dataFlow.Out? || actions[i].dataFlow.InAndOut? {
        if !ok { break; }
        match outType(i) {
          case Some(outFlowType) =>
            currentOutflowType := outFlowType;
            outActionIndex := i;
            ok := false;
          case None => return Revert(DataFlowTypeError);
        }
      }
      i := i + 1;
    }
    return Ok(Report(ok, outActionIndex, inActionIndex, currentOutflowType, nextInflowType));
  }

  /** The type of the data flowing at position `k`; zero before any out-flow action. */
  function TypeAt(actions: seq<Action>, outType: nat -> Option<uint256>, k: nat): Option<uint256>
    requires k <= |actions|
  {
    match LastOut(actions, k)
    case Some(j) => outType(j)
    case None => Some(0)
  }

  /** Some action takes in what action `k` gives out before another one gives out. */
  ghost predicate Consumed(actions: seq<Action>, k: nat) {
    exists m :: k < m < |actions| && TakesIn(actions[m]) && forall j :: k < j < m ==> !GivesOut(actions[j])
  }

  ghost predicate WellTypedAt(actions: seq<Action>, inType: nat -> Option<uint256>, outType: nat -> Option<uint256>, k: nat)
    requires k < |actions|
  {
    && (TakesIn(actions[k]) ==> inType(k).Some? && inType(k) == TypeAt(actions, outType, k))
    && (GivesOut(actions[k]) ==> outType(k).Some? && Consumed(actions, k))
  }

  /** Data given out before position `i` has not been taken in yet. */
  ghost predicate Pending(actions: seq<Action>, i: nat)
    requires i <= |actions|
  {
    LastOut(actions, i).Some? && forall m :: LastOut(actions, i).value < m < i ==> !TakesIn(actions[m])
  }

  ghost predicate Accepted(r: Outcome<Report>) {
    r.Ok? && r.value.ok
  }

  lemma PendingStep(actions: seq<Action>, i: nat)
    requires i < |actions|
    ensures Pending(actions, i + 1) <==> GivesOut(actions[i]) || (Pending(actions, i) && !TakesIn(actions[i]))
  {
  }

  lemma PendingIsConsumed(actions: seq<Action>, i: nat)
    requires i < |actions| && Pending(actions, i)
    ensures TakesIn(actions[i]) ==> Consumed(actions, LastOut(actions, i).value)
    ensures !TakesIn(actions[i]) && GivesOut(actions[i]) ==> !Consumed(actions, LastOut(actions, i).value)
  {
  }

  lemma NothingBehindTheEnd(actions: seq<Action>)
    requires Pending(actions, |actions|)
    ensures !Consumed(actions, LastOut(actions, |actions|).value)
  {
  }

  lemma {:induction false} CheckedFrom(actions: seq<Action>, inType: nat -> Option<uint256>, outType: nat -> Option<uint256>,
                                       i: nat, ok: bool, outIndex: nat, current: uint256)
    requires i <= |actions| && (ok <==> !Pending(actions, i)) && TypeAt(actions, outType, i) == Some(current)
    ensures Accepted(Check(actions, inType, outType, i, ok, outIndex, current)) <==>
            && (forall k :: i <= k < |actions| ==> WellTypedAt(actions, inType, outType, k))
            && (Pending(actions, i) ==> Consumed(actions, LastOut(actions, i).value))
    decreases |actions| - i
  {
    if i == |actions| {
      if Pending(actions, i) { NothingBehindTheEnd(actions); }
    } else {
      PendingStep(actions, i);
      if Pending(actions, i) { PendingIsConsumed(actions, i); }
      hide Pending, Consumed;
      var consumed := TakesIn(actions[i]) || ok;
      if TakesIn(actions[i]) && inType(i) != Some(current) {
        assert !WellTypedAt(actions, inType, outType, i);
      } else if !GivesOut(actions[i]) {
        assert WellTypedAt(actions, inType, outType, i);
        CheckedFrom(actions, inType, outType, i + 1, consumed, outIndex, current);
      } else if consumed && outType(i).Some? {
        assert LastOut(actions, i + 1) == Some(i);
        assert WellTypedAt(actions, inType, outType, i) <==> Consumed(actions, i);
        CheckedFrom(actions, inType, outType, i + 1, false, i, outType(i).value);
      } else if consumed {
        assert !WellTypedAt(actions, inType, outType, i);
      }
    }
  }

  /** isValid accepts exactly the lists in which every in-flow action expects the type the
      last out-flow action before it provides, and whatever is given out is taken in before
      the next out-flow action or the end. */
  lemma IsValidIsExact(actions: seq<Action>, inType: nat -> Option<uint256>, outType: nat -> Option<uint256>)
    ensures Accepted(Check(actions, inType, outType, 0, true, 0, 0)) <==>
            forall k :: 0 <= k < |actions| ==> WellTypedAt(actions, inType, outType, k)
  {
    CheckedFrom(actions, inType, outType, 0, true, 0, 0);
  }

  /** What goes wrong at position `k`: data of another type than expected, or none; data not yet
      taken in; or no answer about the type given out. */
  ghost predicate Fails(actions: seq<Action>, inType: nat -> Option<uint256>, outType: nat -> Option<uint256>, k: nat)
    requires k < |actions|
  {
    || (TakesIn(actions[k]) && (inType(k).None? || inType(k) != TypeAt(actions, outType, k)))
    || (GivesOut(actions[k]) && !TakesIn(actions[k]) && Pending(actions, k))
    || (GivesOut(actions[k]) && outType(k).None?)
  }

  /** The position of the last out-flow action, zero if there is none. */
  function LastOutOrZero(actions: seq<Action>, k: nat): nat
    requires k <= |actions|
  {
    if LastOut(actions, k).Some? then LastOut(actions, k).value else 0
  }

  lemma {:induction false} CheckedUpTo(actions: seq<Action>, inType: nat -> Option<uint256>, outType: nat -> Option<uint256>, k: nat)
    requires k <= |actions| && forall j :: 0 <= j < k ==> !Fails(actions, inType, outType, j)
    ensures TypeAt(actions, outType, k).Some?
    ensures Check(actions, inType, outType, 0, true, 0, 0) ==
            Check(actions, inType, outType, k, !Pending(actions, k), LastOutOrZero(actions, k), TypeAt(actions, outType, k).value)
  {
    if k > 0 {
      CheckedUpTo(actions, inType, outType, k - 1);
      assert !Fails(actions, inType, outType, k - 1);
      PendingStep(actions, k - 1);
      hide Pending;
    }
  }

  /** What isValid reports is decided at the first position where something goes wrong: the last
      out-flow action with its type and, if the types differ, the in-flow action with its own.
      Without such a position it reports whether all data was taken in. A type nobody answers
      for reverts the call. */
  lemma ReportIsExact(actions: seq<Action>, inType: nat -> Option<uint256>, outType: nat -> Option<uint256>, k: nat)
    requires k <= |actions| && (forall j :: 0 <= j < k ==> !Fails(actions, inType, outType, j))
    requires k < |actions| ==> Fails(actions, inType, outType, k)
    ensures var r := Check(actions, inType, outType, 0, true, 0, 0);
            && TypeAt(actions, outType, k).Some?
            && var out, current := LastOutOrZero(actions, k), TypeAt(actions, outType, k).value;
            if k == |actions| then r == Ok(Report(!Pending(actions, k), out, 0, current, 0))
            else if TakesIn(actions[k]) && inType(k).None? then r == Revert(DataFlowTypeError)
            else if TakesIn(actions[k]) && inType(k).value != current then r == Ok(Report(false, out, k, current, inType(k).value))
            else if !TakesIn(actions[k]) && Pending(actions, k) then r == Ok(Report(false, out, 0, current, 0))
            else r == Revert(DataFlowTypeError)
  {
    CheckedUpTo(actions, inType, outType, k);
    hide Pending;
  }

  /** What isValid promises for a run: no in-flow action is handed data of another type than
      it expects, and nothing given out is dropped unread. */
  lemma ValidListsPipe(actions: seq<Action>, inType: nat -> Option<uint256>, outType: nat -> Option<uint256>,
                       respond: (nat, Sent) -> Response, k: nat)
    requires Accepted(Check(actions, inType, outType, 0, true, 0, 0)) && Pipe(actions, 0, [], respond).Ok? && k < |actions|
    ensures var trace := Pipe(actions, 0, [], respond).value;
            && |trace| == |actions|
            && (TakesIn(actions[k]) ==>
                  match LastOut(actions, k)
                  case Some(j) => inType(k) == outType(j) && respond(j, trace[j]) == Returned(trace[k].payload.Inflow())
                  case None => inType(k) == Some(0) && trace[k].payload.Inflow() == Some([]))
            && (GivesOut(actions[k]) ==>
                  exists m :: k < m < |actions| && TakesIn(actions[m]) && LastOut(actions, m) == Some(k)
                              && respond(k, trace[k]) == Returned(trace[m].payload.Inflow()))
  {
    IsValidIsExact(actions, inType, outType);
    assert WellTypedAt(actions, inType, outType, k);
    EveryInGetsTheLastOut(actions, respond, k);
    if GivesOut(actions[k]) {
      var m :| k < m < |actions| && TakesIn(actions[m]) && forall j :: k < j < m ==> !GivesOut(actions[j]);
      assert LastOut(actions, m) == Some(k);
      EveryInGetsTheLastOut(actions, respond, m);
    }
  }
}
