/** event-getparsedlogs: two filter stages over parsed logs, then a loop that overwrites every
    log with what the caller asked for; and the path helpers it filters with. */
module ParsedLogs {
  import opened Evm
  import opened JavaScript

  // ----- paths into nested objects -----

  /** Own properties only; what a prototype provides is not one. */
  function Property(obj: JS, key: string): JS {
    if obj.Obj? && key in obj.fields then obj.fields[key] else Undefined
  }

  function CheckNestedObj(obj: JS, path: seq<string>): Attempt<bool>
    decreases |path|
  {
    if obj.Undefined? then Done(false)
    else if obj.Null? then Thrown(TypeError)
    else if path == [] then Done(false)
    else if |path| == 1 && obj.Obj? && path[0] in obj.fields then Done(true)
    else CheckNestedObj(Property(obj, path[0]), path[1..])
  }

  function GetNestedObj(obj: JS, path: seq<string>): JS
    decreases |path|
  {
    if path == [] then obj
    else GetNestedObj(if Truthy(obj) then Property(obj, path[0]) else obj, path[1..])
  }

  /** The value a path of own properties leads to, if there is one. */
  function Follow(obj: JS, path: seq<string>): Option<JS>
    decreases |path|
  {
    if path == [] then Some(obj)
    else if obj.Obj? && path[0] in obj.fields then Follow(obj.fields[path[0]], path[1..])
    else Option.None
  }

  /** The check succeeds exactly on paths that exist, and then the read returns what is
      there, even if it is undefined. */
  lemma {:induction false} CheckedPathsCanBeRead(obj: JS, path: seq<string>)
    requires path != []
    ensures CheckNestedObj(obj, path) == Done(true) <==> Follow(obj, path).Some?
    ensures Follow(obj, path).Some? ==> GetNestedObj(obj, path) == Follow(obj, path).value
    decreases |path|
  {
    if |path| > 1 {
      CheckedPathsCanBeRead(Property(obj, path[0]), path[1..]);
    } else {
      assert path[1..] == [];
    }
  }

  /** It throws exactly where the path comes upon null before its end; without a path it only
      tells null from the rest. */
  lemma {:induction false} CheckingThrows(obj: JS, path: seq<string>)
    ensures CheckNestedObj(obj, path).Thrown? <==>
            if path == [] then obj == Null else exists k :: 0 <= k < |path| && Follow(obj, path[..k]) == Some(Null)
    ensures CheckNestedObj(obj, path).Thrown? ==> CheckNestedObj(obj, path) == Thrown(TypeError)
    ensures path == [] && obj != Null ==> CheckNestedObj(obj, path) == Done(false)
    decreases |path|
  {
    if path != [] {
      assert path[..0] == [];
      var next := Property(obj, path[0]);
      CheckingThrows(next, path[1..]);
      forall k | 0 < k < |path|
        ensures Follow(obj, path[..k]) == if obj.Obj? && path[0] in obj.fields then Follow(next, path[1..][..k - 1]) else Option.None
      {
        assert path[..k][1..] == path[1..][..k - 1];
      }
      if obj != Null && exists j :: 0 <= j < |path| - 1 && Follow(next, path[1..][..j]) == Some(Null) {
        var j :| 0 <= j < |path| - 1 && Follow(next, path[1..][..j]) == Some(Null);
        assert Follow(obj, path[..j + 1]) == Some(Null);
      }
    }
  }

  // ----- filtering and rewriting -----

  /** The `values` object of a parsed log, which is all that is read of it. */
  type Values = map<string, JS>

  function ParsedLog(v: Values): JS {
    Obj(map["values" := Obj(v)])
  }

  /** --values, with or without a --filterkey, or --property, or neither. */
  datatype Mode = ValuesOf(filterkey: Option<string>) | PropertyOf(property: string) | Unchanged

  /** `looselyEqual` is JavaScript's `==`. A --filtervalue is truthy. */
  datatype Options = Options(
    mode: Mode,
    filtervalue: Option<JS>,
    strcmp: bool,
    stringify: bool,
    log: bool,
    looselyEqual: (JS, JS) -> bool)

  function Passes(o: Options, filteredValue: JS): Attempt<bool>
    requires o.filtervalue.Some?
  {
    if !o.strcmp then Done(o.looselyEqual(filteredValue, o.filtervalue.value))
    else if IsNullish(filteredValue) then Thrown(TypeError)
    else Done(ToString(filteredValue) == ToString(o.filtervalue.value))
  }

  function Lookup(v: Values, key: string): JS {
    Property(Obj(v), key)
  }

  /** First stage: logs that have the key. */
  function FilterByKey(logs: seq<Values>, key: string): Attempt<seq<Values>> {
    if logs == [] then Done([])
    else
      var has :- CheckNestedObj(ParsedLog(logs[0]), ["values", key]);
      Onto(if has then [logs[0]] else [], FilterByKey(logs[1..], key))
  }

  /** Second stage: logs whose value under the key passes the comparison. */
  function FilterByValue(logs: seq<Values>, key: string, o: Options): Attempt<seq<Values>>
    requires o.filtervalue.Some?
  {
    if logs == [] then Done([])
    else
      var passes :- Passes(o, GetNestedObj(ParsedLog(logs[0]), ["values", key]));
      Onto(if passes then [logs[0]] else [], FilterByValue(logs[1..], key, o))
  }

  function Stringified(v: JS): Attempt<JS> {
    if IsNullish(v) then Thrown(TypeError) else Done(Str(ToString(v)))
  }

  /** An array slot: a parsed log, or what it was overwritten with. */
  datatype Slot = Parsed(values: Values) | Rewritten(fields: Values)

  /** What a log is overwritten with. */
  function Rewrite(o: Options, v: Values): Attempt<Slot> {
    match o.mode
    case ValuesOf(_) =>
      if !o.stringify then Done(Rewritten(v))
      else if exists k :: k in v && IsNullish(v[k]) then Thrown(TypeError)
      else Done(Rewritten(map k | k in v :: Str(ToString(v[k]))))
    case PropertyOf(p) =>
      if !o.stringify then Done(Rewritten(map[p := Lookup(v, p)]))
      else
        var s :- Stringified(Lookup(v, p));
        Done(Rewritten(map[p := s]))
    case Unchanged => Done(Parsed(v))
  }

  function RewriteAll(o: Options, logs: seq<Values>): Attempt<seq<Slot>> {
    if logs == [] then Done([])
    else
      var v :- Rewrite(o, logs[0]);
      Onto([v], RewriteAll(o, logs[1..]))
  }

  /** Overwrites the slots one after the other, each from the log it still holds. */
  method RewriteInPlace(o: Options, parsedLogs: array<Slot>, ghost logs: seq<Values>) returns (r: Attempt<()>)
    requires |logs| == parsedLogs.Length && forall k :: 0 <= k < |logs| ==> parsedLogs[k] == Parsed(logs[k])
    modifies parsedLogs
    ensures match RewriteAll(o, logs)
            case Thrown(e) => r == Thrown(e)
            case Done(slots) => r.Done? && parsedLogs[..] == slots
  {
    hide Rewrite;
    ghost var done: seq<Slot> := [];
    OntoNothing(done, RewriteAll(o, logs));
    for i := 0 to parsedLogs.Length
      invariant parsedLogs[..i] == done
      invariant forall k :: i <= k < parsedLogs.Length ==> parsedLogs[k] == Parsed(logs[k])
      invariant RewriteAll(o, logs) == Onto(done, RewriteAll(o, logs[i..]))
    {
      assert logs[i..][0] == logs[i] && logs[i..][1..] == logs[i + 1..];
      var copy :- Rewrite(o, parsedLogs[i].values);
      OntoMore(done, copy, RewriteAll(o, logs[i + 1..]));
      done := done + [copy];
      parsedLogs[i] := copy;
    }
    OntoNothing(done, Done([]));
    assert parsedLogs[..] == done;
    return Done(());
  }

  // ----- one filter and one map -----

  /** Whether a log survives, decided in one go. */
  function Keeps(o: Options, v: Values): Attempt<bool> {
    match o.mode
    case PropertyOf(p) => if o.filtervalue.None? then Done(true) else Passes(o, Lookup(v, p))
    case ValuesOf(None) => Done(true)
    case ValuesOf(Some(key)) =>
      if key !in v then Done(false)
      else if o.filtervalue.None? then Done(true)
      else Passes(o, v[key])
    case Unchanged => Done(true)
  }

  function Kept(o: Options, logs: seq<Values>): Attempt<seq<Values>> {
    if logs == [] then Done([])
    else
      var keeps :- Keeps(o, logs[0]);
      Onto(if keeps then [logs[0]] else [], Kept(o, logs[1..]))
  }

  /** With --log an empty answer is an error. */
  function Logged(o: Options, slots: seq<Slot>): Attempt<seq<Slot>> {
    if o.log && slots == [] then Thrown(NoEventsFound) else Done(slots)
  }

  /** One order-preserving filter, then one map. */
  function Answer(o: Options, eventlogs: seq<Values>): Attempt<seq<Slot>> {
    if eventlogs == [] then Thrown(NoEventsFound)
    else
      var kept :- Kept(o, eventlogs);
      var slots :- RewriteAll(o, kept);
      Logged(o, slots)
  }

  /** Reading `values[key]` through the path helpers: the check asks for an own property, the
      read does not. */
  lemma ValuesPath(v: Values, key: string)
    ensures CheckNestedObj(ParsedLog(v), ["values", key]) == Done(key in v)
    ensures GetNestedObj(ParsedLog(v), ["values", key]) == Lookup(v, key)
  {
    var path := ["values", key];
    assert path[1..] == [key] && [key][1..] == [];
    assert Property(ParsedLog(v), "values") == Obj(v);
    assert CheckNestedObj(Obj(v), [key]) == Done(key in v);
    assert GetNestedObj(Obj(v), [key]) == Lookup(v, key);
  }

  lemma {:induction false} KeyNeverThrows(logs: seq<Values>, key: string)
    ensures FilterByKey(logs, key).Done?
  {
    hide CheckNestedObj;
    if logs != [] {
      ValuesPath(logs[0], key);
      KeyNeverThrows(logs[1..], key);
    }
  }

  lemma {:induction false} KeyStage(o: Options, logs: seq<Values>, key: string)
    requires o.mode == ValuesOf(Some(key))
    ensures o.filtervalue.None? ==> Kept(o, logs) == FilterByKey(logs, key)
    ensures o.filtervalue.Some? ==>
              Kept(o, logs) == match FilterByKey(logs, key)
                               case Done(withKey) => FilterByValue(withKey, key, o)
                               case Thrown(e) => Thrown(e)
  {
    hide Passes, CheckNestedObj, GetNestedObj;
    if logs != [] {
      KeyStage(o, logs[1..], key);
      ValuesPath(logs[0], key);
      KeyNeverThrows(logs[1..], key);
      var rest := FilterByKey(logs[1..], key).value;
      if key in logs[0] {
        assert FilterByKey(logs, key).value == [logs[0]] + rest && ([logs[0]] + rest)[1..] == rest;
      } else {
        assert FilterByKey(logs, key).value == rest;
        OntoNothing([], Kept(o, logs[1..]));
      }
    }
  }

  lemma {:induction false} ValueStage(o: Options, logs: seq<Values>)
    ensures o.mode.PropertyOf? && o.filtervalue.Some? ==> Kept(o, logs) == FilterByValue(logs, o.mode.property, o)
    ensures (o.mode.PropertyOf? && o.filtervalue.None?) || o.mode == ValuesOf(Option.None) || o.mode.Unchanged? ==> Kept(o, logs) == Done(logs)
  {
    hide Passes, CheckNestedObj, GetNestedObj;
    if logs != [] {
      ValueStage(o, logs[1..]);
      if o.mode.PropertyOf? {
        ValuesPath(logs[0], o.mode.property);
      }
      assert logs == [logs[0]] + logs[1..];
    }
  }

  lemma {:induction false} UnchangedStage(o: Options, logs: seq<Values>)
    requires o.mode.Unchanged?
    ensures var r := RewriteAll(o, logs);
            r.Done? && |r.value| == |logs| && forall i :: 0 <= i < |logs| ==> r.value[i] == Parsed(logs[i])
  {
    if logs != [] {
      UnchangedStage(o, logs[1..]);
    }
  }

  /** The stages and the rewriting loop together are one filter by the conjunction of the
      conditions, in order, followed by one map. */
  method GetParsedLogs(o: Options, eventlogs: seq<Values>) returns (r: Attempt<seq<Slot>>)
    ensures r == Answer(o, eventlogs)
  {
    hide Kept, RewriteAll, FilterByKey, FilterByValue;
    if |eventlogs| == 0 { return Thrown(NoEventsFound); }
    var parsedLogs := eventlogs;
    ValueStage(o, eventlogs);
    match o.mode {
      case ValuesOf(Some(key)) =>
        KeyStage(o, eventlogs, key);
        parsedLogs :- FilterByKey(parsedLogs, key);
        if o.filtervalue.Some? {
          parsedLogs :- FilterByValue(parsedLogs, key, o);
        }
      case ValuesOf(None) =>
      case PropertyOf(property) =>
        if o.filtervalue.Some? {
          parsedLogs :- FilterByValue(parsedLogs, property, o);
        }
      case Unchanged =>
    }
    var slots := new Slot[|parsedLogs|](i requires 0 <= i < |parsedLogs| => Parsed(parsedLogs[i]));
    if o.mode.Unchanged? {
      UnchangedStage(o, parsedLogs);
      assert slots[..] == RewriteAll(o, parsedLogs).value;
    } else {
      var _ :- RewriteInPlace(o, slots, parsedLogs);
    }
    if o.log && slots.Length == 0 { return Thrown(NoEventsFound); }
    return Done(slots[..]);
  }

  // ----- what it answers -----

  /** The value under the filter key is compared as a string but is missing. */
  predicate LacksFilterValue(o: Options, v: Values) {
    && o.filtervalue.Some? && o.strcmp
    && match o.mode
       case ValuesOf(Some(key)) => key in v && IsNullish(v[key])
       case PropertyOf(p) => p !in v || IsNullish(v[p])
       case _ => false
  }

  /** A value that is to be turned into a string is missing. */
  predicate LacksValue(o: Options, v: Values) {
    && o.stringify
    && match o.mode
       case ValuesOf(_) => exists k :: k in v && IsNullish(v[k])
       case PropertyOf(p) => p !in v || IsNullish(v[p])
       case Unchanged => false
  }

  /** A value passes for the filter value: as a string with --strcmp, loosely otherwise. */
  predicate IsFilterValue(o: Options, x: JS)
    requires o.filtervalue.Some?
  {
    if o.strcmp then !IsNullish(x) && ToString(x) == ToString(o.filtervalue.value)
    else o.looselyEqual(x, o.filtervalue.value)
  }

  /** A log survives if it has the filter key and its value there, or its value of the property,
      passes for the filter value. What was not asked for is no condition. */
  predicate Survives(o: Options, v: Values) {
    match o.mode
    case ValuesOf(Some(key)) => key in v && (o.filtervalue.Some? ==> IsFilterValue(o, v[key]))
    case PropertyOf(p) => o.filtervalue.Some? ==> IsFilterValue(o, if p in v then v[p] else Undefined)
    case _ => true
  }

  /** The logs that survive, in their order. */
  function Survivors(o: Options, logs: seq<Values>): seq<Values> {
    if logs == [] then []
    else (if Survives(o, logs[0]) then [logs[0]] else []) + Survivors(o, logs[1..])
  }

  lemma SurvivalIsExact(o: Options, v: Values)
    ensures Keeps(o, v) == if LacksFilterValue(o, v) then Thrown(TypeError) else Done(Survives(o, v))
  {
    hide ToString;
  }

  lemma {:induction false} SurvivorsSurvive(o: Options, logs: seq<Values>)
    ensures forall v :: v in Survivors(o, logs) <==> v in logs && Survives(o, v)
  {
    hide Survives;
    if logs != [] {
      SurvivorsSurvive(o, logs[1..]);
      assert forall v :: v in logs <==> v == logs[0] || v in logs[1..];
    }
  }

  lemma {:induction false} KeptIsExact(o: Options, logs: seq<Values>)
    ensures Kept(o, logs) ==
            if exists v :: v in logs && LacksFilterValue(o, v) then Thrown(TypeError) else Done(Survivors(o, logs))
  {
    hide Keeps, LacksFilterValue, Survives;
    if logs != [] {
      KeptIsExact(o, logs[1..]);
      SurvivalIsExact(o, logs[0]);
      assert forall v :: v in logs <==> v == logs[0] || v in logs[1..];
    }
  }

  /** A value as it is answered: its string with --stringify. */
  function Shown(o: Options, x: JS): JS {
    if o.stringify then Str(ToString(x)) else x
  }

  /** What is answered for a surviving log: the log itself, or the one property asked for, or
      all its values. */
  predicate IsAnswerFor(o: Options, slot: Slot, v: Values) {
    match o.mode
    case Unchanged => slot == Parsed(v)
    case PropertyOf(p) => slot == Rewritten(map[p := Shown(o, if p in v then v[p] else Undefined)])
    case ValuesOf(_) =>
      && slot.Rewritten? && slot.fields.Keys == v.Keys
      && forall k :: k in v ==> slot.fields[k] == Shown(o, v[k])
  }

  lemma RewritingIsExact(o: Options, v: Values)
    ensures if LacksValue(o, v) then Rewrite(o, v) == Thrown(TypeError)
            else Rewrite(o, v).Done? && IsAnswerFor(o, Rewrite(o, v).value, v)
  {
    hide ToString;
  }

  lemma {:induction false} RewritingAllIsExact(o: Options, logs: seq<Values>)
    ensures var r := RewriteAll(o, logs);
            if exists v :: v in logs && LacksValue(o, v) then r == Thrown(TypeError)
            else r.Done? && |r.value| == |logs| && forall i :: 0 <= i < |logs| ==> IsAnswerFor(o, r.value[i], logs[i])
  {
    hide Rewrite, LacksValue, IsAnswerFor;
    if logs != [] {
      RewritingAllIsExact(o, logs[1..]);
      RewritingIsExact(o, logs[0]);
      assert forall v :: v in logs <==> v == logs[0] || v in logs[1..];
    }
  }

  /** There is an answer exactly if there are logs, no filter value to be compared as a string
      is missing, no survivor lacks a value to be printed, and, with --log, some log survives.
      It then holds one slot for each survivor, in order, with what was asked for. */
  lemma AnswersAreExact(o: Options, eventlogs: seq<Values>)
    ensures var r, kept := Answer(o, eventlogs), Survivors(o, eventlogs);
            var missing := exists v :: v in eventlogs && (LacksFilterValue(o, v) || (Survives(o, v) && LacksValue(o, v)));
            if eventlogs == [] then r == Thrown(NoEventsFound)
            else if missing then r == Thrown(TypeError)
            else if o.log && kept == [] then r == Thrown(NoEventsFound)
            else r.Done? && |r.value| == |kept| && forall i :: 0 <= i < |kept| ==> IsAnswerFor(o, r.value[i], kept[i])
  {
    hide Kept, RewriteAll, LacksFilterValue, LacksValue, Survives, Survivors, IsAnswerFor;
    KeptIsExact(o, eventlogs);
    SurvivorsSurvive(o, eventlogs);
    RewritingAllIsExact(o, Survivors(o, eventlogs));
  }
}
