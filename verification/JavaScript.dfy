/** The JavaScript values the off-chain code handles: primitives, ethers' big numbers, arrays
    and plain objects, with the coercions that code relies on. */
module JavaScript {

  /** Numbers are the integral ones. A big number is an object, so even zero is truthy. */
  datatype JS =
    | Undefined
    | Null
    | Bool(b: bool)
    | Num(n: int)
    | Str(s: string)
    | BigNum(big: int)
    | Arr(elems: seq<JS>)
    | Obj(fields: map<string, JS>)

  datatype Reason =
    | TypeError
    | ActionNoAddr
    | ActionNoOperation
    | ActionWrongOperation
    | ActionDelegatecallValue
    | ActionInvalidDataFlow
    | ActionTermsOkCheck
    | ProviderNoAddr
    | TaskConditions
    | TaskActions
    | ReceiptNoUserProxy
    | ReceiptNoProvider
    | ReceiptTasksNoArray
    | ReceiptTasksEmpty
    | NotANumber
    | FromBlockAfterToBlock
    | BlocksAlongsideHash
    | NoEventsFound

  /** An expression that has a value or throws. */
  datatype Attempt<+T> = Done(value: T) | Thrown(reason: Reason) {
    predicate IsFailure() {
      Thrown?
    }

    function PropagateFailure<U>(): Attempt<U>
      requires Thrown?
    {
      Thrown(reason)
    }

    function Extract(): T
      requires Done?
    {
      value
    }
  }

  /** The results of a loop: what it has pushed so far, and how the rest of it ends. */
  function Onto<T>(done: seq<T>, rest: Attempt<seq<T>>): Attempt<seq<T>> {
    if rest.Thrown? then rest else Done(done + rest.value)
  }

  lemma OntoNothing<T>(done: seq<T>, rest: Attempt<seq<T>>)
    ensures Onto([], rest) == rest && Onto(done, Done([])) == Done(done)
  {
    assert rest.Done? ==> [] + rest.value == rest.value;
    assert done + [] == done;
  }

  lemma OntoMore<T>(done: seq<T>, next: T, rest: Attempt<seq<T>>)
    ensures Onto(done, Onto([next], rest)) == Onto(done + [next], rest)
  {
    assert rest.Done? ==> done + ([next] + rest.value) == (done + [next]) + rest.value;
  }

  predicate Truthy(v: JS) {
    match v
    case Undefined => false
    case Null => false
    case Bool(b) => b
    case Num(n) => n != 0
    case Str(s) => s != ""
    case _ => true
  }

  /** `v ? v : d` and `v !== undefined ? v : d`. */
  function Or(v: JS, d: JS): JS {
    if Truthy(v) then v else d
  }

  function Default(v: JS, d: JS): JS {
    if v.Undefined? then d else v
  }

  /** `v === k` for a number k. */
  predicate Is(v: JS, k: int) {
    v.Num? && v.n == k
  }

  predicate IsNullish(v: JS) {
    v.Undefined? || v.Null?
  }

  /** `v[k]` for a number k, which on a plain object names the property its digits spell; only
      undefined and null have no properties at all. */
  function At(v: JS, k: nat): Attempt<JS> {
    match v
    case Undefined => Thrown(TypeError)
    case Null => Thrown(TypeError)
    case Arr(elems) => Done(if k < |elems| then elems[k] else Undefined)
    case Str(s) => Done(if k < |s| then Str([s[k]]) else Undefined)
    case Obj(fields) => Done(if Decimal(k) in fields then fields[Decimal(k)] else Undefined)
    case _ => Done(Undefined)
  }

  /** What `for (const x of v)` runs through. */
  function Iterate(v: JS): Attempt<seq<JS>> {
    match v
    case Arr(elems) => Done(elems)
    case Str(s) => Done(seq(|s|, i requires 0 <= i < |s| => Str([s[i]])))
    case _ => Thrown(TypeError)
  }

  /** There are five falsy values; undefined and null have no properties; arrays and strings are
      what can be run through. */
  lemma FalsyAndNullish(v: JS, k: nat)
    ensures !Truthy(v) <==> v in {Undefined, Null, Bool(false), Num(0), Str("")}
    ensures At(v, k) == Thrown(TypeError) <==> v == Undefined || v == Null
    ensures At(v, k).Thrown? ==> At(v, k) == Thrown(TypeError)
    ensures Iterate(v) == Thrown(TypeError) <==> !v.Arr? && !v.Str?
  {
  }

  // ----- toString -----

  function Digit(d: nat): char
    requires d < 10
  {
    '0' + d as char
  }

  function Decimal(n: nat): (s: string)
    ensures |s| > 0 && '0' <= s[0] <= '9'
  {
    if n < 10 then [Digit(n)] else Decimal(n / 10) + [Digit(n % 10)]
  }

  function Signed(n: int): (s: string) {
    if n < 0 then "-" + Decimal(-n) else Decimal(n)
  }

  function ToString(v: JS): string
    decreases v, 0
  {
    match v
    case Undefined => "undefined"
    case Null => "null"
    case Bool(b) => if b then "true" else "false"
    case Num(n) => Signed(n)
    case Str(s) => s
    case BigNum(n) => Signed(n)
    case Arr(elems) => Join(elems)
    case Obj(_) => "[object Object]"
  }

  /** Arrays join their elements with commas and leave nullish ones empty. */
  function Join(vs: seq<JS>): string
    decreases vs, 1
  {
    if vs == [] then ""
    else
      var head := if IsNullish(vs[0]) then "" else ToString(vs[0]);
      if |vs| == 1 then head else head + "," + Join(vs[1..])
  }

  lemma PrintedAs(v: JS)
    ensures ToString(Undefined) == "undefined" && ToString(Null) == "null"
    ensures ToString(Bool(true)) == "true" && ToString(Bool(false)) == "false"
    ensures v.Str? ==> ToString(v) == v.s
    ensures v.Obj? ==> ToString(v) == "[object Object]"
    ensures ToString(Arr([])) == "" && ToString(Arr([v])) == if v == Undefined || v == Null then "" else ToString(v)
  {
  }

  /** A comma stands between any two stretches of an array. */
  lemma {:induction false} CommasBetween(vs: seq<JS>, ws: seq<JS>)
    requires vs != [] && ws != []
    ensures Join(vs + ws) == Join(vs) + "," + Join(ws)
  {
    if |vs| == 1 {
      assert (vs + ws)[1..] == ws;
    } else {
      assert (vs + ws)[1..] == vs[1..] + ws;
      CommasBetween(vs[1..], ws);
      hide ToString;
    }
  }

  /** The number a string of digits denotes. */
  function Denotes(s: string): int {
    if s == "" then 0 else 10 * Denotes(s[..|s| - 1]) + (s[|s| - 1] as int - '0' as int)
  }

  lemma {:induction false} DecimalDenotes(n: nat)
    ensures Denotes(Decimal(n)) == n
  {
    var s := Decimal(n);
    if n < 10 {
      assert s[..0] == "";
    } else {
      DecimalDenotes(n / 10);
      assert s[..|s| - 1] == Decimal(n / 10);
    }
  }

  lemma DecimalInjective(m: nat, n: nat)
    ensures Decimal(m) == Decimal(n) <==> m == n
  {
    hide Decimal;
    DecimalDenotes(m);
    DecimalDenotes(n);
  }

  /** Different numbers print differently. */
  lemma SignedInjective(m: int, n: int)
    ensures Signed(m) == Signed(n) <==> m == n
  {
    hide Decimal;
    if (m < 0) != (n < 0) {
      assert Signed(m)[0] != Signed(n)[0];
    } else if m < 0 {
      DecimalInjective(-m, -n);
      assert Signed(m)[1..] == Decimal(-m) && Signed(n)[1..] == Decimal(-n);
    } else {
      DecimalInjective(m, n);
    }
  }
}
