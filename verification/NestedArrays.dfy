/** nestedArraysAreEqual, the comparison the tests use on receipts in array form. */
module NestedArrays {
  import opened Evm
  import opened JavaScript
  import opened TaskReceiptCodec

  /** `a === b` for values built separately: two objects are never the same one. */
  predicate StrictlyEqual(a: JS, b: JS) {
    match a
    case Undefined => b.Undefined?
    case Null => b.Null?
    case Bool(x) => b.Bool? && b.b == x
    case Num(x) => b.Num? && b.n == x
    case Str(x) => b.Str? && b.s == x
    case _ => false
  }

  /** `v.length`, None where that is undefined. */
  function Length(v: JS): Option<nat> {
    match v
    case Arr(elems) => Some(|elems|)
    case Str(s) => Some(|s|)
    case _ => Option.None
  }

  function Compare(a: JS, b: JS): Attempt<bool>
    decreases a, 1, 0
  {
    if StrictlyEqual(a, b) then Done(true)
    else if IsNullish(a) || IsNullish(b) then Done(false)
    else if Length(a) != Length(b) then Done(false)
    else CompareFrom(a, b, 0)
  }

  function CompareFrom(a: JS, b: JS, i: nat): Attempt<bool>
    requires !IsNullish(a) && !IsNullish(b)
    decreases a, 0, match Length(a) case Some(n) => n - i case None => 0
  {
    if Length(a).None? || i >= Length(a).value then Done(true)
    else
      var x, y := At(a, i).value, At(b, i).value;
      if x.Arr? then Compare(x, y)
      else if IsNullish(x) || IsNullish(y) then Thrown(TypeError)
      else if ToString(x) != ToString(y) then Done(false)
      else CompareFrom(a, b, i + 1)
  }

  method NestedArraysAreEqual(a: JS, b: JS) returns (r: Attempt<bool>)
    ensures r == Compare(a, b)
    decreases a
  {
    if StrictlyEqual(a, b) { return Done(true); }
    if IsNullish(a) || IsNullish(b) { return Done(false); }
    if Length(a) != Length(b) { return Done(false); }
    var i := 0;
    while Length(a).Some? && i < Length(a).value
      invariant CompareFrom(a, b, 0) == CompareFrom(a, b, i)
      decreases match Length(a) case Some(n) => n - i case None => 0
    {
      var x, y := At(a, i).value, At(b, i).value;
      if x.Arr? {
        r := NestedArraysAreEqual(x, y);
        return;
      }
      if IsNullish(x) || IsNullish(y) { return Thrown(TypeError); }
      if ToString(x) != ToString(y) { return Done(false); }
      i := i + 1;
    }
    return Done(true);
  }

  // ----- what it decides -----

  /** Where the first array inside an array is. */
  function FirstNested(xs: seq<JS>): (p: nat)
    ensures p <= |xs| && (p < |xs| ==> xs[p].Arr?) && forall i :: 0 <= i < p ==> !xs[i].Arr?
  {
    if xs == [] || xs[0].Arr? then 0 else 1 + FirstNested(xs[1..])
  }

  ghost predicate SamePrinted(x: JS, y: JS) {
    !IsNullish(x) && !IsNullish(y) && ToString(x) == ToString(y)
  }

  lemma {:induction false} ComparedFrom(xs: seq<JS>, ys: seq<JS>, i: nat)
    requires |xs| == |ys| && i <= FirstNested(xs)
    ensures CompareFrom(Arr(xs), Arr(ys), i) == Done(true) <==>
            && (forall k :: i <= k < FirstNested(xs) ==> SamePrinted(xs[k], ys[k]))
            && (FirstNested(xs) < |xs| ==> Compare(xs[FirstNested(xs)], ys[FirstNested(xs)]) == Done(true))
    decreases |xs| - i
  {
    hide ToString, Compare;
    if i < FirstNested(xs) {
      ComparedFrom(xs, ys, i + 1);
    }
  }

  /** Two arrays compare equal exactly when they have the same length, print the same before
      the first nested array, and that nested array compares equal; nothing behind it counts. */
  lemma DecidedByFirstNested(xs: seq<JS>, ys: seq<JS>)
    ensures Compare(Arr(xs), Arr(ys)) == Done(true) <==>
            && |xs| == |ys|
            && (forall k :: 0 <= k < FirstNested(xs) ==> SamePrinted(xs[k], ys[k]))
            && (FirstNested(xs) < |xs| ==> Compare(xs[FirstNested(xs)], ys[FirstNested(xs)]) == Done(true))
  {
    hide ToString;
    if |xs| == |ys| {
      ComparedFrom(xs, ys, 0);
    }
  }

  /** On flat arrays it is the comparison of all elements as strings. */
  lemma ExactOnFlatArrays(xs: seq<JS>, ys: seq<JS>)
    requires forall k :: 0 <= k < |xs| ==> !xs[k].Arr?
    ensures Compare(Arr(xs), Arr(ys)) == Done(true) <==>
            |xs| == |ys| && forall k :: 0 <= k < |xs| ==> SamePrinted(xs[k], ys[k])
  {
    DecidedByFirstNested(xs, ys);
  }

  /** The characters of a string or the elements of an array. */
  function Elements(v: JS): seq<JS> {
    match v
    case Arr(elems) => elems
    case Str(s) => seq(|s|, i requires 0 <= i < |s| => Str([s[i]]))
    case _ => []
  }

  predicate HasLength(v: JS) {
    v.Arr? || v.Str?
  }

  /** Equal primitives compare equal, and so do two values without any length. Otherwise
      undefined, null and values of different length do not. */
  lemma ShallowComparison(a: JS, b: JS)
    ensures a == b && !a.BigNum? && !a.Arr? && !a.Obj? ==> Compare(a, b) == Done(true)
    ensures a != b && (a == Undefined || a == Null || b == Undefined || b == Null) ==> Compare(a, b) == Done(false)
    ensures !IsNullish(a) && !IsNullish(b) && !HasLength(a) && !HasLength(b) ==> Compare(a, b) == Done(true)
    ensures !IsNullish(a) && !IsNullish(b) && HasLength(a) != HasLength(b) ==> Compare(a, b) == Done(false)
    ensures HasLength(a) && HasLength(b) && |Elements(a)| != |Elements(b)| ==> Compare(a, b) == Done(false)
  {
  }

  /** Strings compare equal exactly when they are. */
  lemma StringsAreCompared(s: string, t: string)
    ensures Compare(Str(s), Str(t)) == Done(s == t)
  {
    hide Compare, ToString, SamePrinted;
    ShallowComparison(Str(s), Str(t));
    if s != t && |s| == |t| {
      var k := FirstDifference(s, t);
      forall j | 0 <= j <= k ensures SamePrinted(Elements(Str(s))[j], Elements(Str(t))[j]) <==> s[j] == t[j] {
        LettersPrintThemselves(s[j], t[j]);
      }
      assert forall j :: 0 <= j < k ==> s[..k][j] == t[..k][j];
      LettersPrintThemselves(s[k], t[k]);
      FirstPositionDecides(Str(s), Str(t), k);
    }
  }

  lemma LettersPrintThemselves(c: char, d: char)
    ensures SamePrinted(Str([c]), Str([d])) <==> c == d
    ensures ToString(Str([c])) == [c] && ToString(Str([d])) == [d]
  {
    assert [c] == [d] <==> [c][0] == [d][0];
  }

  function FirstDifference(s: string, t: string): (k: nat)
    requires |s| == |t| && s != t
    ensures k < |s| && s[k] != t[k] && s[..k] == t[..k]
  {
    if s[0] != t[0] then 0
    else
      assert s == [s[0]] + s[1..] && t == [t[0]] + t[1..];
      var k := FirstDifference(s[1..], t[1..]);
      assert s[..k + 1] == [s[0]] + s[1..][..k] && t[..k + 1] == [t[0]] + t[1..][..k];
      k + 1
  }

  /** The first position that is an array on the left or prints differently decides, and only
      it: by the comparison of what stands there, by a throw on undefined and null, or by a
      no. Without such a position the answer is yes. */
  lemma FirstPositionDecides(a: JS, b: JS, k: nat)
    requires HasLength(a) && HasLength(b) && !StrictlyEqual(a, b) && k <= |Elements(a)| == |Elements(b)|
    requires forall j :: 0 <= j < k ==> !Elements(a)[j].Arr? && SamePrinted(Elements(a)[j], Elements(b)[j])
    ensures k == |Elements(a)| ==> Compare(a, b) == Done(true)
    ensures k < |Elements(a)| ==>
              var x, y := Elements(a)[k], Elements(b)[k];
              && (x.Arr? ==> Compare(a, b) == Compare(x, y))
              && (!x.Arr? && (IsNullish(x) || IsNullish(y)) ==> Compare(a, b) == Thrown(TypeError))
              && (!x.Arr? && !IsNullish(x) && !IsNullish(y) && ToString(x) != ToString(y) ==> Compare(a, b) == Done(false))
  {
    hide ToString;
    PositionsPassed(a, b, k);
  }

  lemma {:induction false} PositionsPassed(a: JS, b: JS, k: nat)
    requires HasLength(a) && HasLength(b) && k <= |Elements(a)| == |Elements(b)|
    requires forall j :: 0 <= j < k ==> !Elements(a)[j].Arr? && SamePrinted(Elements(a)[j], Elements(b)[j])
    ensures CompareFrom(a, b, 0) == CompareFrom(a, b, k)
  {
    hide ToString, Compare;
    if k > 0 {
      PositionsPassed(a, b, k - 1);
      assert At(a, k - 1).value == Elements(a)[k - 1] && At(b, k - 1).value == Elements(b)[k - 1];
    }
  }

  /** No undefined or null stands before the first nested array, at any level. */
  predicate Readable(xs: seq<JS>)
    decreases xs
  {
    var p := FirstNested(xs);
    (forall k :: 0 <= k < p ==> !IsNullish(xs[k])) && (p < |xs| ==> Readable(xs[p].elems))
  }

  /** Equal trees compare equal exactly when no undefined or null is in the way, on which
      the comparison throws. */
  lemma {:induction false} EqualTreesCompareEqual(xs: seq<JS>)
    ensures Compare(Arr(xs), Arr(xs)) == Done(true) <==> Readable(xs)
    decreases xs
  {
    DecidedByFirstNested(xs, xs);
    var p := FirstNested(xs);
    if p < |xs| {
      EqualTreesCompareEqual(xs[p].elems);
    }
  }

  // ----- on receipts -----

  /** Addresses are strings and the id is a big number, as in every receipt read from logs. */
  predicate Addressed(o: TaskReceipt) {
    o.id.BigNum? && o.userProxy.Str? && o.provider.addr.Str? && o.provider.providerModule.Str?
  }

  /** Receipts in array form compare equal exactly when they agree on id, user proxy and
      provider: the provider is the first nested array. */
  lemma ReceiptsAgreeOnThreeFields(o: TaskReceipt, p: TaskReceipt)
    requires Addressed(o) && Addressed(p)
    ensures Compare(PrintReceipt(o), PrintReceipt(p)) == Done(true) <==>
            o.id == p.id && o.userProxy == p.userProxy && o.provider == p.provider
  {
    hide Compare, FirstNested, PrintTasks, Signed;
    var xs, ys := PrintReceipt(o).elems, PrintReceipt(p).elems;
    var provider, provider' := xs[2].elems, ys[2].elems;
    assert xs[2].Arr? && !xs[0].Arr? && !xs[1].Arr?;
    assert |xs| == |ys| == 8 && |provider| == |provider'| == 2;
    SignedInjective(o.id.big, p.id.big);
    assert SamePrinted(xs[0], ys[0]) <==> o.id == p.id;
    assert SamePrinted(xs[1], ys[1]) <==> o.userProxy == p.userProxy;
    assert SamePrinted(provider[0], provider'[0]) <==> o.provider.addr == p.provider.addr;
    assert SamePrinted(provider[1], provider'[1]) <==> o.provider.providerModule == p.provider.providerModule;
    hide PrintReceipt, SamePrinted;
    DecidedByFirstNested(xs, ys);
    ExactOnFlatArrays(provider, provider');
  }

  /** So receipts with different tasks, order and budget pass for equal. */
  lemma TasksAreIgnored(o: TaskReceipt, index: JS, tasks: seq<Task>, expiryDate: JS, cycleId: JS, submissionsLeft: JS)
    requires Addressed(o)
    ensures var p := o.(index := index, tasks := tasks, expiryDate := expiryDate, cycleId := cycleId, submissionsLeft := submissionsLeft);
            Compare(PrintReceipt(o), PrintReceipt(p)) == Done(true)
  {
    hide Compare, PrintReceipt;
    ReceiptsAgreeOnThreeFields(o, o.(index := index, tasks := tasks, expiryDate := expiryDate, cycleId := cycleId, submissionsLeft := submissionsLeft));
  }
}
