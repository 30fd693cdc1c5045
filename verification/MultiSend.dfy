/** Batches of calls in one byte string: how the dapp scripts pack them, and how the
    Multisend contract takes them apart word by word. */
module MultiSend {
  import opened Evm
  import opened Bytes

  /** Operation 0 is a call and 1 a delegatecall; the packed byte can hold others. */
  datatype Transaction = Transaction(operation: byte, to: Address, value: uint256, data: bytes) {
    /** The length of the data has to fit its 32-byte field. */
    predicate Fits() {
      |data| < MODULUS
    }
  }

  // ----- packing -----

  function Header(t: Transaction): (h: bytes)
    ensures |h| == 0x55
  {
    [t.operation] + ToBigEndian(t.to, 20) + ToBigEndian(t.value, 32) + ToBigEndian(|t.data|, 32)
  }

  /** solidityPack of ["uint8", "address", "uint256", "uint256", "bytes"]. */
  function Pack(t: Transaction): bytes {
    Header(t) + t.data
  }

  function PackAll(ts: seq<Transaction>): bytes {
    if ts == [] then [] else Pack(ts[0]) + PackAll(ts[1..])
  }

  lemma {:induction false} PackAllAppend(ts: seq<Transaction>, us: seq<Transaction>)
    ensures PackAll(ts + us) == PackAll(ts) + PackAll(us)
  {
    if ts == [] {
      assert ts + us == us;
    } else {
      assert (ts + us)[1..] == ts[1..] + us;
      PackAllAppend(ts[1..], us);
    }
  }

  /** The scripts put a call that enables GelatoCore as a module in front of the batch,
      unless a deployed safe lists it already. */
  method EncodeBatch(safeDeployed: bool, whitelistedModules: seq<Address>, gelatoCore: Address,
                     enableGelato: Transaction, batch: seq<Transaction>) returns (encoded: bytes)
    ensures encoded == PackAll((if safeDeployed && gelatoCore in whitelistedModules then [] else [enableGelato]) + batch)
  {
    var gelatoIsWhitelisted := false;
    if safeDeployed {
      var i := 0;
      while i < |whitelistedModules|
        invariant i <= |whitelistedModules|
        invariant gelatoIsWhitelisted <==> gelatoCore in whitelistedModules[..i]
      {
        if whitelistedModules[i] == gelatoCore {
          gelatoIsWhitelisted := true;
          assert gelatoCore in whitelistedModules;
          break;
        }
        assert whitelistedModules[..i + 1] == whitelistedModules[..i] + [whitelistedModules[i]];
        i := i + 1;
      }
      assert gelatoIsWhitelisted <==> gelatoCore in whitelistedModules;
    }
    encoded := [];
    if !gelatoIsWhitelisted {
      encoded := Pack(enableGelato);
    }
    ghost var prefix := if gelatoIsWhitelisted then [] else [enableGelato];
    for i := 0 to |batch|
      invariant encoded == PackAll(prefix + batch[..i])
    {
      encoded := encoded + Pack(batch[i]);
      assert prefix + batch[..i + 1] == (prefix + batch[..i]) + [batch[i]];
      PackAllAppend(prefix + batch[..i], [batch[i]]);
    }
    assert batch[..|batch|] == batch;
  }

  // ----- unpacking -----

  /** EVM memory: unbounded, one byte per position. */
  type Memory = nat -> byte

  function Slice(mem: Memory, i: nat, n: nat): (bs: bytes)
    ensures |bs| == n
  {
    seq(n, k requires 0 <= k < n => mem(i + k))
  }

  function Mload(mem: Memory, i: nat): (w: uint256) {
    BigEndianBound(Slice(mem, i, 32));
    FieldSizes();
    FromBigEndian(Slice(mem, i, 32))
  }

  /** shr(0xf8, ...) and shr(0x60, ...) keep the leading 1 and 20 bytes of a word. */
  function LeadingByte(w: uint256): (b: byte) {
    FieldSizes();
    w / Pow256(31)
  }

  function LeadingAddress(w: uint256): (a: Address) {
    FieldSizes();
    w / Pow256(12)
  }

  /** A delegatecall has no value of its own. */
  datatype Effect = CallTo(to: Address, value: uint256, data: bytes) | DelegatecallTo(to: Address, data: bytes)

  function EffectOf(t: Transaction): Effect {
    if t.operation == 0 then CallTo(t.to, t.value, t.data) else DelegatecallTo(t.to, t.data)
  }

  /** The entry the assembly reads at position `i`. */
  function ReadEntry(mem: Memory, i: nat): Transaction {
    Transaction(LeadingByte(Mload(mem, i)), LeadingAddress(Mload(mem, i + 0x01)), Mload(mem, i + 0x15),
                Slice(mem, i + 0x55, Mload(mem, i + 0x35)))
  }

  /** The loop from position `i` on, after `n` calls: the calls it makes, or a revert.
      `succeeds` says how the n-th call goes; memory from `limit` on is too expensive. */
  function Unpack(mem: Memory, length: nat, i: nat, limit: nat, succeeds: nat -> bool, n: nat): Outcome<seq<Effect>>
    decreases limit - i
  {
    if i >= length then Ok([])
    else if i + 0x55 > limit then Revert(OutOfGas)
    else
      var entry := ReadEntry(mem, i);
      if entry.operation > 1 then Revert(MultisendReverted)
      else if i + 0x55 + |entry.data| > limit then Revert(OutOfGas)
      else if !succeeds(n) then Revert(MultisendReverted)
      else Then(Ok([EffectOf(entry)]), Unpack(mem, length, i + 0x55 + |entry.data|, limit, succeeds, n + 1))
  }

  /** A bytes value in memory: its length word, its bytes, and whatever comes after. */
  function InMemory(transactions: bytes, beyond: Memory): Memory {
    (k: nat) => if k < 0x20 then ToBigEndian(|transactions|, 32)[k]
         else if k - 0x20 < |transactions| then transactions[k - 0x20]
         else beyond(k)
  }

  method MultiSend(viaDelegatecall: bool, transactions: bytes, beyond: Memory, limit: uint256, succeeds: nat -> bool)
    returns (r: Outcome<seq<Effect>>)
    requires 0x20 + |transactions| <= limit
    ensures r == if !viaDelegatecall then Revert(DelegatecallOnly)
                 else Unpack(InMemory(transactions, beyond), |transactions|, 0x20, limit, succeeds, 0)
  {
    hide Then, Mload, LeadingByte, LeadingAddress, Slice, InMemory;
    if !viaDelegatecall { return Revert(DelegatecallOnly); }
    var mem := InMemory(transactions, beyond);
    var length := Mload(mem, 0);
    LengthWord(transactions, beyond);
    var i: uint256 := 0x20;
    var effects: seq<Effect> := [];
    ThenNothing(Unpack(mem, length, 0x20, limit, succeeds, 0));
    while i < length
      invariant i <= limit
      invariant Unpack(mem, length, 0x20, limit, succeeds, 0) == Then(Ok(effects), Unpack(mem, length, i, limit, succeeds, |effects|))
      decreases limit - i
    {
      RevertStops(effects);
      if i + 0x55 > limit { return Revert(OutOfGas); }
      var operation := LeadingByte(Mload(mem, i));
      var to := LeadingAddress(Mload(mem, i + 0x01));
      var value := Mload(mem, i + 0x15);
      var dataLength := Mload(mem, i + 0x35);
      var effect: Effect;
      match operation {
        case 0 =>
          if i + 0x55 + dataLength > limit { return Revert(OutOfGas); }
          effect := CallTo(to, value, Slice(mem, i + 0x55, dataLength));
        case 1 =>
          if i + 0x55 + dataLength > limit { return Revert(OutOfGas); }
          effect := DelegatecallTo(to, Slice(mem, i + 0x55, dataLength));
        case _ => return Revert(MultisendReverted);
      }
      if !succeeds(|effects|) { return Revert(MultisendReverted); }
      ghost var rest := Unpack(mem, length, i + 0x55 + dataLength, limit, succeeds, |effects| + 1);
      ThenAssociates(Ok(effects), Ok([effect]), rest);
      OneMore(effects, effect);
      effects := effects + [effect];
      i := i + (0x55 + dataLength);
    }
    ThenNothing(Ok(effects));
    return Ok(effects);
  }

  lemma LengthWord(transactions: bytes, beyond: Memory)
    requires |transactions| < MODULUS
    ensures Mload(InMemory(transactions, beyond), 0) == |transactions|
  {
    FieldSizes();
    assert Slice(InMemory(transactions, beyond), 0, 32) == ToBigEndian(|transactions|, 32);
    FromToBigEndian(|transactions|, 32);
  }

  // ----- reading back what was packed -----

  ghost predicate Holds(mem: Memory, i: nat, bs: bytes) {
    Slice(mem, i, |bs|) == bs
  }

  lemma SliceSplit(mem: Memory, i: nat, m: nat, n: nat)
    ensures Slice(mem, i, m + n) == Slice(mem, i, m) + Slice(mem, i + m, n)
  {
  }

  lemma HoldsParts(mem: Memory, i: nat, xs: bytes, ys: bytes)
    requires Holds(mem, i, xs + ys)
    ensures Holds(mem, i, xs) && Holds(mem, i + |xs|, ys)
  {
    SliceSplit(mem, i, |xs|, |ys|);
    assert xs == (xs + ys)[..|xs|] && ys == (xs + ys)[|xs|..];
  }

  /** A field of at most 32 bytes is the leading part of the word loaded at its position. */
  lemma ReadField(mem: Memory, i: nat, n: nat, k: nat)
    requires k <= 32 && n < Pow256(k) && Holds(mem, i, ToBigEndian(n, k))
    ensures Mload(mem, i) / Pow256(32 - k) == n
  {
    SliceSplit(mem, i, k, 32 - k);
    ShiftRight(Slice(mem, i, k), Slice(mem, i + k, 32 - k));
    FromToBigEndian(n, k);
  }

  lemma HeaderParts(mem: Memory, i: nat, t: Transaction)
    requires Holds(mem, i, Header(t))
    ensures Holds(mem, i, ToBigEndian(t.operation, 1)) && Holds(mem, i + 0x01, ToBigEndian(t.to, 20))
    ensures Holds(mem, i + 0x15, ToBigEndian(t.value, 32)) && Holds(mem, i + 0x35, ToBigEndian(|t.data|, 32))
  {
    var op, to, value, len := [t.operation], ToBigEndian(t.to, 20), ToBigEndian(t.value, 32), ToBigEndian(|t.data|, 32);
    HoldsParts(mem, i, op + to + value, len);
    HoldsParts(mem, i, op + to, value);
    HoldsParts(mem, i, op, to);
    assert ToBigEndian(t.operation / 256, 0) == [];
    assert ToBigEndian(t.operation, 1) == op;
  }

  /** What the assembly reads at the position of a packed entry is that entry. */
  lemma ReadsBack(mem: Memory, i: nat, t: Transaction)
    requires t.Fits() && Holds(mem, i, Pack(t))
    ensures ReadEntry(mem, i) == t
  {
    FieldSizes();
    HoldsParts(mem, i, Header(t), t.data);
    HeaderParts(mem, i, t);
    ReadField(mem, i, t.operation, 1);
    ReadField(mem, i + 0x01, t.to, 20);
    ReadField(mem, i + 0x15, t.value, 32);
    ReadField(mem, i + 0x35, |t.data|, 32);
    assert Pow256(0) == 1;
  }

  /** What a batch is meant to do: its calls in order, all or nothing. */
  function Perform(ts: seq<Transaction>, succeeds: nat -> bool, n: nat): Outcome<seq<Effect>> {
    if ts == [] then Ok([])
    else if ts[0].operation > 1 || !succeeds(n) then Revert(MultisendReverted)
    else Then(Ok([EffectOf(ts[0])]), Perform(ts[1..], succeeds, n + 1))
  }

  ghost predicate AllFit(ts: seq<Transaction>) {
    forall k :: 0 <= k < |ts| ==> ts[k].Fits()
  }

  lemma UnpacksEntry(mem: Memory, length: nat, i: nat, limit: nat, succeeds: nat -> bool, n: nat, t: Transaction)
    requires t.Fits() && Holds(mem, i, Pack(t))
    requires i + |Pack(t)| <= limit && i < length
    ensures Unpack(mem, length, i, limit, succeeds, n) ==
            if t.operation > 1 || !succeeds(n) then Revert(MultisendReverted)
            else Then(Ok([EffectOf(t)]), Unpack(mem, length, i + |Pack(t)|, limit, succeeds, n + 1))
  {
    ReadsBack(mem, i, t);
    hide ReadEntry, EffectOf, Then, Header, Holds;
  }

  lemma PackedSizes(mem: Memory, i: nat, ts: seq<Transaction>)
    requires ts != [] && Holds(mem, i, PackAll(ts))
    ensures |PackAll(ts)| == |Pack(ts[0])| + |PackAll(ts[1..])| && |Pack(ts[0])| >= 0x55
    ensures Holds(mem, i, Pack(ts[0])) && Holds(mem, i + |Pack(ts[0])|, PackAll(ts[1..]))
  {
    HoldsParts(mem, i, Pack(ts[0]), PackAll(ts[1..]));
  }

  /** Running over a packed batch performs it and then goes on behind it. */
  lemma {:induction false} UnpacksPrefix(mem: Memory, length: nat, i: nat, limit: nat, succeeds: nat -> bool, n: nat, ts: seq<Transaction>)
    requires AllFit(ts) && Holds(mem, i, PackAll(ts))
    requires i + |PackAll(ts)| <= limit && i + |PackAll(ts)| <= length + 0x20
    ensures Unpack(mem, length, i, limit, succeeds, n) ==
            Then(Perform(ts, succeeds, n), Unpack(mem, length, i + |PackAll(ts)|, limit, succeeds, n + |ts|))
    decreases |ts|
  {
    hide Unpack, Then, Holds, EffectOf;
    var rest := Unpack(mem, length, i + |PackAll(ts)|, limit, succeeds, n + |ts|);
    if ts == [] {
      assert rest == Unpack(mem, length, i, limit, succeeds, n);
      ThenNothing(rest);
    } else {
      PackedSizes(mem, i, ts);
      hide Pack, PackAll;
      UnpacksEntry(mem, length, i, limit, succeeds, n, ts[0]);
      if ts[0].operation <= 1 && succeeds(n) {
        UnpacksPrefix(mem, length, i + |Pack(ts[0])|, limit, succeeds, n + 1, ts[1..]);
        ThenAssociates(Ok([EffectOf(ts[0])]), Perform(ts[1..], succeeds, n + 1), rest);
      } else {
        ThenStops(MultisendReverted, rest);
      }
    }
  }

  lemma InMemoryHolds(transactions: bytes, beyond: Memory)
    ensures Holds(InMemory(transactions, beyond), 0x20, transactions)
  {
  }

  /** Sending a packed batch performs exactly that batch, in order, or reverts where one of
      its calls fails, whatever lies behind it in memory. */
  lemma BatchesAreUnderstood(ts: seq<Transaction>, beyond: Memory, limit: nat, succeeds: nat -> bool)
    requires AllFit(ts) && 0x20 + |PackAll(ts)| <= limit
    ensures Unpack(InMemory(PackAll(ts), beyond), |PackAll(ts)|, 0x20, limit, succeeds, 0) == Perform(ts, succeeds, 0)
  {
    hide Then, Unpack, PackAll, InMemory, Holds, Perform;
    var all := PackAll(ts);
    var mem := InMemory(all, beyond);
    InMemoryHolds(all, beyond);
    UnpacksPrefix(mem, |all|, 0x20, limit, succeeds, 0, ts);
    GoesOn(mem, |all|, 0x20 + |all|, limit, succeeds, |ts|);
    ThenNothing(Perform(ts, succeeds, 0));
  }

  /** Bytes behind the batch are ignored exactly up to 32 of them. */
  lemma TrailingBytes(ts: seq<Transaction>, junk: bytes, beyond: Memory, limit: nat, succeeds: nat -> bool)
    requires AllFit(ts) && 0x20 + |PackAll(ts)| + |junk| <= limit && Perform(ts, succeeds, 0).Ok?
    ensures var sent := PackAll(ts) + junk;
            Unpack(InMemory(sent, beyond), |sent|, 0x20, limit, succeeds, 0) == Perform(ts, succeeds, 0) <==> |junk| <= 0x20
  {
    hide Then, Unpack, PackAll, InMemory, Holds, Perform;
    var sent := PackAll(ts) + junk;
    var mem := InMemory(sent, beyond);
    InMemoryHolds(sent, beyond);
    HoldsParts(mem, 0x20, PackAll(ts), junk);
    UnpacksPrefix(mem, |sent|, 0x20, limit, succeeds, 0, ts);
    var rest := Unpack(mem, |sent|, 0x20 + |PackAll(ts)|, limit, succeeds, |ts|);
    OnlyNothingIsNothing(Perform(ts, succeeds, 0), rest);
    GoesOn(mem, |sent|, 0x20 + |PackAll(ts)|, limit, succeeds, |ts|);
  }

  lemma OnlyNothingIsNothing(a: Outcome<seq<Effect>>, b: Outcome<seq<Effect>>)
    requires a.Ok?
    ensures Then(a, b) == a <==> b == Ok([])
  {
    if b.Ok? {
      assert |a.value + b.value| == |a.value| + |b.value|;
      ThenNothing(a);
    }
  }

  lemma GoesOn(mem: Memory, length: nat, i: nat, limit: nat, succeeds: nat -> bool, n: nat)
    ensures Unpack(mem, length, i, limit, succeeds, n) == Ok([]) <==> i >= length
  {
    hide ReadEntry;
  }

  /** A call packed in front of a batch changes nothing about how the batch is read. */
  lemma PrefixIsHarmless(enable: Transaction, ts: seq<Transaction>, beyond: Memory, limit: nat, succeeds: nat -> bool)
    requires AllFit(ts) && enable.Fits() && enable.operation <= 1 && succeeds(0)
    requires 0x20 + |Pack(enable) + PackAll(ts)| <= limit
    ensures var sent := Pack(enable) + PackAll(ts);
            var later := Perform(ts, succeeds, 1);
            Unpack(InMemory(sent, beyond), |sent|, 0x20, limit, succeeds, 0) ==
              if later.Revert? then later else Ok([EffectOf(enable)] + later.value)
  {
    var all := [enable] + ts;
    assert all[1..] == ts;
    BatchesAreUnderstood(all, beyond, limit, succeeds);
  }

  // ----- unique decoding -----

  lemma {:induction false} BigEndianInjective(m: nat, n: nat, k: nat)
    requires m < Pow256(k) && n < Pow256(k) && ToBigEndian(m, k) == ToBigEndian(n, k)
    ensures m == n
  {
    FromToBigEndian(m, k);
    FromToBigEndian(n, k);
  }

  lemma HeaderInjective(t: Transaction, u: Transaction)
    requires t.Fits() && u.Fits() && Header(t) == Header(u)
    ensures t.operation == u.operation && t.to == u.to && t.value == u.value && |t.data| == |u.data|
  {
    FieldSizes();
    var h, g := Header(t), Header(u);
    assert h[0] == t.operation && g[0] == u.operation;
    assert h[1..21] == ToBigEndian(t.to, 20) && g[1..21] == ToBigEndian(u.to, 20);
    assert h[21..53] == ToBigEndian(t.value, 32) && g[21..53] == ToBigEndian(u.value, 32);
    assert h[53..] == ToBigEndian(|t.data|, 32) && g[53..] == ToBigEndian(|u.data|, 32);
    BigEndianInjective(t.to, u.to, 20);
    BigEndianInjective(t.value, u.value, 32);
    BigEndianInjective(|t.data|, |u.data|, 32);
  }

  /** The length field makes the packed form self-delimiting. */
  lemma PackIsPrefixFree(t: Transaction, x: bytes, u: Transaction, y: bytes)
    requires t.Fits() && u.Fits() && Pack(t) + x == Pack(u) + y
    ensures t == u && x == y
  {
    var s := Pack(t) + x;
    assert s[..0x55] == Header(t) && s[..0x55] == Header(u);
    HeaderInjective(t, u);
    assert s[0x55..0x55 + |t.data|] == t.data && s[0x55..0x55 + |t.data|] == u.data;
    assert s[0x55 + |t.data|..] == x && s[0x55 + |t.data|..] == y;
  }

  /** No two batches are packed into the same bytes. */
  lemma {:induction false} BatchesAreUnique(ts: seq<Transaction>, us: seq<Transaction>)
    requires AllFit(ts) && AllFit(us)
    ensures PackAll(ts) == PackAll(us) <==> ts == us
  {
    if ts != [] && us != [] {
      if PackAll(ts) == PackAll(us) {
        PackIsPrefixFree(ts[0], PackAll(ts[1..]), us[0], PackAll(us[1..]));
        BatchesAreUnique(ts[1..], us[1..]);
        assert ts == [ts[0]] + ts[1..] && us == [us[0]] + us[1..];
      }
    } else if ts != us {
      assert |PackAll(ts)| != |PackAll(us)|;
    }
  }

  // ----- batches with the same effects -----

  predicate Wellformed(ts: seq<Transaction>) {
    forall k :: 0 <= k < |ts| ==> ts[k].operation <= 1
  }

  function Effects(ts: seq<Transaction>): seq<Effect> {
    seq(|ts|, k requires 0 <= k < |ts| => EffectOf(ts[k]))
  }

  /** All calls are made or none counts. */
  lemma {:induction false} AllOrNothing(ts: seq<Transaction>, succeeds: nat -> bool, n: nat)
    ensures Perform(ts, succeeds, n) ==
            if Wellformed(ts) && forall k :: n <= k < n + |ts| ==> succeeds(k) then Ok(Effects(ts))
            else Revert(MultisendReverted)
  {
    if ts != [] {
      var rest := ts[1..];
      AllOrNothing(rest, succeeds, n + 1);
      hide EffectOf;
      assert Effects(ts) == [EffectOf(ts[0])] + Effects(rest);
      assert ts == [ts[0]] + rest;
      assert Wellformed(ts) <==> ts[0].operation <= 1 && Wellformed(rest);
    }
  }

  /** Both batches contain an unknown operation, or neither does and they agree call by call up
      to the values of delegatecalls. */
  ghost predicate Alike(ts: seq<Transaction>, us: seq<Transaction>) {
    if Wellformed(ts) && Wellformed(us) then
      |ts| == |us| && forall k :: 0 <= k < |ts| ==>
        && ts[k].operation == us[k].operation && ts[k].to == us[k].to && ts[k].data == us[k].data
        && (ts[k].operation == 0 ==> ts[k].value == us[k].value)
    else !Wellformed(ts) && !Wellformed(us)
  }

  lemma SameEffects(ts: seq<Transaction>, us: seq<Transaction>)
    requires Wellformed(ts) && Wellformed(us)
    ensures Effects(ts) == Effects(us) <==> Alike(ts, us)
  {
    if Effects(ts) == Effects(us) {
      assert |ts| == |Effects(ts)| == |us|;
      forall k | 0 <= k < |ts| ensures EffectOf(ts[k]) == EffectOf(us[k]) {
        assert Effects(ts)[k] == Effects(us)[k];
      }
    }
  }

  lemma SamePerformance(ts: seq<Transaction>, us: seq<Transaction>, succeeds: nat -> bool)
    ensures Alike(ts, us) ==> Perform(ts, succeeds, 0) == Perform(us, succeeds, 0)
    ensures (forall k: nat :: succeeds(k)) && Perform(ts, succeeds, 0) == Perform(us, succeeds, 0) ==> Alike(ts, us)
  {
    AllOrNothing(ts, succeeds, 0);
    AllOrNothing(us, succeeds, 0);
    if Wellformed(ts) && Wellformed(us) {
      SameEffects(ts, us);
      hide Effects, Perform;
    } else {
      hide Effects, Perform;
    }
  }

  /** Two packed batches do the same, however their calls go, exactly if they are alike: the
      value of a delegatecall is dropped, and nothing else is. */
  lemma DelegatecallValuesAreDropped(ts: seq<Transaction>, us: seq<Transaction>, beyond: Memory, limit: nat)
    requires AllFit(ts) && AllFit(us) && 0x20 + |PackAll(ts)| <= limit && 0x20 + |PackAll(us)| <= limit
    ensures (forall succeeds: nat -> bool ::
               Unpack(InMemory(PackAll(ts), beyond), |PackAll(ts)|, 0x20, limit, succeeds, 0) ==
               Unpack(InMemory(PackAll(us), beyond), |PackAll(us)|, 0x20, limit, succeeds, 0)) <==>
            Alike(ts, us)
  {
    hide Unpack, InMemory, PackAll, Perform, AllFit, Alike;
    var always: nat -> bool := _ => true;
    BatchesAreUnderstood(ts, beyond, limit, always);
    BatchesAreUnderstood(us, beyond, limit, always);
    SamePerformance(ts, us, always);
    if Alike(ts, us) {
      forall succeeds: nat -> bool
        ensures Unpack(InMemory(PackAll(ts), beyond), |PackAll(ts)|, 0x20, limit, succeeds, 0) ==
                Unpack(InMemory(PackAll(us), beyond), |PackAll(us)|, 0x20, limit, succeeds, 0)
      {
        BatchesAreUnderstood(ts, beyond, limit, succeeds);
        BatchesAreUnderstood(us, beyond, limit, succeeds);
        SamePerformance(ts, us, succeeds);
      }
    }
  }

  // ----- any bytes -----

  /** An entry is read as one byte of operation, 20 of address, 32 of value, 32 of length and as
      many bytes of data, whatever is in memory. */
  lemma EntryFields(mem: Memory, i: nat)
    ensures var t := ReadEntry(mem, i);
            && t.operation == mem(i)
            && t.to == FromBigEndian(Slice(mem, i + 1, 20))
            && t.value == FromBigEndian(Slice(mem, i + 21, 32))
            && |t.data| == FromBigEndian(Slice(mem, i + 53, 32))
            && forall k :: 0 <= k < |t.data| ==> t.data[k] == mem(i + 85 + k)
  {
    hide Slice, Mload, LeadingByte, LeadingAddress;
    LeadingFields(mem, i);
    LengthField(mem, i);
    forall k | 0 <= k < |ReadEntry(mem, i).data| ensures ReadEntry(mem, i).data[k] == mem(i + 85 + k) {
      SliceAt(mem, i + 85, |ReadEntry(mem, i).data|, k);
    }
  }

  lemma SliceAt(mem: Memory, i: nat, n: nat, k: nat)
    requires k < n
    ensures Slice(mem, i, n)[k] == mem(i + k)
  {
  }

  lemma LengthField(mem: Memory, i: nat)
    ensures Mload(mem, i + 21) == FromBigEndian(Slice(mem, i + 21, 32)) && Mload(mem, i + 53) == FromBigEndian(Slice(mem, i + 53, 32))
  {
    hide Slice;
  }

  lemma LeadingFields(mem: Memory, i: nat)
    ensures LeadingByte(Mload(mem, i)) == mem(i) && LeadingAddress(Mload(mem, i + 1)) == FromBigEndian(Slice(mem, i + 1, 20))
  {
    SliceSplit(mem, i, 1, 31);
    SliceSplit(mem, i + 1, 20, 12);
    SliceAt(mem, i, 1, 0);
    assert Slice(mem, i, 1)[..0] == [];
    assert FromBigEndian(Slice(mem, i, 1)) == mem(i);
    hide Slice;
    ShiftRight(Slice(mem, i, 1), Slice(mem, i + 1, 31));
    ShiftRight(Slice(mem, i + 1, 20), Slice(mem, i + 21, 12));
  }

  /** What happens at any position before the end: an unknown operation or a failing call reverts
      the batch, an entry that reaches too far runs out of gas, and otherwise the loop goes on
      behind the entry with one call more. */
  lemma WhatAnEntryDoes(mem: Memory, length: nat, i: nat, limit: nat, succeeds: nat -> bool, n: nat)
    requires i < length
    ensures var r, op, size := Unpack(mem, length, i, limit, succeeds, n), mem(i), FromBigEndian(Slice(mem, i + 53, 32));
            if i + 85 > limit then r == Revert(OutOfGas)
            else if op != 0 && op != 1 then r == Revert(MultisendReverted)
            else if i + 85 + size > limit then r == Revert(OutOfGas)
            else if !succeeds(n) then r == Revert(MultisendReverted)
            else
              var to, value, data := FromBigEndian(Slice(mem, i + 1, 20)), FromBigEndian(Slice(mem, i + 21, 32)), Slice(mem, i + 85, size);
              && to < ADDRESS_SPACE && value < MODULUS
              && var rest := Unpack(mem, length, i + 85 + size, limit, succeeds, n + 1);
              if rest.Revert? then r == rest
              else r == Ok([if op == 0 then CallTo(to, value, data) else DelegatecallTo(to, data)] + rest.value)
  {
    EntryFields(mem, i);
    var entry := ReadEntry(mem, i);
    assert entry.data == Slice(mem, i + 85, |entry.data|);
    hide ReadEntry, Slice;
  }

  // ----- what a batch does, call by call -----

  /** Where the fields of a packed entry stand. */
  lemma PackedLayout(t: Transaction)
    requires t.Fits()
    ensures var bs := Pack(t);
            && |bs| == 85 + |t.data|
            && bs[0] == t.operation
            && FromBigEndian(bs[1..21]) == t.to
            && FromBigEndian(bs[21..53]) == t.value
            && FromBigEndian(bs[53..85]) == |t.data|
            && bs[85..] == t.data
  {
    FieldSizes();
    var bs := Pack(t);
    assert bs[1..21] == ToBigEndian(t.to, 20) && bs[21..53] == ToBigEndian(t.value, 32) && bs[53..85] == ToBigEndian(|t.data|, 32);
    FromToBigEndian(t.to, 20);
    FromToBigEndian(t.value, 32);
    FromToBigEndian(|t.data|, 32);
  }

  /** Sending a packed batch goes through exactly when all its operations are known and all its
      calls succeed. It then makes them in order, each to its target with its data, a call with
      its value and a delegatecall without one. */
  lemma EveryCallIsMade(ts: seq<Transaction>, beyond: Memory, limit: nat, succeeds: nat -> bool)
    requires AllFit(ts) && 0x20 + |PackAll(ts)| <= limit
    ensures var r := Unpack(InMemory(PackAll(ts), beyond), |PackAll(ts)|, 0x20, limit, succeeds, 0);
            && (r.Ok? <==> forall k :: 0 <= k < |ts| ==> (ts[k].operation == 0 || ts[k].operation == 1) && succeeds(k))
            && (r.Revert? ==> r.error == MultisendReverted)
            && (r.Ok? ==> |r.value| == |ts| && forall k :: 0 <= k < |ts| ==>
                  r.value[k] == if ts[k].operation == 0 then CallTo(ts[k].to, ts[k].value, ts[k].data) else DelegatecallTo(ts[k].to, ts[k].data))
  {
    BatchesAreUnderstood(ts, beyond, limit, succeeds);
    hide Unpack, InMemory, PackAll, Perform;
    AllOrNothing(ts, succeeds, 0);
  }
}
