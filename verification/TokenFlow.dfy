/** The actions whose data flow is a token and an amount: transfers pass the amount on, fee
    handlers keep a share of it. */
module TokenFlow {
  import opened Evm
  import opened Bytes
  import opened GelatoTypes
  import opened ActionPipeline

  const ETH_ADDRESS: Address := 0xEeeeeEeeeEeEeeEeEeEeeEEEeeeeEeeeeeeeEEeE

  // ----- ABI words -----

  /** abi.encode(token, amount). */
  function EncodePair(token: Address, amount: uint256): bytes {
    ToBigEndian(token, 32) + ToBigEndian(amount, 32)
  }

  function DecodeWord(data: bytes, at: nat): (w: Outcome<uint256>)
    ensures w.Ok? <==> at + 32 <= |data|
  {
    if at + 32 > |data| then Revert(AbiDecodingFailed)
    else
      BigEndianBound(data[at..at + 32]);
      FieldSizes();
      Ok(FromBigEndian(data[at..at + 32]))
  }

  function DecodeAddress(data: bytes, at: nat): Outcome<Address> {
    var w :- DecodeWord(data, at);
    if w >= ADDRESS_SPACE then Revert(AbiDecodingFailed) else Ok(w)
  }

  lemma PairReadsBack(token: Address, amount: uint256)
    ensures DecodeAddress(EncodePair(token, amount), 0) == Ok(token)
    ensures DecodeWord(EncodePair(token, amount), 32) == Ok(amount)
  {
    var data := EncodePair(token, amount);
    FieldSizes();
    assert data[0..32] == ToBigEndian(token, 32) && data[32..64] == ToBigEndian(amount, 32);
    FromToBigEndian(token, 32);
    FromToBigEndian(amount, 32);
  }

  // ----- the actions -----

  datatype Kind =
    | TransferFromAction
    | TransferAction
    | FeeHandlerAction(provider: Address, feeNum: uint256, feeDen: uint256)
  {
    /** Checked by the constructor of ActionFeeHandler. */
    predicate Deployable() {
      FeeHandlerAction? ==> feeNum <= feeDen
    }
  }

  datatype Args = Args(payer: Address, token: Address, amount: uint256, payee: Address)

  /** The arguments an action is called with: encoded in its own data, except that token and
      amount come from the inflow where there is one. `self` is the delegatecalling proxy. */
  function DecodeArgs(kind: Kind, self: Address, p: Payload): Outcome<Args> {
    var tokenAt := if kind.TransferFromAction? then 36 else 4;
    var source, at := if p.Inflow().Some? then p.Inflow().value else p.data, if p.Inflow().Some? then 0 else tokenAt;
    var token :- DecodeAddress(source, at);
    var amount :- DecodeWord(source, at + 32);
    var party :- DecodeAddress(p.data, tokenAt + 64);
    var user :- if kind.TransferFromAction? then DecodeAddress(p.data, 4) else Ok(self);
    Ok(match kind
       case TransferFromAction => Args(user, token, amount, party)
       case TransferAction => Args(self, token, amount, party)
       case FeeHandlerAction(provider, _, _) => Args(party, token, amount, provider))
  }

  /** What getActionData encodes: a selector and one word per argument. */
  function ActionData(kind: Kind, selector: bytes, user: Address, token: Address, amount: uint256, party: Address): bytes {
    selector + (if kind.TransferFromAction? then ToBigEndian(user, 32) else []) + EncodePair(token, amount) + ToBigEndian(party, 32)
  }

  lemma WordAt(data: bytes, at: nat, n: uint256)
    requires at + 32 <= |data| && data[at..at + 32] == ToBigEndian(n, 32)
    ensures DecodeWord(data, at) == Ok(n)
    ensures DecodeAddress(data, at) == if n < ADDRESS_SPACE then Ok(n) else Revert(AbiDecodingFailed)
  {
    FieldSizes();
    FromToBigEndian(n, 32);
  }

  /** Data that ends before the word does not decode. */
  lemma ShortDataIsRefused(data: bytes, at: nat)
    requires at + 32 > |data|
    ensures DecodeWord(data, at) == Revert(AbiDecodingFailed) && DecodeAddress(data, at) == Revert(AbiDecodingFailed)
  {
  }

  lemma Slices(head: bytes, a: bytes, b: bytes, c: bytes)
    requires |a| == 32 && |b| == 32 && |c| == 32
    ensures var data, at := head + (a + b) + c, |head|;
            |data| == at + 96 && data[at..at + 32] == a && data[at + 32..at + 64] == b && data[at + 64..at + 96] == c
  {
  }

  lemma WordsOf(kind: Kind, selector: bytes, user: Address, token: Address, amount: uint256, party: Address)
    requires |selector| == 4
    ensures var data, at := ActionData(kind, selector, user, token, amount, party), if kind.TransferFromAction? then 36 else 4;
            && |data| == at + 96
            && data[at..at + 32] == ToBigEndian(token, 32) && data[at + 32..at + 64] == ToBigEndian(amount, 32)
            && data[at + 64..at + 96] == ToBigEndian(party, 32)
            && (kind.TransferFromAction? ==> data[4..36] == ToBigEndian(user, 32))
  {
    hide ToBigEndian;
    var head := selector + if kind.TransferFromAction? then ToBigEndian(user, 32) else [];
    Slices(head, ToBigEndian(token, 32), ToBigEndian(amount, 32), ToBigEndian(party, 32));
    if kind.TransferFromAction? {
      var data := ActionData(kind, selector, user, token, amount, party);
      assert data[4..36] == head[4..36];
    }
  }

  /** Without an inflow an action works on exactly the arguments encoded in its data; with
      one, token and amount are the inflow's and the parties still those of the data. */
  lemma ArgumentsReadBack(kind: Kind, self: Address, selector: bytes, user: Address, token: Address, amount: uint256, party: Address,
                          inToken: Address, inAmount: uint256)
    requires |selector| == 4
    ensures var data := ActionData(kind, selector, user, token, amount, party);
            var payer := match kind case TransferFromAction => user case TransferAction => self case FeeHandlerAction(_, _, _) => party;
            var payee := if kind.FeeHandlerAction? then kind.provider else party;
            && DecodeArgs(kind, self, Plain(data)) == Ok(Args(payer, token, amount, payee))
            && DecodeArgs(kind, self, WithDataFlowOut(data)) == Ok(Args(payer, token, amount, payee))
            && DecodeArgs(kind, self, WithDataFlowIn(data, EncodePair(inToken, inAmount))) == Ok(Args(payer, inToken, inAmount, payee))
            && DecodeArgs(kind, self, WithDataFlowInAndOut(data, EncodePair(inToken, inAmount))) == Ok(Args(payer, inToken, inAmount, payee))
  {
    hide EncodePair, DecodeWord, DecodeAddress, ActionData, ToBigEndian;
    var data, at := ActionData(kind, selector, user, token, amount, party), if kind.TransferFromAction? then 36 else 4;
    WordsOf(kind, selector, user, token, amount, party);
    WordAt(data, at, token);
    WordAt(data, at + 32, amount);
    WordAt(data, at + 64, party);
    if kind.TransferFromAction? {
      WordAt(data, 4, user);
    }
    PairReadsBack(inToken, inAmount);
  }

  /** A fee of num/den, rounded up. */
  function Fee(amount: uint256, num: uint256, den: uint256): Outcome<uint256>
    requires num <= den
  {
    var product :- SafeMul(amount, num);
    if product < 1 then Revert(SubtractionOverflow)
    else
      MulIsProduct(amount, num);
      Ok(Wrap((product - 1) / den + 1))
  }

  /** What an action moves from payer to payee. */
  function Moved(kind: Kind, amount: uint256): Outcome<uint256>
    requires kind.Deployable()
  {
    if kind.FeeHandlerAction? then Fee(amount, kind.feeNum, kind.feeDen) else Ok(amount)
  }

  /** The amount an action hands to the next one. */
  function PassedOn(kind: Kind, amount: uint256): Outcome<uint256>
    requires kind.Deployable()
  {
    var moved :- Moved(kind, amount);
    if !kind.FeeHandlerAction? then Ok(amount)
    else if amount < moved then Revert(SubtractionOverflow)
    else Ok(amount - moved)
  }

  lemma Multiply(a: nat, b: nat, c: nat)
    requires b <= c
    ensures a * b <= a * c
  {
    Monotone(b, c, a);
    assert b * a == a * b && c * a == a * c;
  }

  lemma CeilingBounds(n: nat, d: nat)
    requires n > 0 && d > 0
    ensures var q := (n - 1) / d + 1; (q - 1) * d < n <= q * d
  {
    var x := (n - 1) / d;
    assert n - 1 == x * d + (n - 1) % d;
    assert (x + 1) * d == x * d + d;
  }

  /** The handler takes exactly the share rounded up, never more than the amount, and fee and
      remainder make up the amount. It refuses exactly when nothing is to be shared, that is
      for a zero amount or a zero rate, or when the product overflows. */
  lemma FeeIsCeiling(amount: uint256, num: uint256, den: uint256)
    requires num <= den
    ensures var kind := FeeHandlerAction(ZERO_ADDRESS, num, den);
            && (PassedOn(kind, amount).Ok? <==> 0 < amount * num < MODULUS)
            && (Fee(amount, num, den).Ok? <==> 0 < amount * num < MODULUS)
            && (0 < amount * num < MODULUS ==>
                  var fee := Fee(amount, num, den).value;
                  && (fee - 1) * den < amount * num <= fee * den
                  && 1 <= fee <= amount && PassedOn(kind, amount).value + fee == amount)
  {
    MulIsProduct(amount, num);
    if 0 < amount * num < MODULUS {
      CeilingBounds(amount * num, den);
      Multiply(amount, num, den);
      var q := (amount * num - 1) / den + 1;
      if q > amount {
        Monotone(amount, q - 1, den);
      }
    }
  }

  /** Why it refuses. */
  lemma FeeRefusals(amount: uint256, num: uint256, den: uint256)
    requires num <= den
    ensures var kind := FeeHandlerAction(ZERO_ADDRESS, num, den);
            && (amount * num >= MODULUS ==> PassedOn(kind, amount) == Revert(MultiplicationOverflow))
            && (amount * num == 0 ==> PassedOn(kind, amount) == Revert(SubtractionOverflow))
  {
    MulIsProduct(amount, num);
  }

  /** So a handler created with rate zero never lets an action through. */
  lemma ZeroRateAlwaysReverts(amount: uint256, den: uint256)
    ensures Fee(amount, 0, den).Revert? && PassedOn(FeeHandlerAction(ZERO_ADDRESS, 0, den), amount).Revert?
  {
    FeeIsCeiling(amount, 0, den);
  }

  // ----- chains -----

  /** How these actions answer the pipeline: they succeed only if their arguments decode and
      their amounts are fine, and return what they pass on. */
  ghost predicate Behaves(kinds: seq<Kind>, self: Address, respond: (nat, Sent) -> Response) {
    forall k: nat, sent: Sent :: k < |kinds| && respond(k, sent).Returned? ==>
      var args := DecodeArgs(kinds[k], self, sent.payload);
      && kinds[k].Deployable()
      && args.Ok? && PassedOn(kinds[k], args.value.amount).Ok?
      && (sent.payload.WithDataFlowOut? || sent.payload.WithDataFlowInAndOut? ==>
            respond(k, sent).outflow == Some(EncodePair(args.value.token, PassedOn(kinds[k], args.value.amount).value)))
  }

  /** Out, InAndOut, ..., InAndOut, In. */
  predicate IsFlow(actions: seq<Action>) {
    && |actions| >= 2
    && actions[0].dataFlow.Out? && actions[|actions| - 1].dataFlow.In?
    && forall k :: 0 < k < |actions| - 1 ==> actions[k].dataFlow.InAndOut?
  }

  /** Such a list passes isValid whenever all its actions speak of the same type of data. */
  lemma FlowsAreValid(actions: seq<Action>, inType: nat -> Option<uint256>, outType: nat -> Option<uint256>, dataType: uint256)
    requires IsFlow(actions)
    requires forall k :: 0 <= k < |actions| ==> inType(k) == Some(dataType) && outType(k) == Some(dataType)
    ensures Accepted(Check(actions, inType, outType, 0, true, 0, 0))
  {
    forall k | 0 <= k < |actions| ensures WellTypedAt(actions, inType, outType, k) {
      if k > 0 {
        assert GivesOut(actions[k - 1]) && LastOut(actions, k) == Some(k - 1);
      }
      if k < |actions| - 1 {
        assert TakesIn(actions[k + 1]);
      }
    }
    IsValidIsExact(actions, inType, outType);
  }

  function ArgsAt(kinds: seq<Kind>, self: Address, trace: seq<Sent>, k: nat): Args
    requires k < |kinds| == |trace|
  {
    match DecodeArgs(kinds[k], self, trace[k].payload)
    case Ok(args) => args
    case Revert(_) => Args(0, 0, 0, 0)
  }

  ghost predicate RunsThrough(actions: seq<Action>, kinds: seq<Kind>, self: Address, respond: (nat, Sent) -> Response) {
    |kinds| == |actions| && IsFlow(actions) && Behaves(kinds, self, respond) && Pipe(actions, 0, [], respond).Ok?
  }

  lemma StepsBehave(actions: seq<Action>, kinds: seq<Kind>, self: Address, respond: (nat, Sent) -> Response, k: nat)
    requires RunsThrough(actions, kinds, self, respond) && k < |actions|
    ensures var trace := Pipe(actions, 0, [], respond).value;
            && |trace| == |actions| && kinds[k].Deployable()
            && DecodeArgs(kinds[k], self, trace[k].payload) == Ok(ArgsAt(kinds, self, trace, k))
            && PassedOn(kinds[k], ArgsAt(kinds, self, trace, k).amount).Ok?
            && Moved(kinds[k], ArgsAt(kinds, self, trace, k).amount).Ok?
  {
    PipedAt(actions, 0, [], respond, k);
    hide Pipe, DecodeArgs;
  }

  lemma DecodesInflow(kind: Kind, self: Address, p: Payload, token: Address, amount: uint256)
    requires p.Inflow() == Some(EncodePair(token, amount)) && DecodeArgs(kind, self, p).Ok?
    ensures DecodeArgs(kind, self, p).value.token == token && DecodeArgs(kind, self, p).value.amount == amount
  {
    hide EncodePair, DecodeWord;
    PairReadsBack(token, amount);
  }

  lemma InflowWasPassedOn(actions: seq<Action>, kinds: seq<Kind>, self: Address, respond: (nat, Sent) -> Response, k: nat)
    requires RunsThrough(actions, kinds, self, respond) && 0 < k < |actions|
    ensures var trace := Pipe(actions, 0, [], respond).value;
            && |trace| == |actions| && kinds[k - 1].Deployable()
            && var before := ArgsAt(kinds, self, trace, k - 1);
            && PassedOn(kinds[k - 1], before.amount).Ok?
            && trace[k].payload.Inflow() == Some(EncodePair(before.token, PassedOn(kinds[k - 1], before.amount).value))
  {
    hide Pipe, DecodeArgs, EncodePair;
    StepsBehave(actions, kinds, self, respond, k - 1);
    EveryInGetsTheLastOut(actions, respond, k);
    PipedAt(actions, 0, [], respond, k - 1);
    assert LastOut(actions, k) == Some(k - 1);
  }

  /** Each action works on the token and amount its predecessor passed on, whatever token
      and amount its own data encodes. */
  lemma AmountsAreLinked(actions: seq<Action>, kinds: seq<Kind>, self: Address, respond: (nat, Sent) -> Response, k: nat)
    requires RunsThrough(actions, kinds, self, respond) && 0 < k < |actions|
    ensures var trace := Pipe(actions, 0, [], respond).value;
            && |trace| == |actions| && kinds[k - 1].Deployable()
            && ArgsAt(kinds, self, trace, k).token == ArgsAt(kinds, self, trace, k - 1).token
            && PassedOn(kinds[k - 1], ArgsAt(kinds, self, trace, k - 1).amount) == Ok(ArgsAt(kinds, self, trace, k).amount)
  {
    hide Pipe, Behaves, DecodeArgs, IsFlow, EncodePair;
    StepsBehave(actions, kinds, self, respond, k);
    StepsBehave(actions, kinds, self, respond, k - 1);
    InflowWasPassedOn(actions, kinds, self, respond, k);
    var trace := Pipe(actions, 0, [], respond).value;
    var before := ArgsAt(kinds, self, trace, k - 1);
    DecodesInflow(kinds[k], self, trace[k].payload, before.token, PassedOn(kinds[k - 1], before.amount).value);
  }

  /** A chain of plain transfers moves the head's token and amount at every step. */
  lemma {:induction false} TransfersMoveTheHeadAmount(actions: seq<Action>, kinds: seq<Kind>, self: Address,
                                                       respond: (nat, Sent) -> Response, k: nat)
    requires RunsThrough(actions, kinds, self, respond) && k < |actions|
    requires forall j :: 0 <= j < |kinds| ==> !kinds[j].FeeHandlerAction?
    ensures var trace := Pipe(actions, 0, [], respond).value;
            && |trace| == |actions|
            && ArgsAt(kinds, self, trace, k).token == ArgsAt(kinds, self, trace, 0).token
            && Moved(kinds[k], ArgsAt(kinds, self, trace, k).amount) == Ok(ArgsAt(kinds, self, trace, 0).amount)
  {
    hide Pipe, Behaves, DecodeArgs, IsFlow;
    StepsBehave(actions, kinds, self, respond, k);
    if k > 0 {
      AmountsAreLinked(actions, kinds, self, respond, k);
      TransfersMoveTheHeadAmount(actions, kinds, self, respond, k - 1);
    }
  }

  // ----- what a chain does to balances -----

  datatype Move = Move(token: Address, payer: Address, payee: Address, amount: uint256, pulled: bool)

  function MoveAt(kinds: seq<Kind>, self: Address, trace: seq<Sent>, k: nat): Move
    requires k < |kinds| == |trace| && kinds[k].Deployable()
  {
    var args := ArgsAt(kinds, self, trace, k);
    Move(args.token, args.payer, args.payee,
         match Moved(kinds[k], args.amount) case Ok(m) => m case Revert(_) => 0,
         kinds[k].TransferFromAction? || args.payer != self)
  }

  /** The first `n` movements of a run. */
  function Moves(kinds: seq<Kind>, self: Address, trace: seq<Sent>, n: nat): (moves: seq<Move>)
    requires n <= |kinds| == |trace| && forall k :: 0 <= k < |kinds| ==> kinds[k].Deployable()
    ensures |moves| == n
  {
    if n == 0 then [] else Moves(kinds, self, trace, n - 1) + [MoveAt(kinds, self, trace, n - 1)]
  }

  function Total(moves: seq<Move>): nat {
    if moves == [] then 0 else Total(moves[..|moves| - 1]) + moves[|moves| - 1].amount
  }

  /** The fees taken so far and the amount still in flight always add up to the head's
      amount. */
  lemma {:induction false} FeesAndRestAddUp(actions: seq<Action>, kinds: seq<Kind>, self: Address,
                                            respond: (nat, Sent) -> Response, k: nat)
    requires RunsThrough(actions, kinds, self, respond) && k < |actions|
    requires forall j :: 0 <= j < |kinds| ==> kinds[j].Deployable()
    requires forall j :: 0 <= j < k ==> kinds[j].FeeHandlerAction?
    ensures var trace := Pipe(actions, 0, [], respond).value;
            && |trace| == |actions|
            && ArgsAt(kinds, self, trace, k).token == ArgsAt(kinds, self, trace, 0).token
            && Total(Moves(kinds, self, trace, k)) + ArgsAt(kinds, self, trace, k).amount == ArgsAt(kinds, self, trace, 0).amount
  {
    hide Pipe, Behaves, DecodeArgs, IsFlow;
    StepsBehave(actions, kinds, self, respond, k);
    if k > 0 {
      AmountsAreLinked(actions, kinds, self, respond, k);
      FeesAndRestAddUp(actions, kinds, self, respond, k - 1);
      StepsBehave(actions, kinds, self, respond, k - 1);
      var trace := Pipe(actions, 0, [], respond).value;
      assert Moves(kinds, self, trace, k)[..k - 1] == Moves(kinds, self, trace, k - 1);
    }
  }

  type Ledger = map<(Address, Address), uint256>

  /** A token transfer, or a payment of ether. transferFrom always calls the token, and there is
      none at ETH_ADDRESS. */
  function Transfer(l: Ledger, m: Move): Outcome<Ledger> {
    if m.token == ETH_ADDRESS && m.pulled then Revert(ActionReverted)
    else if Get(l, (m.token, m.payer)) < m.amount then Revert(ActionReverted)
    else
      var l' := l[(m.token, m.payer) := Get(l, (m.token, m.payer)) - m.amount];
      var credited :- SafeAdd(Get(l', (m.token, m.payee)), m.amount);
      Ok(l'[(m.token, m.payee) := credited])
  }

  function Settle(l: Ledger, moves: seq<Move>): Outcome<Ledger> {
    if moves == [] then Ok(l)
    else
      var l' :- Settle(l, moves[..|moves| - 1]);
      Transfer(l', moves[|moves| - 1])
  }

  lemma TransferConserves(l: Ledger, m: Move)
    requires Transfer(l, m).Ok?
    ensures Sum(Transfer(l, m).value) == Sum(l)
    ensures m.payee != m.payer ==> Get(Transfer(l, m).value, (m.token, m.payer)) + m.amount == Get(l, (m.token, m.payer))
  {
    hide Sum;
    var debited := l[(m.token, m.payer) := Get(l, (m.token, m.payer)) - m.amount];
    SumUpdate(l, (m.token, m.payer), Get(l, (m.token, m.payer)) - m.amount);
    SumUpdate(debited, (m.token, m.payee), Get(debited, (m.token, m.payee)) + m.amount);
  }

  /** Settling moves never creates or destroys tokens, and a payer who is never a payee is
      charged the total. */
  lemma {:induction false} SettlingConserves(l: Ledger, moves: seq<Move>, token: Address, payer: Address)
    requires Settle(l, moves).Ok?
    requires forall k :: 0 <= k < |moves| ==> moves[k].token == token && moves[k].payer == payer && moves[k].payee != payer
    ensures Sum(Settle(l, moves).value) == Sum(l)
    ensures Get(Settle(l, moves).value, (token, payer)) + Total(moves) == Get(l, (token, payer))
  {
    hide Sum, Transfer;
    if moves != [] {
      var last := |moves| - 1;
      SettlingConserves(l, moves[..last], token, payer);
      TransferConserves(Settle(l, moves[..last]).value, moves[last]);
    }
  }

  /** Fee handlers in front of a transfer, all paid by one payer: the payer ends up paying
      exactly the head's amount, fees included, and no token appears or disappears. */
  lemma PayerPaysTheHeadAmount(actions: seq<Action>, kinds: seq<Kind>, self: Address, respond: (nat, Sent) -> Response,
                               l: Ledger, payer: Address)
    requires RunsThrough(actions, kinds, self, respond)
    requires forall j :: 0 <= j < |kinds| ==> kinds[j].Deployable()
    requires forall j :: 0 <= j < |kinds| - 1 ==> kinds[j].FeeHandlerAction?
    requires !kinds[|kinds| - 1].FeeHandlerAction?
    ensures var trace := Pipe(actions, 0, [], respond).value;
            && |trace| == |actions|
            && var after := Settle(l, Moves(kinds, self, trace, |kinds|));
            after.Ok? && PaidBy(kinds, self, trace, payer) ==>
              var head := ArgsAt(kinds, self, trace, 0);
              Get(after.value, (head.token, payer)) + head.amount == Get(l, (head.token, payer)) && Sum(after.value) == Sum(l)
  {
    hide Pipe, Behaves, DecodeArgs;
    var trace := Pipe(actions, 0, [], respond).value;
    var n := |kinds|;
    FeesAndRestAddUp(actions, kinds, self, respond, n - 1);
    if Settle(l, Moves(kinds, self, trace, n)).Ok? && PaidBy(kinds, self, trace, payer) {
      var token := ArgsAt(kinds, self, trace, 0).token;
      var moves := Moves(kinds, self, trace, n);
      assert moves[..n - 1] == Moves(kinds, self, trace, n - 1);
      forall k | 0 <= k < n ensures moves[k] == MoveAt(kinds, self, trace, k) && moves[k].token == token {
        MovesAt(kinds, self, trace, n, k);
        FeesAndRestAddUp(actions, kinds, self, respond, k);
      }
      SettlingConserves(l, moves, token, payer);
    }
  }

  /** One account pays all movements of a run and receives none. */
  predicate PaidBy(kinds: seq<Kind>, self: Address, trace: seq<Sent>, payer: Address)
    requires |trace| == |kinds| && forall j :: 0 <= j < |kinds| ==> kinds[j].Deployable()
  {
    forall k :: 0 <= k < |kinds| ==> MoveAt(kinds, self, trace, k).payer == payer && MoveAt(kinds, self, trace, k).payee != payer
  }

  lemma {:induction false} MovesAt(kinds: seq<Kind>, self: Address, trace: seq<Sent>, n: nat, k: nat)
    requires k < n <= |kinds| == |trace| && forall j :: 0 <= j < |kinds| ==> kinds[j].Deployable()
    ensures Moves(kinds, self, trace, n)[k] == MoveAt(kinds, self, trace, k)
  {
    if k < n - 1 {
      MovesAt(kinds, self, trace, n - 1, k);
    }
  }
}
