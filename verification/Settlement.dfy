/** Who holds what once the movements of a run are settled. */
module Settlement {
  import opened Evm
  import Bytes
  import opened GelatoTypes
  import opened ActionPipeline
  import opened TokenFlow

  // ----- what an action moves -----

  /** From whom and to whom an action moves what, going by the arguments its calldata encodes:
      token and amount are those of the inflow where there is one. */
  lemma MovementOfData(kinds: seq<Kind>, self: Address, trace: seq<Sent>, k: nat, selector: Bytes.bytes, user: Address,
                       token: Address, amount: uint256, party: Address, inToken: Address, inAmount: uint256)
    requires k < |kinds| == |trace| && kinds[k].Deployable() && |selector| == 4
    requires trace[k].payload.data == ActionData(kinds[k], selector, user, token, amount, party)
    requires trace[k].payload.Inflow().Some? ==> trace[k].payload.Inflow() == Some(EncodePair(inToken, inAmount))
    ensures var m, kind, piped := MoveAt(kinds, self, trace, k), kinds[k], trace[k].payload.Inflow().Some?;
            var handled := if piped then inAmount else amount;
            && m.token == (if piped then inToken else token)
            && m.payer == (if kind.TransferFromAction? then user else if kind.TransferAction? then self else party)
            && m.payee == (if kind.FeeHandlerAction? then kind.provider else party)
            && (!kind.FeeHandlerAction? ==> m.amount == handled)
            && (kind.FeeHandlerAction? && 0 < handled * kind.feeNum < MODULUS ==> IsShare(m.amount, handled, kind.feeNum, kind.feeDen))
            && (m.pulled <==> kind.TransferFromAction? || (kind.FeeHandlerAction? && party != self))
  {
    hide DecodeArgs, ActionData, EncodePair, Fee;
    ArgumentsReadBack(kinds[k], self, selector, user, token, amount, party, inToken, inAmount);
    var p := trace[k].payload;
    assert p == Plain(p.data) || p == WithDataFlowOut(p.data) || p == WithDataFlowIn(p.data, EncodePair(inToken, inAmount))
           || p == WithDataFlowInAndOut(p.data, EncodePair(inToken, inAmount));
    if kinds[k].FeeHandlerAction? {
      FeeIsCeiling(if p.Inflow().Some? then inAmount else amount, kinds[k].feeNum, kinds[k].feeDen);
    }
  }

  /** So ether is never pulled: a run in which an action would pull it cannot be settled. */
  lemma EtherIsNeverPulled(kinds: seq<Kind>, self: Address, trace: seq<Sent>, l: Ledger, k: nat)
    requires |kinds| == |trace| && k < |kinds| && forall j :: 0 <= j < |kinds| ==> kinds[j].Deployable()
    requires MoveAt(kinds, self, trace, k).token == ETH_ADDRESS
    requires kinds[k].TransferFromAction? || MoveAt(kinds, self, trace, k).payer != self
    ensures Settle(l, Moves(kinds, self, trace, |kinds|)).Revert?
  {
    hide MoveAt, Settle, Due;
    var moves := Moves(kinds, self, trace, |kinds|);
    MovesAt(kinds, self, trace, |kinds|, k);
    SettlingIsExact(l, moves);
    assert MoveAt(kinds, self, trace, k).pulled by { PulledFromOthers(kinds, self, trace, k); }
    assert !CanMove(l, moves[..k], moves[k]);
  }

  lemma PulledFromOthers(kinds: seq<Kind>, self: Address, trace: seq<Sent>, k: nat)
    requires k < |kinds| == |trace| && kinds[k].Deployable()
    requires kinds[k].TransferFromAction? || MoveAt(kinds, self, trace, k).payer != self
    ensures MoveAt(kinds, self, trace, k).pulled
  {
  }

  // ----- any movements -----

  /** What an account was sent in one token. */
  function Earned(moves: seq<Move>, token: Address, account: Address): nat {
    if moves == [] then 0
    else
      var last := moves[|moves| - 1];
      Earned(moves[..|moves| - 1], token, account) + if last.token == token && last.payee == account then last.amount else 0
  }

  /** What an account paid in one token. */
  function Spent(moves: seq<Move>, token: Address, account: Address): nat {
    if moves == [] then 0
    else
      var last := moves[|moves| - 1];
      Spent(moves[..|moves| - 1], token, account) + if last.token == token && last.payer == account then last.amount else 0
  }

  /** What an account should hold after `moves`. */
  function Due(l: Ledger, moves: seq<Move>, token: Address, account: Address): int {
    Get(l, (token, account)) + Earned(moves, token, account) - Spent(moves, token, account)
  }

  /** The payer has the amount and the payee has room for it, counting what came before. Ether
      cannot be pulled. */
  predicate CanMove(l: Ledger, before: seq<Move>, m: Move) {
    && !(m.token == ETH_ADDRESS && m.pulled)
    && m.amount <= Due(l, before, m.token, m.payer)
    && (m.payee != m.payer ==> Due(l, before, m.token, m.payee) + m.amount < MODULUS)
  }

  /** When a single movement can be made, why it cannot, and whom it changes. */
  lemma MovingIsExact(l: Ledger, m: Move)
    ensures var r := Transfer(l, m);
            && (r.Ok? <==>
                  && !(m.token == ETH_ADDRESS && m.pulled)
                  && m.amount <= Get(l, (m.token, m.payer))
                  && (m.payee != m.payer ==> Get(l, (m.token, m.payee)) + m.amount < MODULUS))
            && (r.Revert? ==>
                  r.error == if (m.token == ETH_ADDRESS && m.pulled) || m.amount > Get(l, (m.token, m.payer)) then ActionReverted
                             else AdditionOverflow)
            && (r.Ok? ==> forall token, a ::
                  Get(r.value, (token, a)) == Get(l, (token, a))
                                              + (if token == m.token && a == m.payee then m.amount else 0)
                                              - (if token == m.token && a == m.payer then m.amount else 0))
  {
  }

  /** Movements are settled exactly when each of them can be made after those before it. Every
      account then holds what it held, plus all it was sent, minus all it paid. */
  lemma {:induction false} SettlingIsExact(l: Ledger, moves: seq<Move>)
    ensures var r := Settle(l, moves);
            && (r.Ok? <==> forall k :: 0 <= k < |moves| ==> CanMove(l, moves[..k], moves[k]))
            && (r.Ok? ==> forall token, a :: Get(r.value, (token, a)) == Due(l, moves, token, a))
  {
    if moves != [] {
      var n := |moves| - 1;
      var init, last := moves[..n], moves[n];
      hide Transfer, CanMove, Due;
      SettlingIsExact(l, init);
      AllCanMove(l, moves);
      if Settle(l, init).Ok? {
        OneMoreMove(l, Settle(l, init).value, moves);
      }
    }
  }

  lemma AllCanMove(l: Ledger, moves: seq<Move>)
    requires moves != []
    ensures var n := |moves| - 1;
            (forall k :: 0 <= k < |moves| ==> CanMove(l, moves[..k], moves[k])) <==>
            (forall k :: 0 <= k < n ==> CanMove(l, moves[..n][..k], moves[..n][k])) && CanMove(l, moves[..n], moves[n])
  {
    hide CanMove;
    var n := |moves| - 1;
    assert forall k :: 0 <= k < n ==> moves[..n][..k] == moves[..k] && moves[..n][k] == moves[k];
  }

  lemma OneMoreMove(l: Ledger, before: Ledger, moves: seq<Move>)
    requires moves != [] && forall token, a :: Get(before, (token, a)) == Due(l, moves[..|moves| - 1], token, a)
    ensures var r, last := Transfer(before, moves[|moves| - 1]), moves[|moves| - 1];
            && (r.Ok? <==> CanMove(l, moves[..|moves| - 1], last))
            && (r.Ok? ==> forall token, a :: Get(r.value, (token, a)) == Due(l, moves, token, a))
  {
    var init, last := moves[..|moves| - 1], moves[|moves| - 1];
    MovingIsExact(before, last);
    hide Transfer;
    assert Get(before, (last.token, last.payer)) == Due(l, init, last.token, last.payer);
    assert Get(before, (last.token, last.payee)) == Due(l, init, last.token, last.payee);
  }

  lemma {:induction false} NeverNamed(moves: seq<Move>, token: Address, account: Address)
    ensures (forall k :: 0 <= k < |moves| ==> moves[k].payee != account || moves[k].token != token) ==> Earned(moves, token, account) == 0
    ensures (forall k :: 0 <= k < |moves| ==> moves[k].payer != account || moves[k].token != token) ==> Spent(moves, token, account) == 0
  {
    if moves != [] {
      NeverNamed(moves[..|moves| - 1], token, account);
    }
  }

  lemma {:induction false} NamedOnce(moves: seq<Move>, k: nat)
    requires k < |moves| && forall j :: 0 <= j < |moves| && j != k ==> moves[j].payee != moves[k].payee
    ensures Earned(moves, moves[k].token, moves[k].payee) == moves[k].amount
  {
    var n := |moves| - 1;
    if k == n {
      NeverNamed(moves[..n], moves[k].token, moves[k].payee);
    } else {
      NamedOnce(moves[..n], k);
    }
  }

  /** One payer, one token: who is paid by a single movement gains it, and who is paid by none
      gains nothing. */
  lemma OnePayer(l: Ledger, moves: seq<Move>, token: Address, payer: Address)
    requires Settle(l, moves).Ok?
    requires forall k :: 0 <= k < |moves| ==> moves[k].token == token && moves[k].payer == payer && moves[k].payee != payer
    ensures var after := Settle(l, moves).value;
            && (forall k :: 0 <= k < |moves| && (forall j :: 0 <= j < |moves| && j != k ==> moves[j].payee != moves[k].payee) ==>
                  Get(after, (token, moves[k].payee)) == Get(l, (token, moves[k].payee)) + moves[k].amount)
            && (forall t, a :: (t != token || (a != payer && forall k :: 0 <= k < |moves| ==> moves[k].payee != a)) ==>
                  Get(after, (t, a)) == Get(l, (t, a)))
  {
    hide Settle, Earned, Spent;
    SettlingIsExact(l, moves);
    var after := Settle(l, moves).value;
    forall k | 0 <= k < |moves| && forall j :: 0 <= j < |moves| && j != k ==> moves[j].payee != moves[k].payee
      ensures Get(after, (token, moves[k].payee)) == Get(l, (token, moves[k].payee)) + moves[k].amount
    {
      NamedOnce(moves, k);
      NeverNamed(moves, token, moves[k].payee);
    }
    forall t, a | t != token || (a != payer && forall k :: 0 <= k < |moves| ==> moves[k].payee != a)
      ensures Get(after, (t, a)) == Get(l, (t, a))
    {
      NeverNamed(moves, t, a);
    }
  }

  // ----- fee handlers in front of a transfer -----

  /** A share of num/den, rounded up. */
  predicate IsShare(fee: nat, amount: nat, num: nat, den: nat) {
    (fee - 1) * den < amount * num <= fee * den
  }

  /** What the `k`-th movement of such a run is. */
  predicate IsPart(kinds: seq<Kind>, moves: seq<Move>, token: Address, amount: nat, k: nat)
    requires k < |moves| == |kinds|
  {
    && moves[k].token == token && Total(moves[..k]) <= amount
    && var rest := amount - Total(moves[..k]);
    if kinds[k].FeeHandlerAction? then moves[k].payee == kinds[k].provider && IsShare(moves[k].amount, rest, kinds[k].feeNum, kinds[k].feeDen)
    else moves[k].amount == rest
  }

  lemma {:induction false} MovesPrefix(kinds: seq<Kind>, self: Address, trace: seq<Sent>, n: nat, k: nat)
    requires k <= n <= |kinds| == |trace| && forall j :: 0 <= j < |kinds| ==> kinds[j].Deployable()
    ensures Moves(kinds, self, trace, n)[..k] == Moves(kinds, self, trace, k)
  {
    if k < n {
      MovesPrefix(kinds, self, trace, n - 1, k);
      assert Moves(kinds, self, trace, n)[..n - 1] == Moves(kinds, self, trace, n - 1);
    }
  }

  lemma ToTheProvider(kinds: seq<Kind>, self: Address, trace: seq<Sent>, k: nat)
    requires k < |kinds| == |trace| && kinds[k].FeeHandlerAction? && DecodeArgs(kinds[k], self, trace[k].payload).Ok?
    ensures ArgsAt(kinds, self, trace, k).payee == kinds[k].provider
  {
  }

  /** Each fee handler in front of a transfer moves the share of what is in flight, rounded up,
      to its provider; the transfer moves what is left of the head's amount. */
  lemma PartsOfTheHead(actions: seq<Action>, kinds: seq<Kind>, self: Address, respond: (nat, Sent) -> Response, k: nat)
    requires RunsThrough(actions, kinds, self, respond) && k < |kinds|
    requires forall j :: 0 <= j < |kinds| ==> kinds[j].Deployable()
    requires forall j :: 0 <= j < |kinds| ==> (kinds[j].FeeHandlerAction? <==> j < |kinds| - 1)
    ensures var trace := Pipe(actions, 0, [], respond).value;
            && |trace| == |actions|
            && var head := ArgsAt(kinds, self, trace, 0);
            IsPart(kinds, Moves(kinds, self, trace, |kinds|), head.token, head.amount, k)
  {
    hide Pipe, Behaves, DecodeArgs, IsFlow;
    FeesAndRestAddUp(actions, kinds, self, respond, k);
    StepsBehave(actions, kinds, self, respond, k);
    var trace := Pipe(actions, 0, [], respond).value;
    MovesAt(kinds, self, trace, |kinds|, k);
    MovesPrefix(kinds, self, trace, |kinds|, k);
    if kinds[k].FeeHandlerAction? {
      ToTheProvider(kinds, self, trace, k);
      FeeIsCeiling(ArgsAt(kinds, self, trace, k).amount, kinds[k].feeNum, kinds[k].feeDen);
    }
  }

  lemma AllParts(actions: seq<Action>, kinds: seq<Kind>, self: Address, respond: (nat, Sent) -> Response)
    requires RunsThrough(actions, kinds, self, respond)
    requires forall j :: 0 <= j < |kinds| ==> kinds[j].Deployable()
    requires forall j :: 0 <= j < |kinds| ==> (kinds[j].FeeHandlerAction? <==> j < |kinds| - 1)
    ensures var trace := Pipe(actions, 0, [], respond).value;
            && |trace| == |actions| >= 2
            && var moves, head := Moves(kinds, self, trace, |kinds|), ArgsAt(kinds, self, trace, 0);
            forall k :: 0 <= k < |kinds| ==> IsPart(kinds, moves, head.token, head.amount, k)
  {
    hide Pipe, Behaves, DecodeArgs, IsPart, ArgsAt, Moves;
    PartsOfTheHead(actions, kinds, self, respond, 0);
    var trace := Pipe(actions, 0, [], respond).value;
    var moves, head := Moves(kinds, self, trace, |kinds|), ArgsAt(kinds, self, trace, 0);
    forall k | 0 <= k < |kinds| ensures IsPart(kinds, moves, head.token, head.amount, k) {
      PartsOfTheHead(actions, kinds, self, respond, k);
    }
  }

  lemma PaidByOne(kinds: seq<Kind>, self: Address, trace: seq<Sent>, token: Address, amount: nat, payer: Address)
    requires |trace| == |kinds| && (forall j :: 0 <= j < |kinds| ==> kinds[j].Deployable()) && PaidBy(kinds, self, trace, payer)
    requires forall k :: 0 <= k < |kinds| ==> IsPart(kinds, Moves(kinds, self, trace, |kinds|), token, amount, k)
    ensures var moves := Moves(kinds, self, trace, |kinds|);
            forall k :: 0 <= k < |kinds| ==> moves[k].token == token && moves[k].payer == payer && moves[k].payee != payer
  {
    hide Moves, MoveAt;
    var moves := Moves(kinds, self, trace, |kinds|);
    forall k | 0 <= k < |kinds| ensures moves[k].token == token && moves[k].payer == payer && moves[k].payee != payer {
      MovesAt(kinds, self, trace, |kinds|, k);
      assert IsPart(kinds, moves, token, amount, k);
    }
  }

  /** Fee handlers in front of a transfer, all paid by one payer to different payees: each
      handler's provider gains its fee, the last payee gains the rest of the head's amount, and
      nobody else gains or loses anything. */
  lemma EverybodyGetsTheirPart(actions: seq<Action>, kinds: seq<Kind>, self: Address, respond: (nat, Sent) -> Response,
                               l: Ledger, payer: Address)
    requires RunsThrough(actions, kinds, self, respond)
    requires forall j :: 0 <= j < |kinds| ==> kinds[j].Deployable()
    requires forall j :: 0 <= j < |kinds| ==> (kinds[j].FeeHandlerAction? <==> j < |kinds| - 1)
    ensures var trace := Pipe(actions, 0, [], respond).value;
            && |trace| == |actions|
            && var moves, head := Moves(kinds, self, trace, |kinds|), ArgsAt(kinds, self, trace, 0);
            var after := Settle(l, moves);
            && (forall k :: 0 <= k < |kinds| ==> IsPart(kinds, moves, head.token, head.amount, k))
            && (after.Ok? && PaidBy(kinds, self, trace, payer) ==>
                  && (forall k :: 0 <= k < |kinds| && (forall j :: 0 <= j < |kinds| && j != k ==> moves[j].payee != moves[k].payee) ==>
                        Get(after.value, (head.token, moves[k].payee)) == Get(l, (head.token, moves[k].payee)) + moves[k].amount)
                  && Get(after.value, (head.token, payer)) == Get(l, (head.token, payer)) - head.amount
                  && (forall token, a :: (token != head.token || (a != payer && forall k :: 0 <= k < |kinds| ==> moves[k].payee != a)) ==>
                        Get(after.value, (token, a)) == Get(l, (token, a))))
  {
    hide Pipe, Behaves, DecodeArgs, Settle, IsPart, PaidBy, ArgsAt, Moves;
    AllParts(actions, kinds, self, respond);
    var trace := Pipe(actions, 0, [], respond).value;
    var moves, head := Moves(kinds, self, trace, |kinds|), ArgsAt(kinds, self, trace, 0);
    PayerPaysTheHeadAmount(actions, kinds, self, respond, l, payer);
    if Settle(l, moves).Ok? && PaidBy(kinds, self, trace, payer) {
      PaidByOne(kinds, self, trace, head.token, head.amount, payer);
      OnePayer(l, moves, head.token, payer);
    }
  }
}
