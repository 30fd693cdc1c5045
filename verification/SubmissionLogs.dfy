/** Finding a task receipt among the LogTaskSubmitted events: the block window of the query,
    and the positional lookup by receipt id. */
module SubmissionLogs {
  import opened Evm
  import opened JavaScript
  import G = GelatoTypes
  import GelatoState
  import Core
  import Guarantees

  /** An event on chain, in the order of emission. */
  datatype Entry = Entry(block: nat, receipt: G.TaskReceipt)

  /** What the node is asked for; `toBlock` None is "latest". A block hash is given by the
      number of its block. */
  datatype Filter = InBlock(block: nat) | InRange(fromBlock: nat, toBlock: Option<nat>)

  /** Block numbers are truthy unless zero. */
  predicate Given(block: Option<nat>) {
    block.Some? && block.value != 0
  }

  /** Defaults fill a missing start, and a missing or zero end; zero counts as an end that
      was not given also in the checks. */
  method BuildFilter(blockhash: Option<nat>, fromblock: Option<nat>, toblock: Option<nat>,
                     defaultFromBlock: nat, defaultToBlock: Option<nat>) returns (r: Attempt<Filter>)
    ensures var fromGiven, toGiven := fromblock.Some? && fromblock.value > 0, toblock.Some? && toblock.value > 0;
            if fromGiven && toGiven && fromblock.value > toblock.value then r == Thrown(FromBlockAfterToBlock)
            else if blockhash.Some? then
              r == if fromGiven || toGiven then Thrown(BlocksAlongsideHash) else Done(InBlock(blockhash.value))
            else
              r == Done(InRange(if fromblock.Some? then fromblock.value else defaultFromBlock,
                                if toGiven then toblock else defaultToBlock))
  {
    if Given(fromblock) && Given(toblock) {
      if fromblock.value > toblock.value { return Thrown(FromBlockAfterToBlock); }
    }
    if (Given(fromblock) || Given(toblock)) && blockhash.Some? { return Thrown(BlocksAlongsideHash); }
    var from, to := fromblock, toblock;
    if blockhash.None? {
      if from.None? { from := Some(defaultFromBlock); }
      if !Given(to) { to := defaultToBlock; }
      return Done(InRange(from.value, to));
    }
    return Done(InBlock(blockhash.value));
  }

  predicate Matches(f: Filter, block: nat) {
    match f
    case InBlock(b) => block == b
    case InRange(from, to) => from <= block && (to.Some? ==> block <= to.value)
  }

  /** The events the node answers with, in order. */
  function GetLogs(entries: seq<Entry>, f: Filter): seq<Entry> {
    if entries == [] then []
    else
      var last := |entries| - 1;
      GetLogs(entries[..last], f) + if Matches(f, entries[last].block) then [entries[last]] else []
  }

  /** `parsedLogs[parseInt(id) - 1].taskReceipt`; an empty answer is an error. */
  function FetchTaskReceipt(entries: seq<Entry>, f: Filter, id: nat): Attempt<G.TaskReceipt> {
    var logs := GetLogs(entries, f);
    if 1 <= id <= |logs| then Done(logs[id - 1].receipt) else Thrown(NoEventsFound)
  }

  /** Looking for the id itself. */
  function FindById(logs: seq<Entry>, id: nat): Attempt<G.TaskReceipt> {
    if logs == [] then Thrown(NoEventsFound)
    else if logs[0].receipt.id == id then Done(logs[0].receipt)
    else FindById(logs[1..], id)
  }

  // ----- on a chain whose ids count the submissions -----

  /** Blocks never go back and ids are 1, 2, 3, ... */
  ghost predicate WellNumbered(entries: seq<Entry>) {
    && (forall i, j :: 0 <= i < j < |entries| ==> entries[i].block <= entries[j].block)
    && (forall i :: 0 <= i < |entries| ==> entries[i].receipt.id == i + 1)
  }

  function Start(f: Filter): nat {
    match f case InBlock(b) => b case InRange(from, _) => from
  }

  predicate BeforeEnd(f: Filter, block: nat) {
    match f
    case InBlock(b) => block <= b
    case InRange(_, to) => to.Some? ==> block <= to.value
  }

  /** How many events were emitted before the first block of the window. */
  function Before(entries: seq<Entry>, f: Filter): (n: nat)
    ensures n <= |entries|
  {
    if entries == [] then 0
    else
      var last := |entries| - 1;
      Before(entries[..last], f) + if entries[last].block < Start(f) then 1 else 0
  }

  /** How many events were emitted up to the last block of the window. */
  function UpTo(entries: seq<Entry>, f: Filter): (n: nat)
    ensures n <= |entries|
  {
    if entries == [] then 0
    else
      var last := |entries| - 1;
      UpTo(entries[..last], f) + if BeforeEnd(f, entries[last].block) then 1 else 0
  }

  /** Both counts split the events at a position. */
  lemma {:induction false} CountsSplit(entries: seq<Entry>, f: Filter, k: nat)
    requires WellNumbered(entries) && k < |entries|
    ensures k < Before(entries, f) <==> entries[k].block < Start(f)
    ensures k < UpTo(entries, f) <==> BeforeEnd(f, entries[k].block)
  {
    var last := |entries| - 1;
    var rest := entries[..last];
    assert WellNumbered(rest) && forall j :: 0 <= j < last ==> rest[j].block <= entries[last].block;
    hide WellNumbered;
    if k < last {
      CountsSplit(rest, f, k);
      if entries[last].block < Start(f) { AllCounted(rest, f); }
      if BeforeEnd(f, entries[last].block) { AllCounted(rest, f); }
    } else {
      if entries[last].block < Start(f) { AllCounted(rest, f); }
      if BeforeEnd(f, entries[last].block) { AllCounted(rest, f); }
    }
  }

  lemma {:induction false} AllCounted(entries: seq<Entry>, f: Filter)
    ensures (forall k :: 0 <= k < |entries| ==> entries[k].block < Start(f)) ==> Before(entries, f) == |entries|
    ensures (forall k :: 0 <= k < |entries| ==> BeforeEnd(f, entries[k].block)) ==> UpTo(entries, f) == |entries|
  {
    if entries != [] {
      AllCounted(entries[..|entries| - 1], f);
    }
  }

  /** What the last event adds to the answer and to the two counts. */
  lemma LastEvent(entries: seq<Entry>, f: Filter)
    requires WellNumbered(entries) && entries != []
    ensures var last := |entries| - 1;
            var rest, block := entries[..last], entries[last].block;
            && WellNumbered(rest)
            && GetLogs(entries, f) == GetLogs(rest, f) + (if Matches(f, block) then [entries[last]] else [])
            && Before(entries, f) == Before(rest, f) + (if block < Start(f) then 1 else 0)
            && UpTo(entries, f) == UpTo(rest, f) + (if BeforeEnd(f, block) then 1 else 0)
            && (Matches(f, block) <==> Start(f) <= block && BeforeEnd(f, block))
            && (block < Start(f) ==> Before(rest, f) == last)
            && (BeforeEnd(f, block) ==> UpTo(rest, f) == last)
  {
    var last := |entries| - 1;
    var rest, block := entries[..last], entries[last].block;
    assert forall k :: 0 <= k < last ==> rest[k].block <= block;
    AllCounted(rest, f);
  }

  /** The answer is a contiguous stretch of the events, starting behind those before the window. */
  lemma {:induction false} WindowIsContiguous(entries: seq<Entry>, f: Filter)
    requires WellNumbered(entries)
    ensures var lo, hi, logs := Before(entries, f), UpTo(entries, f), GetLogs(entries, f);
            && |logs| == (if lo <= hi then hi - lo else 0)
            && lo + |logs| <= |entries|
            && forall k :: 0 <= k < |logs| ==> logs[k] == entries[lo + k]
  {
    if entries != [] {
      hide WellNumbered, GetLogs, Before, UpTo, Matches, BeforeEnd, Start;
      LastEvent(entries, f);
      var rest := entries[..|entries| - 1];
      WindowIsContiguous(rest, f);
      Stretched(entries, GetLogs(rest, f), Before(rest, f), Before(entries, f), Matches(f, entries[|entries| - 1].block));
    }
  }

  /** A stretch grows by the last event, or it stays, or it is still empty and moves on. */
  lemma Stretched(entries: seq<Entry>, logs: seq<Entry>, lo: nat, newLo: nat, grows: bool)
    requires entries != [] && lo + |logs| < |entries| && forall k :: 0 <= k < |logs| ==> logs[k] == entries[lo + k]
    requires grows ==> newLo == lo && lo + |logs| == |entries| - 1
    requires !grows ==> newLo == lo || (logs == [] && newLo <= |entries|)
    ensures var all := logs + if grows then [entries[|entries| - 1]] else [];
            newLo + |all| <= |entries| && forall k :: 0 <= k < |all| ==> all[k] == entries[newLo + k]
  {
  }

  /** The positional lookup answers with the receipt whose id is larger by the number of
      submissions before the window. */
  lemma FetchIsShifted(entries: seq<Entry>, f: Filter, id: nat)
    requires WellNumbered(entries)
    ensures var r := FetchTaskReceipt(entries, f, id);
            r.Done? ==> r.value.id == Before(entries, f) + id
  {
    WindowIsContiguous(entries, f);
  }

  /** It answers exactly for the numbers up to the number of events in the window, counted from
      the first one in it. */
  lemma FetchIsExact(entries: seq<Entry>, f: Filter, id: nat)
    requires WellNumbered(entries)
    ensures var r, before := FetchTaskReceipt(entries, f, id), Before(entries, f);
            if 1 <= id && before + id <= UpTo(entries, f) then r == Done(entries[before + id - 1].receipt)
            else r == Thrown(NoEventsFound)
  {
    WindowIsContiguous(entries, f);
  }

  lemma {:induction false} FindsInWindow(logs: seq<Entry>, lo: nat, id: nat)
    requires forall k :: 0 <= k < |logs| ==> logs[k].receipt.id == lo + k + 1
    ensures FindById(logs, id) == if lo < id <= lo + |logs| then Done(logs[id - lo - 1].receipt) else Thrown(NoEventsFound)
  {
    if logs != [] {
      FindsInWindow(logs[1..], lo + 1, id);
    }
  }

  /** It agrees with searching for the id, whatever the id, exactly when nothing was
      submitted before the window, or nothing in it. */
  lemma PositionIsSearch(entries: seq<Entry>, f: Filter)
    requires WellNumbered(entries)
    ensures (forall id: nat :: FetchTaskReceipt(entries, f, id) == FindById(GetLogs(entries, f), id)) <==>
            Before(entries, f) == 0 || GetLogs(entries, f) == []
  {
    var lo, logs := Before(entries, f), GetLogs(entries, f);
    WindowIsContiguous(entries, f);
    forall id: nat
      ensures FindById(logs, id) == if lo < id <= lo + |logs| then Done(logs[id - lo - 1].receipt) else Thrown(NoEventsFound)
    {
      FindsInWindow(logs, lo, id);
    }
    if lo > 0 && logs != [] {
      assert FetchTaskReceipt(entries, f, 1) != FindById(logs, 1);
    }
  }

  // ----- on every run of GelatoCore -----

  /** The events of a run; `blockOf` says in which block each of them ended up. */
  function Emitted(submitted: seq<G.TaskReceipt>, blockOf: nat -> nat): seq<Entry> {
    seq(|submitted|, i requires 0 <= i < |submitted| => Entry(blockOf(i), submitted[i]))
  }

  /** Whatever was submitted and resubmitted, a window that reaches from the first submission
      to the requested one finds the requested receipt at its position. */
  lemma FetchFindsTheReceipt(params: GelatoState.Params, txs: seq<Core.Tx>, blockOf: nat -> nat, f: Filter, id: nat)
    requires forall i: nat, j: nat :: i <= j ==> blockOf(i) <= blockOf(j)
    ensures var submitted := Core.RunAll(GelatoState.Deployed(params), txs).logs.submitted;
            1 <= id <= |submitted| && Matches(f, blockOf(0)) && Matches(f, blockOf(id - 1)) ==>
              FetchTaskReceipt(Emitted(submitted, blockOf), f, id) == Done(submitted[id - 1])
  {
    hide Core.RunAll, GelatoState.Deployed;
    var submitted := Core.RunAll(GelatoState.Deployed(params), txs).logs.submitted;
    var entries := Emitted(submitted, blockOf);
    forall k | 0 <= k < |submitted| ensures submitted[k].id == k + 1 {
      Guarantees.IdsAreConsecutive(params, txs, k);
    }
    if 1 <= id <= |submitted| && Matches(f, blockOf(0)) && Matches(f, blockOf(id - 1)) {
      WindowIsContiguous(entries, f);
      CountsSplit(entries, f, 0);
      CountsSplit(entries, f, id - 1);
    }
  }
}
