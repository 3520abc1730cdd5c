/** What syncs, backfills, clearing and trimming do to a timeline seen as one sequence of entries and
    an event store, without any index. */
module TimelineSpec {
  import opened Options
  import opened PairedTables
  import opened Sequences
  import opened TimelineTables

  /** An event as a response delivers it; redaction holds the redacted id if this is a redaction, and
      hidden says whether the room hides its kind. */
  datatype Event = Event(id: Id, txnId: Id, redaction: Option<Id>, hidden: bool, content: string)

  /** What the event store keeps: a redacted event has lost its content and names its redaction. */
  datatype StoredEvent = StoredEvent(event: Event, redactedBy: Option<Event>)

  datatype Timeline = Timeline(items: seq<Item>, events: map<Id, StoredEvent>)

  ghost predicate Complete(s: Timeline) {
    forall id :: id in Ids(s.items) ==> id in s.events
  }

  function Stored(e: Event): StoredEvent { StoredEvent(e, None) }

  function Redacted(was: StoredEvent, redaction: Event): StoredEvent {
    StoredEvent(was.event.(content := ""), Some(redaction))
  }

  // Forward sync

  /** The state of one sync: until something is stored, the next entry gets the batch token. */
  datatype SyncState = SyncState(t: Timeline, first: bool)

  function TokenFor(first: bool, prevBatch: string): Option<string> {
    if first && prevBatch != "" then Some(prevBatch) else None
  }

  ghost predicate IsEcho(items: seq<Item>, e: Event) {
    e.txnId != "" && e.txnId in Ids(items)
  }

  ghost function IndexOf(items: seq<Item>, id: Id): (i: nat)
    requires id in Ids(items)
    ensures i < |items| && items[i].id == id
  {
    var i :| 0 <= i < |items| && Ids(items)[i] == id; i
  }

  ghost function EchoStep(s: Timeline, e: Event, token: Option<string>): Timeline
    requires IsEcho(s.items, e)
  {
    var i := IndexOf(s.items, e.txnId);
    Timeline(s.items[i := Item(e.id, token, s.items[i].visible)], s.events[e.id := Stored(e)] - {e.txnId})
  }

  lemma EchoComplete(s: Timeline, e: Event, token: Option<string>)
    requires Complete(s) && Distinct(Ids(s.items)) && IsEcho(s.items, e) && e.id !in Ids(s.items)
    ensures Complete(EchoStep(s, e, token))
  {
    var i, ids := IndexOf(s.items, e.txnId), Ids(s.items);
    var ids' := Ids(EchoStep(s, e, token).items);
    forall id | id in ids' ensures id in EchoStep(s, e, token).events {
      var j :| 0 <= j < |ids'| && ids'[j] == id;
      assert j != i ==> ids'[j] == ids[j] && ids[j] != ids[i];
    }
  }

  ghost function RedactionStep(s: Timeline, e: Event, redacts: Id): Timeline {
    if redacts in s.events
    then Timeline(s.items, s.events[redacts := Redacted(s.events[redacts], e)][e.id := Stored(e)])
    else s
  }

  ghost function SyncStep(limited: bool, prevBatch: string, s: SyncState, e: Event): SyncState {
    var token := TokenFor(s.first, prevBatch);
    if e.id == "" then s
    else if IsEcho(s.t.items, e) then SyncState(EchoStep(s.t, e, token), s.first)
    else if e.redaction.Some? then
      if e.redaction.value == "" then s
      else if s.first && limited then
        var kept := Timeline(s.t.items + [Item(e.id, token, false)], s.t.events[e.id := Stored(e)]);
        SyncState(RedactionStep(kept, e, e.redaction.value), false)
      else SyncState(RedactionStep(s.t, e, e.redaction.value), s.first)
    else if e.id in Ids(s.t.items) then SyncState(s.t.(events := s.t.events[e.id := Stored(e)]), s.first)
    else SyncState(Timeline(s.t.items + [Item(e.id, token, !e.hidden)], s.t.events[e.id := Stored(e)]), false)
  }

  ghost function SyncFold(limited: bool, prevBatch: string, s: SyncState, evs: seq<Event>): SyncState {
    if evs == [] then s
    else SyncStep(limited, prevBatch, SyncFold(limited, prevBatch, s, evs[..|evs| - 1]), evs[|evs| - 1])
  }

  ghost function SyncStart(limited: bool, s: Timeline): SyncState {
    SyncState(if limited then s.(items := []) else s, true)
  }

  ghost function Synced(s: Timeline, limited: bool, prevBatch: string, evs: seq<Event>): Timeline {
    if evs == [] then s else SyncFold(limited, prevBatch, SyncStart(limited, s), evs).t
  }

  /** The assumption on an echo: the id the server gave it is not in the timeline yet. */
  ghost predicate StepAllowed(s: SyncState, e: Event) {
    e.id != "" && IsEcho(s.t.items, e) ==> e.id !in Ids(s.t.items)
  }

  ghost predicate SyncAllowed(s: Timeline, limited: bool, prevBatch: string, evs: seq<Event>) {
    forall n :: 0 <= n < |evs| ==> StepAllowed(SyncFold(limited, prevBatch, SyncStart(limited, s), evs[..n]), evs[n])
  }

  /** The assumption on ids: no transaction id of the response is one of its event ids. */
  ghost predicate TxnIdsApart(evs: seq<Event>) {
    forall i, j :: 0 <= i < |evs| && 0 <= j < |evs| && evs[i].txnId != "" ==> evs[i].txnId != evs[j].id
  }

  /** The token from which older messages are fetched. */
  function PreviousBatch(items: seq<Item>): string {
    if items != [] && items[0].prevBatch.Some? then items[0].prevBatch.value else ""
  }

  lemma IdsAppend(items: seq<Item>, x: Item)
    ensures Ids(items + [x]) == Ids(items) + [x.id]
  {
  }

  lemma IdsPrepend(items: seq<Item>, x: Item)
    ensures Ids([x] + items) == [x.id] + Ids(items)
  {
  }

  /** A limited sync leaves the token it came with at the oldest entry, whatever kinds of events the
      response holds. */
  lemma {:induction false} LimitedFold(prevBatch: string, s: SyncState, evs: seq<Event>)
    requires s.t.items == [] && s.first && TxnIdsApart(evs)
    ensures var r := SyncFold(true, prevBatch, s, evs);
            && (r.first <==> r.t.items == [])
            && (r.t.items != [] ==> r.t.items[0].prevBatch == TokenFor(true, prevBatch))
            && (forall id :: id in Ids(r.t.items) ==> exists i :: 0 <= i < |evs| && evs[i].id == id)
  {
    if evs != [] {
      var before, e := evs[..|evs| - 1], evs[|evs| - 1];
      LimitedFold(prevBatch, s, before);
      var r := SyncFold(true, prevBatch, s, before);
      forall id | id in Ids(r.t.items) ensures e.txnId == "" || e.txnId != id {
        var i :| 0 <= i < |before| && before[i].id == id;
        assert evs[i].id == id;
      }
      IdsAppend(r.t.items, Item(e.id, TokenFor(r.first, prevBatch), false));
      IdsAppend(r.t.items, Item(e.id, TokenFor(r.first, prevBatch), !e.hidden));
      forall id | id in Ids(SyncFold(true, prevBatch, s, evs).t.items)
        ensures exists i :: 0 <= i < |evs| && evs[i].id == id
      {
        if id in Ids(r.t.items) {
          var i :| 0 <= i < |before| && before[i].id == id;
          assert evs[i].id == id;
        } else {
          assert evs[|evs| - 1].id == id;
        }
      }
    }
  }

  lemma LimitedSyncKeepsToken(s: Timeline, prevBatch: string, evs: seq<Event>)
    requires evs != [] && TxnIdsApart(evs)
    ensures Synced(s, true, prevBatch, evs).items != [] ==>
              PreviousBatch(Synced(s, true, prevBatch, evs).items) == prevBatch
  {
    LimitedFold(prevBatch, SyncStart(true, s), evs);
  }

  // Backfill

  ghost function BackStep(s: Timeline, e: Event): Timeline {
    if e.redaction.Some? then s
    else Timeline(if e.id in Ids(s.items) then s.items else [Item(e.id, None, !e.hidden)] + s.items,
                  s.events[e.id := Stored(e)])
  }

  ghost function BackFold(s: Timeline, chunk: seq<Event>): Timeline {
    if chunk == [] then s else BackStep(BackFold(s, chunk[..|chunk| - 1]), chunk[|chunk| - 1])
  }

  /** The id of the last event of the chunk that is no redaction, if there is one. */
  ghost function LastId(chunk: seq<Event>): Id {
    if chunk == [] then ""
    else if chunk[|chunk| - 1].redaction.Some? then LastId(chunk[..|chunk| - 1])
    else chunk[|chunk| - 1].id
  }

  /** An event that is no redaction and was not seen before, neither in the timeline nor earlier in the
      chunk. */
  ghost predicate IsNew(s: Timeline, chunk: seq<Event>, i: nat)
    requires i < |chunk|
  {
    && chunk[i].redaction.None? && chunk[i].id !in Ids(s.items)
    && forall j :: 0 <= j < i && chunk[j].redaction.None? ==> chunk[j].id != chunk[i].id
  }

  /** The position of the last new event, -1 if there is none. */
  ghost function LastNew(s: Timeline, chunk: seq<Event>): (k: int)
    ensures -1 <= k < |chunk| && (k >= 0 ==> IsNew(s, chunk, k))
    ensures forall i :: k < i < |chunk| ==> !IsNew(s, chunk, i)
  {
    if chunk == [] then -1
    else if IsNew(s, chunk, |chunk| - 1) then |chunk| - 1
    else
      var front := chunk[..|chunk| - 1];
      assert forall i :: 0 <= i < |front| ==> IsNew(s, front, i) == IsNew(s, chunk, i);
      LastNew(s, front)
  }

  /** Every id that is used as a key is there. An empty key makes the storage layer raise an error. */
  ghost predicate Readable(chunk: seq<Event>) {
    && (forall i :: 0 <= i < |chunk| && chunk[i].redaction.None? ==> chunk[i].id != "")
    && (chunk != [] && LastId(chunk) == "" ==> chunk[|chunk| - 1].id != "")
  }

  /** The chunks backfill keeps the tables consistent for, told from the timeline and the chunk alone: the
      last event that is no redaction is also the last new one, or nothing is new and it is the oldest
      entry already, or all are redactions and the last of them is not in the timeline. */
  ghost predicate Backfillable(s: Timeline, chunk: seq<Event>) {
    chunk != [] ==>
      var k := LastNew(s, chunk);
      if LastId(chunk) == "" then chunk[|chunk| - 1].id !in Ids(s.items)
      else if k >= 0 then chunk[k].id == LastId(chunk)
      else s.items != [] && s.items[0].id == LastId(chunk)
  }

  /** What is listed, and what is the oldest, once all events of a chunk are in. */
  lemma {:induction false} BackFoldLists(s: Timeline, chunk: seq<Event>)
    ensures var items, k := BackFold(s, chunk).items, LastNew(s, chunk);
            && (forall id :: id in Ids(items) <==> id in Ids(s.items) || Brings(chunk, id))
            && (if k < 0 then items == s.items else items != [] && items[0].id == chunk[k].id)
  {
    if chunk != [] {
      var front, e := chunk[..|chunk| - 1], chunk[|chunk| - 1];
      BackFoldLists(s, front);
      var before := BackFold(s, front).items;
      assert front + [e] == chunk;
      BringsOneMore(front, e);
      NewIsNotBrought(s, chunk, |front|);
      IdsPrepend(before, Item(e.id, None, !e.hidden));
    }
  }

  /** The chunk has an event with this id that is no redaction. */
  ghost predicate Brings(chunk: seq<Event>, id: Id) {
    exists i :: 0 <= i < |chunk| && chunk[i].redaction.None? && chunk[i].id == id
  }

  lemma NewIsNotBrought(s: Timeline, chunk: seq<Event>, i: nat)
    requires i < |chunk|
    ensures IsNew(s, chunk, i) <==>
              chunk[i].redaction.None? && chunk[i].id !in Ids(s.items) && !Brings(chunk[..i], chunk[i].id)
  {
    var front := chunk[..i];
    forall j | 0 <= j < i && chunk[j].redaction.None? && chunk[j].id == chunk[i].id ensures Brings(front, chunk[i].id) {
      assert front[j] == chunk[j];
    }
  }

  lemma BringsOneMore(chunk: seq<Event>, e: Event)
    ensures forall id :: Brings(chunk + [e], id) <==> Brings(chunk, id) || (e.redaction.None? && e.id == id)
  {
    var more := chunk + [e];
    assert more[|chunk|] == e;
    forall id | Brings(chunk, id) ensures Brings(more, id) {
      var i :| 0 <= i < |chunk| && chunk[i].redaction.None? && chunk[i].id == id;
      assert more[i] == chunk[i];
    }
  }

  lemma {:induction false} LastIdIsBrought(chunk: seq<Event>)
    ensures LastId(chunk) != "" ==> Brings(chunk, LastId(chunk))
  {
    if chunk != [] {
      var front, e := chunk[..|chunk| - 1], chunk[|chunk| - 1];
      LastIdIsBrought(front);
      BringsOneMore(front, e);
      assert front + [e] == chunk;
    }
  }

  /** The condition is exact: it says whether the last id of the chunk ends up at the lowest index, where
      it is written. */
  lemma BackfillableExactly(s: Timeline, chunk: seq<Event>)
    requires LastId(chunk) != ""
    ensures var items := BackFold(s, chunk).items;
            && items != [] && LastId(chunk) in Ids(items)
            && (Backfillable(s, chunk) <==> items[0].id == LastId(chunk))
  {
    BackFoldLists(s, chunk);
    LastIdIsBrought(chunk);
  }

  ghost function WithOldestToken(items: seq<Item>, end: string): seq<Item>
    requires items != []
  {
    items[0 := items[0].(prevBatch := Some(end))]
  }

  ghost function Backfilled(s: Timeline, chunk: seq<Event>, end: string): Timeline
    requires Backfillable(s, chunk)
  {
    if chunk == [] then
      if s.items == [] then s else s.(items := WithOldestToken(s.items, end))
    else if LastId(chunk) != "" then
      BackfillableExactly(s, chunk);
      var r := BackFold(s, chunk);
      r.(items := WithOldestToken(r.items, end))
    else
      var e := chunk[|chunk| - 1];
      Timeline([Item(e.id, Some(end), false)] + s.items, s.events[e.id := Stored(e)])
  }

  lemma BackfillKeepsToken(s: Timeline, chunk: seq<Event>, end: string)
    requires Backfillable(s, chunk) && (chunk != [] || s.items != [])
    ensures PreviousBatch(Backfilled(s, chunk, end).items) == end
  {
    if LastId(chunk) != "" {
      BackfillableExactly(s, chunk);
    }
  }

  /** Chunks whose last event is new, as pagination normally returns them, are fine. */
  lemma NewLastIsBackfillable(s: Timeline, chunk: seq<Event>)
    requires chunk != [] && chunk[|chunk| - 1].id != "" && IsNew(s, chunk, |chunk| - 1)
    ensures Backfillable(s, chunk)
  {
  }

  /** A chunk that ends with an entry of the timeline is refused unless that is the oldest entry and the
      chunk brings nothing new: backfill then writes that entry's id a second time. */
  lemma KnownLastIsRefused(s: Timeline, chunk: seq<Event>)
    requires LastId(chunk) != "" && LastId(chunk) in Ids(s.items)
    ensures Backfillable(s, chunk) <==> s.items[0].id == LastId(chunk) && LastNew(s, chunk) == -1
  {
  }

  /** Two entries and a chunk that repeats the newer one. */
  lemma RepeatedNewestIsRefused(s: Timeline, e: Event)
    requires |s.items| == 2 && s.items[0].id != s.items[1].id == e.id && e.id != "" && e.redaction.None?
    ensures !Backfillable(s, [e])
  {
    assert Ids(s.items)[1] == e.id;
    assert LastId([e]) == e.id;
    KnownLastIsRefused(s, [e]);
  }

  // Clearing and trimming

  ghost predicate IsNewestToken(items: seq<Item>, k: int) {
    && -1 <= k < |items|
    && (k >= 0 ==> items[k].prevBatch.Some?)
    && (forall i :: k < i < |items| ==> items[i].prevBatch.None?)
  }

  /** The position of the newest entry with a token, -1 if no entry has one. */
  ghost function NewestToken(items: seq<Item>): (k: int)
    ensures IsNewestToken(items, k)
  {
    if items == [] then -1
    else if items[|items| - 1].prevBatch.Some? then |items| - 1
    else NewestToken(items[..|items| - 1])
  }

  lemma NewestTokenIsUnique(items: seq<Item>, j: int, k: int)
    requires IsNewestToken(items, j) && IsNewestToken(items, k)
    ensures j == k
  {
  }

  lemma IdSetGrows(items: seq<Item>, i: nat, j: nat)
    requires i < j <= |items|
    ensures IdSet(Ids(items)[i..j]) == IdSet(Ids(items)[i + 1..j]) + {items[i].id}
    ensures IdSet(Ids(items)[i..j]) == IdSet(Ids(items)[i..j - 1]) + {items[j - 1].id}
  {
    assert Ids(items)[i..j] == [items[i].id] + Ids(items)[i + 1..j];
    assert Ids(items)[i..j] == Ids(items)[i..j - 1] + [items[j - 1].id];
  }

  ghost function DropOldest(s: Timeline, k: nat): Timeline
    requires k <= |s.items|
  {
    Timeline(s.items[k..], s.events - IdSet(Ids(s.items)[0..k]))
  }

  /** Everything older than the newest batch is dropped. */
  ghost function Cleared(s: Timeline): Timeline {
    var k := NewestToken(s.items);
    if k < 0 then s else DropOldest(s, k)
  }

  /** All but the newest max + 1 entries are dropped. */
  ghost function Trimmed(s: Timeline, max: nat): Timeline {
    if |s.items| <= max + 1 then s else DropOldest(s, |s.items| - max - 1)
  }

  lemma TrimmedIsNewest(s: Timeline, max: nat)
    ensures |Trimmed(s, max).items| == if |s.items| < max + 1 then |s.items| else max + 1
    ensures Trimmed(s, max).items == s.items[|s.items| - |Trimmed(s, max).items|..]
  {
  }

  lemma DropKeepsComplete(s: Timeline, k: nat)
    requires Complete(s) && Distinct(Ids(s.items)) && k <= |s.items|
    ensures Complete(DropOldest(s, k))
  {
    var ids := Ids(s.items);
    assert Ids(s.items[k..]) == ids[k..];
    forall id | id in ids[k..] ensures id in s.events && id !in ids[0..k] {
      var i :| k <= i < |ids| && ids[i] == id;
    }
  }

  // Read receipts

  /** j is the newest visible entry not after i, or the oldest entry if there is none. */
  ghost predicate IsLastVisible(items: seq<Item>, i: nat, j: nat) {
    && j <= i < |items| && (items[j].visible || j == 0)
    && (forall k :: j < k <= i ==> !items[k].visible)
  }

  /** j is the last of the hidden entries that directly follow i, or i itself. */
  ghost predicate IsLastHiddenAfter(items: seq<Item>, i: nat, j: nat) {
    && i <= j < |items| && (j + 1 < |items| ==> items[j + 1].visible)
    && (forall k :: i < k <= j ==> !items[k].visible)
  }

  ghost function LastVisible(items: seq<Item>, i: nat): (j: nat)
    requires i < |items|
    ensures IsLastVisible(items, i, j)
  {
    if items[i].visible || i == 0 then i else LastVisible(items, i - 1)
  }

  ghost function LastHiddenAfter(items: seq<Item>, i: nat): (j: nat)
    requires i < |items|
    ensures IsLastHiddenAfter(items, i, j)
    decreases |items| - i
  {
    if i + 1 < |items| && !items[i + 1].visible then LastHiddenAfter(items, i + 1) else i
  }

  lemma LastVisibleStep(items: seq<Item>, i: nat)
    requires i < |items|
    ensures LastVisible(items, i) == if items[i].visible || i == 0 then i else LastVisible(items, i - 1)
  {
  }

  lemma LastHiddenStep(items: seq<Item>, i: nat)
    requires i < |items|
    ensures LastHiddenAfter(items, i) ==
            if i + 1 < |items| && !items[i + 1].visible then LastHiddenAfter(items, i + 1) else i
  {
  }

  /** Moving to the last hidden entry after an event does not change which event is seen as read. */
  lemma SameLastVisible(items: seq<Item>, i: nat)
    requires i < |items|
    ensures LastVisible(items, LastHiddenAfter(items, i)) == LastVisible(items, i)
  {
    var j := LastHiddenAfter(items, i);
    var a, b := LastVisible(items, i), LastVisible(items, j);
    assert b <= i;
  }

  // Runs

  datatype Step =
    | Sync(limited: bool, prevBatch: string, evs: seq<Event>)
    | LocalEcho(message: Event)
    | Backfill(chunk: seq<Event>, end: string)
    | Clear
    | Trim(max: nat)
  {
    ghost function AddsForward(): nat {
      match this
      case Sync(_, _, evs) => |evs|
      case LocalEcho(_) => 1
      case _ => 0
    }

    ghost function AddsBackward(): nat {
      if Backfill? then |chunk| else 0
    }
  }

  ghost predicate Allowed(s: Timeline, step: Step) {
    match step
    case Sync(limited, prevBatch, evs) => SyncAllowed(s, limited, prevBatch, evs)
    case LocalEcho(message) => SyncAllowed(s, false, "", [message])
    case Backfill(chunk, _) => Readable(chunk) ==> Backfillable(s, chunk)
    case _ => true
  }

  ghost function Apply(s: Timeline, step: Step): Timeline
    requires Allowed(s, step)
  {
    match step
    case Sync(limited, prevBatch, evs) => Synced(s, limited, prevBatch, evs)
    case LocalEcho(message) => Synced(s, false, "", [message])
    case Backfill(chunk, end) => if Readable(chunk) then Backfilled(s, chunk, end) else s
    case Clear => Cleared(s)
    case Trim(max) => Trimmed(s, max)
  }

  /** Every step of the run meets its assumptions when its turn comes. */
  ghost predicate RunAllowed(s: Timeline, run: seq<Step>)
    decreases |run|, 0
  {
    run != [] ==> RunAllowed(s, run[..|run| - 1]) && Allowed(ApplyAll(s, run[..|run| - 1]), run[|run| - 1])
  }

  ghost function ApplyAll(s: Timeline, run: seq<Step>): Timeline
    requires RunAllowed(s, run)
    decreases |run|, 1
  {
    if run == [] then s else Apply(ApplyAll(s, run[..|run| - 1]), run[|run| - 1])
  }

  ghost function TotalForward(run: seq<Step>): nat {
    if run == [] then 0 else TotalForward(run[..|run| - 1]) + run[|run| - 1].AddsForward()
  }

  ghost function TotalBackward(run: seq<Step>): nat {
    if run == [] then 0 else TotalBackward(run[..|run| - 1]) + run[|run| - 1].AddsBackward()
  }

  lemma {:induction false} PrefixesAllowed(s: Timeline, run: seq<Step>, n: nat)
    requires RunAllowed(s, run) && n < |run|
    ensures RunAllowed(s, run[..n]) && RunAllowed(s, run[..n + 1]) && Allowed(ApplyAll(s, run[..n]), run[n])
    ensures TotalForward(run[..n + 1]) == TotalForward(run[..n]) + run[n].AddsForward() <= TotalForward(run)
    ensures TotalBackward(run[..n + 1]) == TotalBackward(run[..n]) + run[n].AddsBackward() <= TotalBackward(run)
    decreases |run|
  {
    var front := run[..|run| - 1];
    if n < |front| {
      PrefixesAllowed(s, front, n);
      assert front[..n] == run[..n] && front[..n + 1] == run[..n + 1];
    } else {
      assert run[..n + 1] == run && run[..n] == front;
    }
  }
}
