/** What a sync and a backfill leave behind, told from the timeline and the response alone: which events
    are listed and where, which of them as messages, with which token, and what is stored for them. */
module TimelineMeaning {
  import opened Options
  import opened PairedTables
  import opened Sequences
  import opened TimelineSpec
  import opened TimelineTables

  // Forward sync

  /** The event is the first of the response that answers a local echo in the timeline. */
  ghost predicate EchoAt(start: seq<Item>, evs: seq<Event>, i: nat)
    requires i < |evs|
  {
    && evs[i].id != "" && evs[i].txnId != "" && evs[i].txnId in Ids(start)
    && forall j :: 0 <= j < i && evs[j].id != "" ==> evs[j].txnId != evs[i].txnId
  }

  /** The event is a redaction that a limited sync begins with, leaving out events without effect. It is
      kept for the token. */
  ghost predicate KeptAt(limited: bool, evs: seq<Event>, i: nat)
    requires i < |evs|
  {
    && limited && evs[i].id != "" && evs[i].redaction.Some? && evs[i].redaction != Some("")
    && forall j :: 0 <= j < i ==> evs[j].id == "" || evs[j].redaction == Some("")
  }

  /** Once the event is through, its id is in the timeline. */
  ghost predicate PutAt(limited: bool, start: seq<Item>, evs: seq<Event>, i: nat)
    requires i < |evs|
  {
    evs[i].id != "" && (EchoAt(start, evs, i) || evs[i].redaction.None? || KeptAt(limited, evs, i))
  }

  /** The id of the event is in the timeline before it, from the start or by an earlier event. */
  ghost predicate KnownAt(limited: bool, start: seq<Item>, evs: seq<Event>, i: nat)
    requires i < |evs|
  {
    evs[i].id in Ids(start) || exists j :: 0 <= j < i && evs[j].id == evs[i].id && PutAt(limited, start, evs, j)
  }

  /** The event gets an entry of its own. */
  ghost predicate AddedAt(limited: bool, start: seq<Item>, evs: seq<Event>, i: nat)
    requires i < |evs|
  {
    PutAt(limited, start, evs, i) && !EchoAt(start, evs, i) && !KnownAt(limited, start, evs, i)
  }

  ghost function AddedBefore(limited: bool, start: seq<Item>, evs: seq<Event>, n: nat): nat
    requires n <= |evs|
  {
    if n == 0 then 0
    else AddedBefore(limited, start, evs, n - 1) + if AddedAt(limited, start, evs, n - 1) then 1 else 0
  }

  lemma {:induction false} AddedGrows(limited: bool, start: seq<Item>, evs: seq<Event>, i: nat, n: nat)
    requires i < n <= |evs|
    ensures AddedBefore(limited, start, evs, i) <= AddedBefore(limited, start, evs, n)
    ensures AddedAt(limited, start, evs, i) ==>
              AddedBefore(limited, start, evs, i) < AddedBefore(limited, start, evs, n)
    decreases n
  {
    if i < n - 1 {
      AddedGrows(limited, start, evs, i, n - 1);
    }
  }

  /** The token an entry gets that is written before event i is through: that of the response until
      something was added. */
  ghost function TokenAt(limited: bool, start: seq<Item>, evs: seq<Event>, prevBatch: string, i: nat): Option<string>
    requires i <= |evs|
  {
    if AddedBefore(limited, start, evs, i) == 0 && prevBatch != "" then Some(prevBatch) else None
  }

  ghost predicate Answered(start: seq<Item>, evs: seq<Event>, n: nat, txnId: Id)
    requires n <= |evs|
  {
    exists i :: 0 <= i < n && EchoAt(start, evs, i) && evs[i].txnId == txnId
  }

  ghost predicate Put(limited: bool, start: seq<Item>, evs: seq<Event>, n: nat, id: Id)
    requires n <= |evs|
  {
    exists i :: 0 <= i < n && evs[i].id == id && PutAt(limited, start, evs, i)
  }

  /** The entries a sync starts from after n events: an echo that was answered has the answer's id and
      token, and every entry is as visible as before. */
  ghost predicate OldEntries(limited: bool, prevBatch: string, start: seq<Item>, evs: seq<Event>, n: nat,
                             items: seq<Item>)
    requires n <= |evs|
  {
    && |start| <= |items|
    && (forall j :: 0 <= j < |start| ==> items[j].visible == start[j].visible)
    && (forall j :: 0 <= j < |start| && !Answered(start, evs, n, start[j].id) ==> items[j] == start[j])
    && (forall i, j :: 0 <= i < n && 0 <= j < |start| && EchoAt(start, evs, i) && evs[i].txnId == start[j].id ==>
          items[j].id == evs[i].id && items[j].prevBatch == TokenAt(limited, start, evs, prevBatch, i))
  }

  /** The new entries, in the order of the events they are for. A redaction is never visible, any other
      event is unless the room hides its kind. */
  ghost predicate NewEntries(limited: bool, prevBatch: string, start: seq<Item>, evs: seq<Event>, n: nat,
                             items: seq<Item>)
    requires n <= |evs|
  {
    && |items| == |start| + AddedBefore(limited, start, evs, n)
    && forall i :: 0 <= i < n && AddedAt(limited, start, evs, i) ==>
         NewEntry(limited, prevBatch, start, evs, i, items, |start| + AddedBefore(limited, start, evs, i))
  }

  ghost predicate NewEntry(limited: bool, prevBatch: string, start: seq<Item>, evs: seq<Event>, i: nat,
                           items: seq<Item>, k: nat)
    requires i < |evs|
  {
    k < |items| &&
    items[k] == Item(evs[i].id, TokenAt(limited, start, evs, prevBatch, i), evs[i].redaction.None? && !evs[i].hidden)
  }

  ghost predicate ListedIds(limited: bool, start: seq<Item>, evs: seq<Event>, n: nat, items: seq<Item>)
    requires n <= |evs|
  {
    forall id :: id in Ids(items) <==>
      (id in Ids(start) && !Answered(start, evs, n, id)) || Put(limited, start, evs, n, id)
  }

  /** Among the events with a transaction id that is in the timeline, one is the first. */
  lemma {:induction false} FirstAnswer(start: seq<Item>, evs: seq<Event>, j: nat, n: nat)
    requires j < n <= |evs| && evs[j].id != "" && evs[j].txnId != "" && evs[j].txnId in Ids(start)
    ensures Answered(start, evs, n, evs[j].txnId)
    decreases j
  {
    if !EchoAt(start, evs, j) {
      var k :| 0 <= k < j && evs[k].id != "" && evs[k].txnId == evs[j].txnId;
      FirstAnswer(start, evs, k, n);
    }
  }

  /** Whether an event is an echo, and whether its id is known, is what the closed forms say. */
  lemma EventIs(limited: bool, start: seq<Item>, evs: seq<Event>, n: nat, items: seq<Item>)
    requires TxnIdsApart(evs) && n < |evs| && evs[n].id != "" && ListedIds(limited, start, evs, n, items)
    ensures IsEcho(items, evs[n]) <==> EchoAt(start, evs, n)
    ensures evs[n].id in Ids(items) <==> KnownAt(limited, start, evs, n)
  {
    hide PutAt;
    var e := evs[n];
    if e.txnId != "" && e.txnId in Ids(start) {
      if exists j :: 0 <= j < n && evs[j].id != "" && evs[j].txnId == e.txnId {
        var j :| 0 <= j < n && evs[j].id != "" && evs[j].txnId == e.txnId;
        FirstAnswer(start, evs, j, n);
      }
    }
  }

  /** A limited sync has added nothing exactly as long as its events had no effect. */
  lemma {:induction false} NothingAdded(evs: seq<Event>, n: nat)
    requires n <= |evs|
    ensures AddedBefore(true, [], evs, n) == 0 <==>
              forall j :: 0 <= j < n ==> evs[j].id == "" || evs[j].redaction == Some("")
  {
    if n > 0 {
      NothingAdded(evs, n - 1);
      if AddedBefore(true, [], evs, n - 1) == 0 {
        assert !KnownAt(true, [], evs, n - 1);
      }
    }
  }

  /** No entry but an old one has an id that is no event's. */
  ghost predicate NewIds(start: seq<Item>, evs: seq<Event>, n: nat, items: seq<Item>)
    requires n <= |evs|
  {
    forall k :: |start| <= k < |items| ==> IsEventId(evs, n, items[k].id)
  }

  ghost predicate IsEventId(evs: seq<Event>, n: nat, id: Id)
    requires n <= |evs|
  {
    exists i :: 0 <= i < n && evs[i].id == id
  }

  lemma EventIdsOneMore(evs: seq<Event>, n: nat)
    requires n < |evs|
    ensures forall id :: IsEventId(evs, n, id) ==> IsEventId(evs, n + 1, id)
    ensures IsEventId(evs, n + 1, evs[n].id)
  {
    forall id | IsEventId(evs, n, id) ensures IsEventId(evs, n + 1, id) {
      var i :| 0 <= i < n && evs[i].id == id;
    }
  }

  /** What the closed forms say after n events. */
  ghost predicate Reached(limited: bool, prevBatch: string, start: seq<Item>, evs: seq<Event>, n: nat,
                          items: seq<Item>, first: bool)
    requires n <= |evs|
  {
    && NewEntries(limited, prevBatch, start, evs, n, items) && OldEntries(limited, prevBatch, start, evs, n, items)
    && ListedIds(limited, start, evs, n, items) && NewIds(start, evs, n, items)
    && (first <==> AddedBefore(limited, start, evs, n) == 0)
  }

  lemma AnsweredOneMore(start: seq<Item>, evs: seq<Event>, n: nat)
    requires n < |evs|
    ensures forall txnId :: Answered(start, evs, n + 1, txnId) <==>
              Answered(start, evs, n, txnId) || (EchoAt(start, evs, n) && evs[n].txnId == txnId)
  {
    hide EchoAt;
    forall txnId | Answered(start, evs, n, txnId) ensures Answered(start, evs, n + 1, txnId) {
      var i :| 0 <= i < n && EchoAt(start, evs, i) && evs[i].txnId == txnId;
    }
    if EchoAt(start, evs, n) {
      assert Answered(start, evs, n + 1, evs[n].txnId);
    }
  }

  lemma PutOneMore(limited: bool, start: seq<Item>, evs: seq<Event>, n: nat)
    requires n < |evs|
    ensures forall id :: Put(limited, start, evs, n + 1, id) <==>
              Put(limited, start, evs, n, id) || (PutAt(limited, start, evs, n) && evs[n].id == id)
  {
    hide PutAt;
    forall id | Put(limited, start, evs, n, id) ensures Put(limited, start, evs, n + 1, id) {
      var i :| 0 <= i < n && evs[i].id == id && PutAt(limited, start, evs, i);
    }
    if PutAt(limited, start, evs, n) {
      assert Put(limited, start, evs, n + 1, evs[n].id);
    }
  }

  /** An event that adds no entry and answers no echo. */
  lemma ReachedUnchanged(limited: bool, prevBatch: string, start: seq<Item>, evs: seq<Event>, n: nat,
                         items: seq<Item>, first: bool)
    requires n < |evs| && Reached(limited, prevBatch, start, evs, n, items, first)
    requires !EchoAt(start, evs, n) && !AddedAt(limited, start, evs, n)
    requires PutAt(limited, start, evs, n) ==> evs[n].id in Ids(items)
    ensures Reached(limited, prevBatch, start, evs, n + 1, items, first)
  {
    hide EchoAt, PutAt, AddedAt, Answered, Put, IsEventId;
    AnsweredOneMore(start, evs, n);
    PutOneMore(limited, start, evs, n);
    EventIdsOneMore(evs, n);
  }

  /** An event that gets an entry of its own. */
  lemma ReachedAdded(limited: bool, prevBatch: string, start: seq<Item>, evs: seq<Event>, n: nat, items: seq<Item>,
                     first: bool,
                     x: Item)
    requires n < |evs| && Reached(limited, prevBatch, start, evs, n, items, first)
    requires !EchoAt(start, evs, n) && AddedAt(limited, start, evs, n) && PutAt(limited, start, evs, n)
    requires x == Item(evs[n].id, TokenFor(first, prevBatch), evs[n].redaction.None? && !evs[n].hidden)
    ensures Reached(limited, prevBatch, start, evs, n + 1, items + [x], false)
  {
    hide EchoAt, PutAt, AddedAt, Answered, Put, IsEventId, NewEntries;
    AnsweredOneMore(start, evs, n);
    PutOneMore(limited, start, evs, n);
    EventIdsOneMore(evs, n);
    IdsAppend(items, x);
    AddedNewEntries(limited, prevBatch, start, evs, n, items, first, x);
  }

  lemma AddedNewEntries(limited: bool, prevBatch: string, start: seq<Item>, evs: seq<Event>, n: nat,
                        items: seq<Item>, first: bool,
                        x: Item)
    requires n < |evs| && AddedAt(limited, start, evs, n)
    requires NewEntries(limited, prevBatch, start, evs, n, items)
    requires first <==> AddedBefore(limited, start, evs, n) == 0
    requires x == Item(evs[n].id, TokenFor(first, prevBatch), evs[n].redaction.None? && !evs[n].hidden)
    ensures NewEntries(limited, prevBatch, start, evs, n + 1, items + [x])
  {
    hide AddedAt;
    var more := items + [x];
    forall i | 0 <= i <= n && AddedAt(limited, start, evs, i)
      ensures NewEntry(limited, prevBatch, start, evs, i, more, |start| + AddedBefore(limited, start, evs, i))
    {
      if i < n {
        AddedGrows(limited, start, evs, i, n);
        assert NewEntry(limited, prevBatch, start, evs, i, items, |start| + AddedBefore(limited, start, evs, i));
      }
    }
  }

  /** The echo an event answers is an entry the sync started from. */
  lemma AnsweredEntry(limited: bool, prevBatch: string, start: seq<Item>, evs: seq<Event>, n: nat, items: seq<Item>,
                      first: bool,
                      k: nat)
    requires TxnIdsApart(evs) && n < |evs| && Reached(limited, prevBatch, start, evs, n, items, first)
    requires EchoAt(start, evs, n) && k < |items| && items[k].id == evs[n].txnId
    ensures k < |start| && start[k].id == evs[n].txnId
  {
    hide NewEntries, ListedIds, EchoAt;
    forall j | |start| <= j < |items| ensures items[j].id != evs[n].txnId || evs[n].txnId == "" {
      var i :| 0 <= i < n && evs[i].id == items[j].id;
    }
    forall j | 0 <= j < |start| && Answered(start, evs, n, start[j].id)
      ensures items[j].id != evs[n].txnId || evs[n].txnId == ""
    {
      var i :| 0 <= i < n && EchoAt(start, evs, i) && evs[i].txnId == start[j].id;
      assert items[j].id == evs[i].id;
    }
    EchoHasTxnId(start, evs, n);
  }

  lemma EchoHasTxnId(start: seq<Item>, evs: seq<Event>, n: nat)
    requires n < |evs| && EchoAt(start, evs, n)
    ensures evs[n].txnId != "" && evs[n].txnId in Ids(start)
  {
  }

  lemma ReachedEcho(limited: bool, prevBatch: string, start: seq<Item>, evs: seq<Event>, n: nat, items: seq<Item>,
                    first: bool,
                    k: nat)
    requires TxnIdsApart(evs) && Distinct(Ids(start)) && n < |evs|
    requires Reached(limited, prevBatch, start, evs, n, items, first)
    requires EchoAt(start, evs, n) && k < |items| && items[k].id == evs[n].txnId
    ensures Reached(limited, prevBatch, start, evs, n + 1,
                    items[k := Item(evs[n].id, TokenFor(first, prevBatch), items[k].visible)], first)
  {
    AnsweredEntry(limited, prevBatch, start, evs, n, items, first, k);
    var x := Item(evs[n].id, TokenFor(first, prevBatch), items[k].visible);
    var items' := items[k := x];
    assert Ids(start)[k] == evs[n].txnId;
    EchoOldEntries(limited, prevBatch, start, evs, n, items, first, k, items');
    EchoNewEntries(limited, prevBatch, start, evs, n, items, first, k, items');
    EchoListedIds(limited, prevBatch, start, evs, n, items, first, k, items');
  }

  lemma EchoOldEntries(limited: bool, prevBatch: string, start: seq<Item>, evs: seq<Event>, n: nat,
                       items: seq<Item>, first: bool,
                       k: nat, items': seq<Item>)
    requires Distinct(Ids(start)) && n < |evs| && Reached(limited, prevBatch, start, evs, n, items, first)
    requires EchoAt(start, evs, n) && k < |start| && start[k].id == evs[n].txnId
    requires items' == items[k := Item(evs[n].id, TokenFor(first, prevBatch), items[k].visible)]
    ensures OldEntries(limited, prevBatch, start, evs, n + 1, items')
  {
    hide Answered, NewEntries, ListedIds, NewIds;
    AnsweredOneMore(start, evs, n);
    forall j | 0 <= j < |start| && j != k ensures start[j].id != start[k].id {
      assert Ids(start)[j] != Ids(start)[k];
    }
    forall i | 0 <= i < n && EchoAt(start, evs, i) ensures evs[i].txnId != evs[n].txnId {
      assert evs[i].id != "";
    }
    forall i, j | 0 <= i < n + 1 && 0 <= j < |start| && EchoAt(start, evs, i) && evs[i].txnId == start[j].id
      ensures items'[j].id == evs[i].id && items'[j].prevBatch == TokenAt(limited, start, evs, prevBatch, i)
    {
      if i == n {
        assert j == k;
      } else {
        assert j != k;
      }
    }
  }

  lemma EchoNewEntries(limited: bool, prevBatch: string, start: seq<Item>, evs: seq<Event>, n: nat,
                       items: seq<Item>, first: bool,
                       k: nat, items': seq<Item>)
    requires n < |evs| && Reached(limited, prevBatch, start, evs, n, items, first)
    requires EchoAt(start, evs, n) && k < |start| && |items'| == |items|
    requires forall j :: |start| <= j < |items| ==> items'[j] == items[j]
    ensures NewEntries(limited, prevBatch, start, evs, n + 1, items') && NewIds(start, evs, n + 1, items')
  {
    hide EchoAt, PutAt, KnownAt, OldEntries, ListedIds, IsEventId;
    EventIdsOneMore(evs, n);
    assert !AddedAt(limited, start, evs, n);
    forall i | 0 <= i < n && AddedAt(limited, start, evs, i)
      ensures NewEntry(limited, prevBatch, start, evs, i, items', |start| + AddedBefore(limited, start, evs, i))
    {
      assert NewEntry(limited, prevBatch, start, evs, i, items, |start| + AddedBefore(limited, start, evs, i));
    }
  }

  lemma EchoListedIds(limited: bool, prevBatch: string, start: seq<Item>, evs: seq<Event>, n: nat, items: seq<Item>,
                      first: bool,
                      k: nat, items': seq<Item>)
    requires TxnIdsApart(evs) && n < |evs| && Reached(limited, prevBatch, start, evs, n, items, first)
    requires Distinct(Ids(start)) && EchoAt(start, evs, n) && k < |start| && start[k].id == evs[n].txnId
    requires items[k].id == evs[n].txnId
    requires items' == items[k := Item(evs[n].id, TokenFor(first, prevBatch), items[k].visible)]
    ensures ListedIds(limited, start, evs, n + 1, items')
  {
    AnsweredOneMore(start, evs, n);
    PutOneMore(limited, start, evs, n);
    forall j | 0 <= j < |items| && items[j].id == evs[n].txnId ensures j == k {
      AnsweredEntry(limited, prevBatch, start, evs, n, items, first, j);
      assert Ids(start)[j] == Ids(start)[k];
    }
    hide OldEntries, NewEntries, NewIds, Answered, Put, Distinct;
    assert PutAt(limited, start, evs, n);
    forall id ensures id in Ids(items') <==> id == evs[n].id || (id in Ids(items) && id != evs[n].txnId) {
      if id in Ids(items) && id != evs[n].txnId {
        var j :| 0 <= j < |items| && Ids(items)[j] == id;
        assert Ids(items')[j] == id;
      }
      assert Ids(items')[k] == evs[n].id;
      if id in Ids(items') && id != evs[n].id {
        var j :| 0 <= j < |items'| && Ids(items')[j] == id;
        assert Ids(items)[j] == id;
      }
    }
    assert !Put(limited, start, evs, n, evs[n].txnId) by { NotPut(limited, start, evs, n); }
  }

  lemma NotPut(limited: bool, start: seq<Item>, evs: seq<Event>, n: nat)
    requires TxnIdsApart(evs) && n < |evs| && evs[n].txnId != ""
    ensures !Put(limited, start, evs, n, evs[n].txnId)
  {
  }

  /** A sync does what the closed forms say, event by event. */
  lemma {:induction false} SyncReaches(s: Timeline, limited: bool, prevBatch: string, evs: seq<Event>, n: nat)
    requires TxnIdsApart(evs) && Distinct(Ids(s.items)) && n <= |evs| && (limited ==> s.items == [])
    ensures var r := SyncFold(limited, prevBatch, SyncState(s, true), evs[..n]);
            Reached(limited, prevBatch, s.items, evs, n, r.t.items, r.first)
  {
    hide SyncStep, Reached;
    if n == 0 {
      assert evs[..0] == [];
      NothingReached(limited, prevBatch, s.items, evs);
    } else {
      SyncReaches(s, limited, prevBatch, evs, n - 1);
      assert evs[..n][..n - 1] == evs[..n - 1];
      var before := SyncFold(limited, prevBatch, SyncState(s, true), evs[..n - 1]);
      StepReaches(limited, prevBatch, s.items, evs, n - 1, before);
    }
  }

  lemma NothingReached(limited: bool, prevBatch: string, start: seq<Item>, evs: seq<Event>)
    ensures Reached(limited, prevBatch, start, evs, 0, start, true)
  {
    hide EchoAt, PutAt, AddedAt;
  }

  lemma StepReaches(limited: bool, prevBatch: string, start: seq<Item>, evs: seq<Event>, n: nat, r: SyncState)
    requires TxnIdsApart(evs) && Distinct(Ids(start)) && n < |evs| && (limited ==> start == [])
    requires Reached(limited, prevBatch, start, evs, n, r.t.items, r.first)
    ensures var r' := SyncStep(limited, prevBatch, r, evs[n]);
            Reached(limited, prevBatch, start, evs, n + 1, r'.t.items, r'.first)
  {
    hide Reached, KnownAt, Distinct, OldEntries, NewEntries, NewIds, EchoAt, KeptAt;
    var e, items := evs[n], r.t.items;
    if e.id == "" {
      NoIdNoEcho(start, evs, n);
      ReachedUnchanged(limited, prevBatch, start, evs, n, items, r.first);
    } else {
      ReachedSays(limited, prevBatch, start, evs, n, items, r.first);
      EventIs(limited, start, evs, n, items);
      KeptIs(limited, start, evs, n);
      if EchoAt(start, evs, n) {
        var k := IndexOf(items, e.txnId);
        ReachedEcho(limited, prevBatch, start, evs, n, items, r.first, k);
      } else if AddedAt(limited, start, evs, n) {
        ReachedAdded(limited, prevBatch, start, evs, n, items, r.first,
                     Item(e.id, TokenFor(r.first, prevBatch), e.redaction.None? && !e.hidden));
      } else {
        ReachedUnchanged(limited, prevBatch, start, evs, n, items, r.first);
      }
    }
  }

  lemma NoIdNoEcho(start: seq<Item>, evs: seq<Event>, n: nat)
    requires n < |evs| && evs[n].id == ""
    ensures !EchoAt(start, evs, n)
  {
  }

  lemma ReachedSays(limited: bool, prevBatch: string, start: seq<Item>, evs: seq<Event>, n: nat, items: seq<Item>,
                    first: bool)
    requires n <= |evs| && Reached(limited, prevBatch, start, evs, n, items, first)
    ensures ListedIds(limited, start, evs, n, items) && (first <==> AddedBefore(limited, start, evs, n) == 0)
  {
  }

  /** A redaction is kept exactly if the sync is limited and has added nothing yet; then its id is new. */
  lemma KeptIs(limited: bool, start: seq<Item>, evs: seq<Event>, n: nat)
    requires n < |evs| && (limited ==> start == []) && evs[n].id != ""
    ensures KeptAt(limited, evs, n) <==>
              && limited && evs[n].redaction.Some? && evs[n].redaction != Some("")
              && AddedBefore(limited, start, evs, n) == 0
    ensures KeptAt(limited, evs, n) ==> !KnownAt(limited, start, evs, n)
  {
    if limited {
      NothingAdded(evs, n);
    }
  }

  // Messages

  /** The entry at position j of the timeline has this id after the sync. */
  ghost predicate Becomes(start: seq<Item>, evs: seq<Event>, j: nat, id: Id)
    requires j < |start|
  {
    || (id == start[j].id && !Answered(start, evs, |evs|, id))
    || exists i :: 0 <= i < |evs| && EchoAt(start, evs, i) && evs[i].txnId == start[j].id && evs[i].id == id
  }

  /** Which ids are listed as messages after a sync: those of the visible entries that were there, under
      the new id where an echo was answered, and those of the events that were added, are no redaction
      and are not hidden. */
  ghost predicate MessageAfter(limited: bool, start: seq<Item>, evs: seq<Event>, id: Id) {
    || (exists j :: 0 <= j < |start| && start[j].visible && Becomes(start, evs, j, id))
    || (exists i :: 0 <= i < |evs| && evs[i].id == id && AddedAt(limited, start, evs, i)
                    && evs[i].redaction.None? && !evs[i].hidden)
  }

  lemma {:induction false} ShownIs(items: seq<Item>, id: Id)
    ensures id in Shown(items) <==> exists k :: 0 <= k < |items| && items[k].visible && items[k].id == id
  {
    if items != [] {
      var front := items[..|items| - 1];
      ShownIs(front, id);
      if k :| 0 <= k < |front| && front[k].visible && front[k].id == id {
        assert items[k] == front[k];
      }
    }
  }

  /** Every new entry is that of some event. */
  lemma {:induction false} NewEntryOf(limited: bool, start: seq<Item>, evs: seq<Event>, n: nat, c: nat) returns (i: nat)
    requires n <= |evs| && c < AddedBefore(limited, start, evs, n)
    ensures i < n && AddedAt(limited, start, evs, i) && AddedBefore(limited, start, evs, i) == c
  {
    if c < AddedBefore(limited, start, evs, n - 1) {
      i := NewEntryOf(limited, start, evs, n - 1, c);
    } else {
      i := n - 1;
    }
  }

  lemma OldEntryBecomes(limited: bool, prevBatch: string, start: seq<Item>, evs: seq<Event>, items: seq<Item>, j: nat)
    requires OldEntries(limited, prevBatch, start, evs, |evs|, items) && j < |start|
    ensures forall id :: Becomes(start, evs, j, id) <==> items[j].id == id
  {
    hide EchoAt;
    if Answered(start, evs, |evs|, start[j].id) {
      var i :| 0 <= i < |evs| && EchoAt(start, evs, i) && evs[i].txnId == start[j].id;
      assert items[j].id == evs[i].id;
      assert Becomes(start, evs, j, evs[i].id);
    }
  }

  lemma ShownIsMessage(limited: bool, prevBatch: string, start: seq<Item>, evs: seq<Event>, items: seq<Item>, k: nat)
    requires OldEntries(limited, prevBatch, start, evs, |evs|, items)
    requires NewEntries(limited, prevBatch, start, evs, |evs|, items)
    requires k < |items| && items[k].visible
    ensures MessageAfter(limited, start, evs, items[k].id)
  {
    hide AddedAt, EchoAt, Becomes;
    if k < |start| {
      OldEntryBecomes(limited, prevBatch, start, evs, items, k);
      assert start[k].visible && Becomes(start, evs, k, items[k].id);
    } else {
      var i := NewEntryOf(limited, start, evs, |evs|, k - |start|);
      assert NewEntry(limited, prevBatch, start, evs, i, items, k);
    }
  }

  lemma MessageIsShown(limited: bool, prevBatch: string, start: seq<Item>, evs: seq<Event>, items: seq<Item>, id: Id)
    requires OldEntries(limited, prevBatch, start, evs, |evs|, items)
    requires NewEntries(limited, prevBatch, start, evs, |evs|, items)
    requires MessageAfter(limited, start, evs, id)
    ensures exists k :: 0 <= k < |items| && items[k].visible && items[k].id == id
  {
    hide AddedAt, EchoAt, Becomes;
    if j: nat :| j < |start| && start[j].visible && Becomes(start, evs, j, id) {
      OldEntryBecomes(limited, prevBatch, start, evs, items, j);
      assert items[j].visible && items[j].id == id;
    } else {
      var i: nat :| i < |evs| && evs[i].id == id && AddedAt(limited, start, evs, i)
                    && evs[i].redaction.None? && !evs[i].hidden;
      var k := |start| + AddedBefore(limited, start, evs, i);
      assert NewEntry(limited, prevBatch, start, evs, i, items, k);
      assert items[k].visible && items[k].id == id;
    }
  }

  lemma SyncedMessages(s: Timeline, limited: bool, prevBatch: string, evs: seq<Event>, id: Id)
    requires evs != [] && TxnIdsApart(evs) && Distinct(Ids(s.items))
    ensures id in Shown(Synced(s, limited, prevBatch, evs).items) <==>
              MessageAfter(limited, if limited then [] else s.items, evs, id)
  {
    hide OldEntries, NewEntries, MessageAfter, Synced;
    var start, items := if limited then [] else s.items, Synced(s, limited, prevBatch, evs).items;
    SyncedEntries(s, limited, prevBatch, evs);
    ShownIs(items, id);
    if id in Shown(items) {
      var k :| 0 <= k < |items| && items[k].visible && items[k].id == id;
      ShownIsMessage(limited, prevBatch, start, evs, items, k);
    }
    if MessageAfter(limited, start, evs, id) {
      MessageIsShown(limited, prevBatch, start, evs, items, id);
    }
  }

  /** In full: what the entries of the timeline are after a sync. */
  lemma SyncedEntries(s: Timeline, limited: bool, prevBatch: string, evs: seq<Event>)
    requires evs != [] && TxnIdsApart(evs) && Distinct(Ids(s.items))
    ensures var start, items := if limited then [] else s.items, Synced(s, limited, prevBatch, evs).items;
            && OldEntries(limited, prevBatch, start, evs, |evs|, items)
            && NewEntries(limited, prevBatch, start, evs, |evs|, items)
  {
    assert evs[..|evs|] == evs;
    SyncReaches(SyncStart(limited, s).t, limited, prevBatch, evs, |evs|);
  }

  // What is stored

  /** An event that answers an echo or is no redaction is stored under its id as it came; an answered
      echo's own event is gone. Nothing else changes. */
  lemma EventIsStored(limited: bool, prevBatch: string, s: SyncState, e: Event)
    requires e.id != "" && (IsEcho(s.t.items, e) || e.redaction.None?)
    requires e.id != e.txnId
    ensures var events := SyncStep(limited, prevBatch, s, e).t.events;
            && e.id in events && events[e.id].event == e && events[e.id].redactedBy == None
            && (IsEcho(s.t.items, e) ==> e.txnId !in events)
            && (forall id :: id != e.id && !(IsEcho(s.t.items, e) && id == e.txnId) ==>
                  (id in events <==> id in s.t.events) && (id in events ==> events[id] == s.t.events[id]))
  {
  }

  /** A redaction takes the content from the event it names, if that is stored, and leaves the rest of it;
      the redaction is stored too. Nothing else changes. */
  lemma RedactionTakesContent(limited: bool, prevBatch: string, s: SyncState, e: Event, redacts: Id)
    requires e.id != "" && !IsEcho(s.t.items, e) && e.redaction == Some(redacts) && redacts != "" && redacts != e.id
    ensures var events := SyncStep(limited, prevBatch, s, e).t.events;
            && (redacts in events <==> redacts in s.t.events)
            && (redacts in events ==>
                  var was, now := s.t.events[redacts].event, events[redacts];
                  && now.event.content == "" && now.redactedBy == Some(e)
                  && now.event.id == was.id && now.event.txnId == was.txnId && now.event.hidden == was.hidden
                  && now.event.redaction == was.redaction
                  && e.id in events && events[e.id].event == e)
            && (forall id :: id != e.id && id != redacts ==>
                  (id in events <==> id in s.t.events) && (id in events ==> events[id] == s.t.events[id]))
  {
  }

  /** Events without an id, and redactions of nothing, leave no trace. */
  lemma NothingIsStored(limited: bool, prevBatch: string, s: SyncState, e: Event)
    requires e.id == "" || (!IsEcho(s.t.items, e) && e.redaction == Some(""))
    ensures SyncStep(limited, prevBatch, s, e) == s
  {
  }

  // Backfill

  ghost function NewBefore(s: Timeline, chunk: seq<Event>, n: nat): nat
    requires n <= |chunk|
  {
    if n == 0 then 0 else NewBefore(s, chunk, n - 1) + if IsNew(s, chunk, n - 1) then 1 else 0
  }

  lemma {:induction false} NewGrows(s: Timeline, chunk: seq<Event>, i: nat, n: nat)
    requires i < n <= |chunk|
    ensures NewBefore(s, chunk, i) + (if IsNew(s, chunk, i) then 1 else 0) <= NewBefore(s, chunk, n)
    decreases n
  {
    if i < n - 1 {
      NewGrows(s, chunk, i, n - 1);
    }
  }

  /** The entries after n events of a chunk: those there were, and before them the new ones, the last new
      one first, without a token and visible unless the room hides their kind. */
  ghost predicate Prepended(s: Timeline, chunk: seq<Event>, n: nat, items: seq<Item>)
    requires n <= |chunk|
  {
    var c := NewBefore(s, chunk, n);
    && |items| == c + |s.items| && items[c..] == s.items
    && forall i :: 0 <= i < n && IsNew(s, chunk, i) ==> PrependedAt(s, chunk, i, items, c - 1 - NewBefore(s, chunk, i))
  }

  ghost predicate PrependedAt(s: Timeline, chunk: seq<Event>, i: nat, items: seq<Item>, k: int)
    requires i < |chunk|
  {
    0 <= k < |items| && items[k] == Item(chunk[i].id, None, !chunk[i].hidden)
  }

  lemma {:induction false} BackFoldEntries(s: Timeline, chunk: seq<Event>, n: nat)
    requires n <= |chunk|
    ensures Prepended(s, chunk, n, BackFold(s, chunk[..n]).items)
  {
    if n == 0 {
      assert chunk[..0] == [];
    } else {
      hide IsNew, Prepended;
      BackFoldEntries(s, chunk, n - 1);
      var front, e := chunk[..n - 1], chunk[n - 1];
      assert chunk[..n][..n - 1] == front && chunk[..n][n - 1] == e;
      BackFoldLists(s, front);
      NewIsNotBrought(s, chunk, n - 1);
      BackStepPrepends(s, chunk, n - 1, BackFold(s, front).items);
    }
  }

  lemma BackStepPrepends(s: Timeline, chunk: seq<Event>, n: nat, items: seq<Item>)
    requires n < |chunk| && Prepended(s, chunk, n, items)
    ensures Prepended(s, chunk, n + 1,
                      if IsNew(s, chunk, n) then [Item(chunk[n].id, None, !chunk[n].hidden)] + items else items)
  {
    hide IsNew;
    var more := [Item(chunk[n].id, None, !chunk[n].hidden)] + items;
    if IsNew(s, chunk, n) {
      var c := NewBefore(s, chunk, n);
      assert more[c + 1..] == items[c..];
      forall i | 0 <= i <= n && IsNew(s, chunk, i) ensures PrependedAt(s, chunk, i, more, c - NewBefore(s, chunk, i)) {
        if i < n {
          NewGrows(s, chunk, i, n);
          assert PrependedAt(s, chunk, i, items, c - 1 - NewBefore(s, chunk, i));
        }
      }
    } else {
      forall i | 0 <= i <= n && IsNew(s, chunk, i)
        ensures PrependedAt(s, chunk, i, items, NewBefore(s, chunk, n + 1) - 1 - NewBefore(s, chunk, i))
      {
        assert PrependedAt(s, chunk, i, items, NewBefore(s, chunk, n) - 1 - NewBefore(s, chunk, i));
      }
    }
  }

  lemma {:induction false} NewEventOf(s: Timeline, chunk: seq<Event>, n: nat, c: nat) returns (i: nat)
    requires n <= |chunk| && c < NewBefore(s, chunk, n)
    ensures i < n && IsNew(s, chunk, i) && NewBefore(s, chunk, i) == c
  {
    if c < NewBefore(s, chunk, n - 1) {
      i := NewEventOf(s, chunk, n - 1, c);
    } else {
      i := n - 1;
    }
  }

  ghost predicate Brought(s: Timeline, chunk: seq<Event>, id: Id) {
    exists i :: 0 <= i < |chunk| && IsNew(s, chunk, i) && !chunk[i].hidden && chunk[i].id == id
  }

  /** Which ids are listed as messages after a backfill: those that were, and those of the new events that
      are not hidden. A redaction that is kept for the token is not. */
  lemma BackfilledMessages(s: Timeline, chunk: seq<Event>, end: string, id: Id)
    requires Backfillable(s, chunk) && Readable(chunk)
    ensures id in Shown(Backfilled(s, chunk, end).items) <==> id in Shown(s.items) || Brought(s, chunk, id)
  {
    hide Prepended, Brought, Shown;
    assert chunk[..|chunk|] == chunk;
    BackFoldEntries(s, chunk, |chunk|);
    PrependedMessages(s, chunk, BackFold(s, chunk).items, id);
    if chunk != [] && LastId(chunk) == "" {
      var x := Item(chunk[|chunk| - 1].id, Some(end), false);
      OnlyRedactions(s, chunk);
      ShownConcat([x], s.items);
      ShownOne(x);
    } else if chunk != [] {
      BackfillableExactly(s, chunk);
      SameShown(BackFold(s, chunk).items, end, id);
    } else if s.items != [] {
      SameShown(s.items, end, id);
    }
  }

  lemma PrependedMessages(s: Timeline, chunk: seq<Event>, items: seq<Item>, id: Id)
    requires Prepended(s, chunk, |chunk|, items)
    ensures id in Shown(items) <==> id in Shown(s.items) || Brought(s, chunk, id)
  {
    hide IsNew, Shown;
    var c := NewBefore(s, chunk, |chunk|);
    var added := items[..c];
    assert items == added + items[c..];
    ShownConcat(added, s.items);
    ShownIs(added, id);
    if k: nat :| k < |added| && added[k].visible && added[k].id == id {
      var i := NewEventOf(s, chunk, |chunk|, c - 1 - k);
      assert PrependedAt(s, chunk, i, items, k);
    }
    if i: nat :| i < |chunk| && IsNew(s, chunk, i) && !chunk[i].hidden && chunk[i].id == id {
      NewGrows(s, chunk, i, |chunk|);
      var k := c - 1 - NewBefore(s, chunk, i);
      assert PrependedAt(s, chunk, i, items, k);
      assert added[k] == items[k];
    }
  }

  lemma SameShown(items: seq<Item>, end: string, id: Id)
    requires items != []
    ensures id in Shown(WithOldestToken(items, end)) <==> id in Shown(items)
  {
    hide Shown;
    var items' := WithOldestToken(items, end);
    ShownIs(items, id);
    ShownIs(items', id);
    assert forall k :: 0 <= k < |items| ==> items'[k].id == items[k].id && items'[k].visible == items[k].visible;
  }

  /** In a chunk of redactions nothing is new. */
  lemma {:induction false} OnlyRedactions(s: Timeline, chunk: seq<Event>)
    requires LastId(chunk) == "" && forall i :: 0 <= i < |chunk| && chunk[i].redaction.None? ==> chunk[i].id != ""
    ensures forall id :: !Brought(s, chunk, id)
  {
    LastIdIsLast(chunk);
  }

  lemma {:induction false} LastIdIsLast(chunk: seq<Event>)
    requires forall i :: 0 <= i < |chunk| && chunk[i].redaction.None? ==> chunk[i].id != ""
    ensures LastId(chunk) == "" ==> forall i :: 0 <= i < |chunk| ==> chunk[i].redaction.Some?
  {
    if chunk != [] {
      LastIdIsLast(chunk[..|chunk| - 1]);
      assert forall i :: 0 <= i < |chunk| - 1 ==> chunk[i] == chunk[..|chunk| - 1][i];
    }
  }

  /** What is stored after a backfill: the last event with an id that is no redaction, for other ids what
      was stored. */
  lemma {:induction false} BackFoldStores(s: Timeline, chunk: seq<Event>, i: nat)
    requires i < |chunk| && chunk[i].redaction.None?
    requires forall j :: i < j < |chunk| && chunk[j].redaction.None? ==> chunk[j].id != chunk[i].id
    ensures var events := BackFold(s, chunk).events;
            chunk[i].id in events && events[chunk[i].id].event == chunk[i] && events[chunk[i].id].redactedBy == None
    decreases |chunk|
  {
    if i < |chunk| - 1 {
      BackFoldStores(s, chunk[..|chunk| - 1], i);
    }
  }

  lemma {:induction false} BackFoldKeepsOthers(s: Timeline, chunk: seq<Event>, id: Id)
    requires !Brings(chunk, id)
    ensures var events := BackFold(s, chunk).events;
            (id in events <==> id in s.events) && (id in events ==> events[id] == s.events[id])
  {
    if chunk != [] {
      var front, e := chunk[..|chunk| - 1], chunk[|chunk| - 1];
      BringsOneMore(front, e);
      assert front + [e] == chunk;
      BackFoldKeepsOthers(s, front, id);
    }
  }

  // Clearing and trimming

  /** The entries kept are those from the newest with a token on, and an event is deleted exactly if its
      entry is. */
  lemma ClearedExactly(s: Timeline, k: int)
    requires Distinct(Ids(s.items)) && IsNewestToken(s.items, k)
    ensures Cleared(s).items == if k < 0 then s.items else s.items[k..]
    ensures EventsKept(s, Cleared(s))
  {
    NewestTokenIsUnique(s.items, k, NewestToken(s.items));
    DroppedEvents(s, if k < 0 then 0 else k);
  }

  lemma TrimmedExactly(s: Timeline, max: nat)
    requires Distinct(Ids(s.items))
    ensures Trimmed(s, max).items == if |s.items| <= max + 1 then s.items else s.items[|s.items| - max - 1..]
    ensures EventsKept(s, Trimmed(s, max))
  {
    DroppedEvents(s, if |s.items| <= max + 1 then 0 else |s.items| - max - 1);
  }

  /** The event store lacks exactly the events that had an entry and have none any more. */
  ghost predicate EventsKept(s: Timeline, s': Timeline) {
    && (forall id :: id in s'.events <==> id in s.events && (id in Ids(s.items) ==> id in Ids(s'.items)))
    && (forall id :: id in s'.events ==> s'.events[id] == s.events[id])
  }

  lemma DroppedEvents(s: Timeline, k: nat)
    requires Distinct(Ids(s.items)) && k <= |s.items|
    ensures EventsKept(s, DropOldest(s, k)) && EventsKept(s, s)
  {
    var ids := Ids(s.items);
    assert Ids(s.items[k..]) == ids[k..];
    assert ids == ids[0..k] + ids[k..];
    forall id | id in ids[0..k] ensures id !in ids[k..] {
      var i :| 0 <= i < k && ids[0..k][i] == id;
      assert ids[i] == id;
    }
  }
}
