/** The cached timeline of one room: four index tables and an event store, updated in place. */
module RoomTimelines {
  import opened Options
  import opened OrderedKeys
  import opened PairedTables
  import opened Sequences
  import opened TimelineMeaning
  import opened TimelineSpec
  import opened TimelineTables

  const INDEX_RANGE: nat := 0x1_0000_0000_0000_0000
  /** Where the indexes of an empty timeline start from: half the largest index. */
  const START: nat := 0x7FFF_FFFF_FFFF_FFFF

  /** n consecutive indexes from base that were added by at most `forward` steps up and `backward`
      steps down from the start. */
  ghost predicate Within(base: nat, n: nat, forward: nat, backward: nat) {
    n > 0 ==> START <= base + backward && base + n <= START + 1 + forward
  }

  /** A write that must go behind the last key, as MDB_APPEND demands. */
  function PutLast<T>(table: map<nat, T>, key: nat, value: T): map<nat, T>
    requires forall k :: k in table ==> k < key
  {
    table[key := value]
  }

  /** What previousBatchToken reads off the order table. */
  function BatchToken(order: map<nat, OrderEntry>): string {
    match First(order.Keys)
    case None => ""
    case Some(k) => if order[k].prevBatch.Some? then order[k].prevBatch.value else ""
  }

  /** The tables hold the entries, at indexes that fewer than 2^63 additions on either side reach. */
  ghost predicate IndexedAs(t: Tables, lo: nat, mlo: nat, items: seq<Item>, forward: nat, backward: nat) {
    Rep(t, lo, mlo, items) && Within(lo, |items|, forward, backward) && Within(mlo, |Shown(items)|, forward, backward)
  }

  lemma IndexedIsRep(t: Tables, lo: nat, mlo: nat, items: seq<Item>, forward: nat, backward: nat)
    requires IndexedAs(t, lo, mlo, items, forward, backward)
    ensures Rep(t, lo, mlo, items)
  {
  }

  /** Where a cursor on the last key stands, the start for an empty table. */
  ghost predicate AtLast(base: nat, n: nat, index: nat) {
    index == if n == 0 then START else base + n - 1
  }

  /** Where a cursor on the first key stands, the start for an empty table. */
  ghost predicate AtFirst(base: nat, n: nat, index: nat) {
    index == if n == 0 then START else base
  }

  /** The first index of a table, the start for an empty one. */
  ghost function FirstIndex(keys: set<nat>): nat {
    match First(keys)
    case None => START
    case Some(k) => k
  }

  /** Fewer than 2^63 additions behind the newest entry keep all indexes within 64 bits. */
  lemma IndexesFit(t: Tables, lo: nat, mlo: nat, items: seq<Item>, forward: nat, backward: nat)
    requires IndexedAs(t, lo, mlo, items, forward, backward) && forward <= START
    ensures forall k :: k in t.order || k in t.order2msg ==> k < INDEX_RANGE
  {
    hide Rep, Shown;
    KeyRanges(t, lo, mlo, items);
  }

  lemma NextIndex(base: nat, n: nat, forward: nat, backward: nat, index: nat)
    requires Within(base, n, forward, backward) && AtLast(base, n, index) && forward <= START
    ensures (index + 1) % INDEX_RANGE == index + 1
    ensures n > 0 ==> index + 1 == base + n
    ensures Within(if n == 0 then index + 1 else base, n + 1, forward + 1, backward)
    ensures AtLast(if n == 0 then index + 1 else base, n + 1, index + 1)
  {
  }

  lemma PrevIndex(base: nat, n: nat, forward: nat, backward: nat, index: nat)
    requires Within(base, n, forward, backward) && AtFirst(base, n, index) && backward < START
    ensures index > 0 && (n > 0 ==> index == base)
    ensures Within(index - 1, n + 1, forward, backward + 1) && AtFirst(index - 1, n + 1, index - 1)
  {
  }

  lemma WithinMore(base: nat, n: nat, forward: nat, backward: nat)
    requires Within(base, n, forward, backward)
    ensures Within(base, n, forward + 1, backward) && Within(base, n, forward, backward + 1)
  {
  }

  lemma EmptyIndexed(t: Tables, lo: nat, mlo: nat, forward: nat, backward: nat)
    requires t == Tables(map[], map[], map[], map[])
    ensures IndexedAs(t, lo, mlo, [], forward, backward)
  {
  }

  /** One entry behind the newest: both new keys exceed the stored ones and do not wrap. */
  lemma Pushed(t: Tables, lo: nat, mlo: nat, items: seq<Item>, forward: nat, backward: nat,
               x: Item, index: nat, msgIndex: nat) returns (lo': nat, mlo': nat)
    requires IndexedAs(t, lo, mlo, items, forward, backward) && forward <= START
    requires AtLast(lo, |items|, index) && AtLast(mlo, |Shown(items)|, msgIndex)
    requires x.id != "" && x.id !in Ids(items)
    ensures (index + 1) % INDEX_RANGE == index + 1 && (msgIndex + 1) % INDEX_RANGE == msgIndex + 1
    ensures forall k :: k in t.order ==> k < index + 1
    ensures forall k :: k in t.order2msg ==> k < msgIndex + 1
    ensures IndexedAs(WithEntry(t, x, index + 1, msgIndex + 1), lo', mlo', items + [x], forward + 1, backward)
    ensures AtLast(lo', |items| + 1, index + 1)
    ensures AtLast(mlo', |Shown(items + [x])|, if x.visible then msgIndex + 1 else msgIndex)
  {
    hide Rep, Shown, Ids, WithEntry;
    lo' := if items == [] then index + 1 else lo;
    mlo' := if x.visible && Shown(items) == [] then msgIndex + 1 else mlo;
    KeyRanges(t, lo, mlo, items);
    NextIndex(lo, |items|, forward, backward, index);
    NextIndex(mlo, |Shown(items)|, forward, backward, msgIndex);
    WithinMore(mlo, |Shown(items)|, forward, backward);
    AppendEntry(t, lo, mlo, items, x, index + 1, msgIndex + 1);
    ShownConcat(items, [x]);
    ShownOne(x);
  }

  /** One entry before the oldest. */
  lemma Unshifted(t: Tables, lo: nat, mlo: nat, items: seq<Item>, forward: nat, backward: nat,
                  x: Item, index: nat, msgIndex: nat) returns (mlo': nat)
    requires IndexedAs(t, lo, mlo, items, forward, backward) && backward < START
    requires AtFirst(lo, |items|, index) && AtFirst(mlo, |Shown(items)|, msgIndex)
    requires x.id != "" && x.id !in Ids(items)
    ensures index > 0 && msgIndex > 0
    ensures IndexedAs(WithEntry(t, x, index - 1, msgIndex - 1), index - 1, mlo', [x] + items, forward, backward + 1)
    ensures AtFirst(index - 1, |items| + 1, index - 1)
    ensures AtFirst(mlo', |Shown([x] + items)|, if x.visible then msgIndex - 1 else msgIndex)
  {
    hide Rep, Shown, Ids, WithEntry;
    mlo' := if x.visible then msgIndex - 1 else mlo;
    PrevIndex(lo, |items|, forward, backward, index);
    PrevIndex(mlo, |Shown(items)|, forward, backward, msgIndex);
    WithinMore(mlo, |Shown(items)|, forward, backward);
    PrependEntry(t, lo, mlo, items, x, index - 1, msgIndex - 1);
    ShownConcat([x], items);
    ShownOne(x);
  }

  lemma BatchTokenAt(order: map<nat, OrderEntry>, k: nat, token: string)
    requires k in order && order[k].prevBatch == Some(token) && forall j :: j in order ==> k <= j
    ensures BatchToken(order) == token
  {
    assert k in order.Keys;
  }

  lemma OldestTokenSet(t: Tables, lo: nat, mlo: nat, s: Timeline, forward: nat, backward: nat, end: string)
    requires IndexedAs(t, lo, mlo, s.items, forward, backward) && Complete(s) && s.items != []
    ensures lo in t.order && t.order[lo].id == s.items[0].id
    ensures var order' := t.order[lo := OrderEntry(s.items[0].id, Some(end))];
            var items' := WithOldestToken(s.items, end);
            && IndexedAs(t.(order := order'), lo, mlo, items', forward, backward)
            && Complete(s.(items := items')) && BatchToken(order') == end
  {
    hide Rep, Shown, Ids;
    KeyRanges(t, lo, mlo, s.items);
    EntryAt(t, lo, mlo, s.items, 0);
    TokenAtOldest(t, lo, mlo, s.items, Some(end));
    SameIds(s.items, s.items[0].(prevBatch := Some(end)));
    BatchTokenAt(t.order[lo := OrderEntry(s.items[0].id, Some(end))], lo, end);
  }

  /** What a cursor reads at an entry, and where it goes from there. */
  lemma ReadAt(t: Tables, lo: nat, mlo: nat, items: seq<Item>, i: nat)
    requires Rep(t, lo, mlo, items) && i < |items|
    ensures lo + i in t.order && t.order[lo + i].id == items[i].id
    ensures items[i].id in t.msg2order <==> items[i].visible
    ensures Before(t.order.Keys, lo + i) == if i == 0 then None else Some(lo + i - 1)
    ensures After(t.order.Keys, lo + i) == if i + 1 == |items| then None else Some(lo + i + 1)
  {
    hide Rep;
    EntryAt(t, lo, mlo, items, i);
    VisibleIsListed(t, lo, mlo, items, i);
    Neighbours(t, lo, mlo, items, i);
  }

  /** The entries at the positions from i up to j are deleted, from the tables and the event store. */
  ghost predicate Gone(t: Tables, s: Timeline, lo: nat, mlo: nat, t': Tables, events: map<Id, StoredEvent>, i: nat,
                       j: nat) {
    && EntriesRemoved(t, t', lo, mlo, s.items, i, j) && i <= j <= |s.items|
    && events == s.events - IdSet(Ids(s.items)[i..j])
  }

  lemma NothingGone(t: Tables, s: Timeline, lo: nat, mlo: nat, i: nat)
    requires Rep(t, lo, mlo, s.items) && i <= |s.items|
    ensures Gone(t, s, lo, mlo, t, s.events, i, i)
  {
    hide Rep, EntriesRemoved;
    NothingRemoved(t, lo, mlo, s.items, i);
    assert Ids(s.items)[i..i] == [];
  }

  lemma OneMoreGone(t: Tables, s: Timeline, lo: nat, mlo: nat, t': Tables, events: map<Id, StoredEvent>, i: nat,
                    j: nat, n: nat)
    requires Rep(t, lo, mlo, s.items) && Gone(t, s, lo, mlo, t', events, i, j)
    requires n < |s.items| && (n == j || n + 1 == i)
    ensures Gone(t, s, lo, mlo, WithoutEntry(t', lo + n, s.items[n].id), events - {s.items[n].id},
                 if n == j then i else n, if n == j then j + 1 else j)
  {
    hide Rep, EntriesRemoved, WithoutEntry, Ids;
    EntryKept(t, t', lo, mlo, s.items, i, j, n);
    RemoveEntry(t, t', lo, mlo, s.items, i, j, n);
    IdSetGrows(s.items, if n == j then i else n, if n == j then j + 1 else j);
  }

  /** What the cursor reads while a stretch is gone. */
  lemma GoneKeys(t: Tables, s: Timeline, lo: nat, mlo: nat, t': Tables, events: map<Id, StoredEvent>, i: nat, j: nat)
    requires Rep(t, lo, mlo, s.items) && Gone(t, s, lo, mlo, t', events, i, j)
    ensures Before(t'.order.Keys, lo + i) == if i == 0 then None else Some(lo + i - 1)
    ensures j > 0 && i == 0 ==> After(t'.order.Keys, lo + j - 1) == if j == |s.items| then None else Some(lo + j)
    ensures i > 0 ==>
              lo + i - 1 in t'.order && t'.order[lo + i - 1] == OrderEntry(s.items[i - 1].id, s.items[i - 1].prevBatch)
    ensures j < |s.items| ==>
              lo + j in t'.order && t'.order[lo + j] == OrderEntry(s.items[j].id, s.items[j].prevBatch)
  {
    hide Rep, EntriesRemoved;
    KeysLeft(t, t', lo, mlo, s.items, i, j);
    if i > 0 {
      EntryKept(t, t', lo, mlo, s.items, i, j, i - 1);
      EntryAt(t, lo, mlo, s.items, i - 1);
    }
    if j < |s.items| {
      EntryKept(t, t', lo, mlo, s.items, i, j, j);
      EntryAt(t, lo, mlo, s.items, j);
    }
  }

  /** The entries before position j are gone. */
  lemma Dropped(t: Tables, t': Tables, lo: nat, mlo: nat, s: Timeline, events: map<Id, StoredEvent>,
                forward: nat, backward: nat, j: nat)
    requires IndexedAs(t, lo, mlo, s.items, forward, backward) && Complete(s)
    requires Gone(t, s, lo, mlo, t', events, 0, j)
    ensures IndexedAs(t', lo + j, mlo + |Shown(s.items[..j])|, s.items[j..], forward, backward)
    ensures Timeline(s.items[j..], events) == DropOldest(s, j) && Complete(DropOldest(s, j))
  {
    hide Rep, EntriesRemoved, Ids, Shown;
    DropEntries(t, t', lo, mlo, s.items, j);
    ShownDropped(s.items, j);
    RepIds(t, lo, mlo, s.items);
    DropKeepsComplete(s, j);
  }

  /** Clearing has come down to position p: so far everything from there up to the newest token is gone,
      or there was no token yet. */
  ghost predicate Clearing(t0: Tables, s0: Timeline, lo: nat, mlo: nat, t: Tables, events: map<Id, StoredEvent>,
                           p: int, cut: nat, passed: bool) {
    && -1 <= p < cut <= |s0.items|
    && Gone(t0, s0, lo, mlo, t, events, p + 1, cut)
    && if passed then IsNewestToken(s0.items, cut)
       else && t == t0 && events == s0.events && cut == p + 1
            && forall i :: p < i < |s0.items| ==> s0.items[i].prevBatch.None?
  }

  lemma ClearStart(t: Tables, s: Timeline, lo: nat, mlo: nat)
    requires Rep(t, lo, mlo, s.items)
    ensures Clearing(t, s, lo, mlo, t, s.events, |s.items| - 1, |s.items|, false)
    ensures Last(t.order.Keys) == if s.items == [] then None else Some(lo + |s.items| - 1)
  {
    hide Rep, Gone;
    NothingGone(t, s, lo, mlo, |s.items|);
    LastKey(t, lo, mlo, s.items);
  }

  lemma ClearStep(t0: Tables, s0: Timeline, lo: nat, mlo: nat, t: Tables, events: map<Id, StoredEvent>,
                  p: int, cut: nat, passed: bool)
    requires Rep(t0, lo, mlo, s0.items) && Clearing(t0, s0, lo, mlo, t, events, p, cut, passed) && p >= 0
    ensures lo + p in t.order
    ensures var x := t.order[lo + p];
            var t' := if passed then WithoutEntry(t, lo + p, x.id) else t;
            && Clearing(t0, s0, lo, mlo, t', if passed then events - {x.id} else events, p - 1,
                        if passed then cut else p, passed || x.prevBatch.Some?)
            && Before(t'.order.Keys, lo + p) == if p == 0 then None else Some(lo + p - 1)
  {
    hide Rep, Gone, WithoutEntry;
    GoneKeys(t0, s0, lo, mlo, t, events, p + 1, cut);
    var x := t.order[lo + p];
    if passed {
      OneMoreGone(t0, s0, lo, mlo, t, events, p + 1, cut, p);
      GoneKeys(t0, s0, lo, mlo, WithoutEntry(t, lo + p, x.id), events - {x.id}, p, cut);
    } else {
      NothingGone(t0, s0, lo, mlo, p);
      GoneKeys(t0, s0, lo, mlo, t, events, p, p);
    }
  }

  lemma ClearEnd(t0: Tables, s0: Timeline, lo: nat, mlo: nat, t: Tables, events: map<Id, StoredEvent>,
                 cut: nat, passed: bool, forward: nat, backward: nat)
    requires IndexedAs(t0, lo, mlo, s0.items, forward, backward) && Complete(s0)
    requires Clearing(t0, s0, lo, mlo, t, events, -1, cut, passed)
    ensures if passed
            then && IndexedAs(t, lo + cut, mlo + |Shown(s0.items[..cut])|, s0.items[cut..], forward, backward)
                 && Cleared(s0) == Timeline(s0.items[cut..], events) && Complete(Cleared(s0))
            else t == t0 && events == s0.events && Cleared(s0) == s0
  {
    hide Rep, Gone, Complete, Shown;
    NewestTokenIsUnique(s0.items, NewestToken(s0.items), if passed then cut else -1);
    if passed {
      Dropped(t0, t, lo, mlo, s0, events, forward, backward, cut);
    }
  }

  /** A redaction is kept as a hidden entry before the oldest. */
  lemma RedactionKept(t: Tables, lo: nat, mlo: nat, s: Timeline, forward: nat, backward: nat, e: Event, end: string,
                      index: nat)
    requires IndexedAs(t, lo, mlo, s.items, forward, backward) && Complete(s) && backward < START
    requires AtFirst(lo, |s.items|, index) && e.id != ""
    ensures index > 0
    ensures var t' := t.(order := t.order[index - 1 := OrderEntry(e.id, Some(end))],
                         evToOrder := t.evToOrder[e.id := index - 1]);
            && BatchToken(t'.order) == end
            && if e.id in Ids(s.items) then !Consistent(t')
               else IndexedAs(t', index - 1, mlo, [Item(e.id, Some(end), false)] + s.items, forward, backward + 1)
    ensures Complete(Timeline([Item(e.id, Some(end), false)] + s.items, s.events[e.id := Stored(e)]))
  {
    hide Rep, Shown, Ids, Consistent, Complete;
    var x := Item(e.id, Some(end), false);
    KeyRanges(t, lo, mlo, s.items);
    PrevIndex(lo, |s.items|, forward, backward, index);
    if e.id in Ids(s.items) {
      RelistBreaks(t, lo, mlo, s.items, e.id, Some(end), index - 1);
    } else {
      var msgIndex := if Shown(s.items) == [] then START else mlo;
      var mlo' := Unshifted(t, lo, mlo, s.items, forward, backward, x, index, msgIndex);
      PrependEntry(t, lo, mlo, s.items, x, index - 1, 0);
      ShownConcat([x], s.items);
      ShownOne(x);
    }
    BatchTokenAt(t.order[index - 1 := OrderEntry(e.id, Some(end))], index - 1, end);
    CompleteMore(s, x, e);
  }

  lemma CompleteMore(s: Timeline, x: Item, e: Event)
    requires Complete(s) && x.id == e.id
    ensures Complete(Timeline([x] + s.items, s.events[e.id := Stored(e)]))
  {
    assert Ids([x] + s.items) == [x.id] + Ids(s.items);
  }

  /** A local echo turned into its event. */
  lemma Echoed(t: Tables, lo: nat, mlo: nat, s: Timeline, forward: nat, backward: nat, e: Event,
               token: Option<string>)
    requires IndexedAs(t, lo, mlo, s.items, forward, backward) && Complete(s)
    requires e.id != "" && IsEcho(s.items, e) && e.id !in Ids(s.items)
    ensures e.txnId in t.evToOrder
    ensures var s' := EchoStep(s, e, token);
            && IndexedAs(WithEcho(t, e.txnId, e.id, token), lo, mlo, s'.items, forward, backward) && Complete(s')
            && |s'.items| == |s.items| && |Shown(s'.items)| == |Shown(s.items)|
  {
    hide Rep, Shown, Ids, WithEcho;
    var i := IndexOf(s.items, e.txnId);
    RepIds(t, lo, mlo, s.items);
    ReplaceEntry(t, lo, mlo, s.items, i, e.id, token);
    ShownReplaced(s.items, i, Item(e.id, token, s.items[i].visible));
    EchoComplete(s, e, token);
  }

  class RoomTimeline {
    var order: map<nat, OrderEntry>
    var evToOrder: map<Id, nat>
    var order2msg: map<nat, Id>
    var msg2order: map<Id, nat>
    var events: map<Id, StoredEvent>

    ghost var items: seq<Item>
    ghost var lo: nat
    ghost var mlo: nat
    ghost var forward: nat   // entries added behind the newest so far
    ghost var backward: nat  // entries added before the oldest so far

    ghost function IndexTables(): Tables
      reads this
    {
      Tables(order, evToOrder, order2msg, msg2order)
    }

    ghost function Contents(): Timeline
      reads this
    {
      Timeline(items, events)
    }

    ghost predicate Indexed()
      reads this
    {
      IndexedAs(IndexTables(), lo, mlo, items, forward, backward)
    }

    ghost predicate Valid()
      reads this
    {
      Indexed() && Complete(Contents())
    }

    constructor ()
      ensures Valid() && items == [] && events == map[] && forward == backward == 0
    {
      order, evToOrder, order2msg, msg2order, events := map[], map[], map[], map[], map[];
      items, lo, mlo, forward, backward := [], 0, 0, 0, 0;
    }

    /** The cursors of a sync: the newest index of each order, or the start. */
    ghost predicate AtNewest(index: nat, msgIndex: nat)
      reads this
    {
      AtLast(lo, |items|, index) && AtLast(mlo, |Shown(items)|, msgIndex)
    }

    /** One entry behind the newest. */
    method PushNewest(e: Event, token: Option<string>, visible: bool, index: nat, msgIndex: nat)
      returns (index': nat, msgIndex': nat)
      requires Indexed() && AtNewest(index, msgIndex) && forward <= START
      requires e.id != "" && e.id !in Ids(items)
      modifies this`order, this`evToOrder, this`order2msg, this`msg2order, this`items, this`lo, this`mlo, this`forward
      ensures Indexed() && AtNewest(index', msgIndex') && forward == old(forward) + 1
      ensures items == old(items) + [Item(e.id, token, visible)]
    {
      hide Rep, Shown, Ids;
      ghost var x, t := Item(e.id, token, visible), IndexTables();
      ghost var lo', mlo' := Pushed(t, lo, mlo, items, forward, backward, x, index, msgIndex);
      index', msgIndex' := (index + 1) % INDEX_RANGE, msgIndex;
      order := PutLast(order, index', OrderEntry(e.id, token));
      evToOrder := evToOrder[e.id := index'];
      if visible {
        msgIndex' := (msgIndex + 1) % INDEX_RANGE;
        order2msg := PutLast(order2msg, msgIndex', e.id);
        msg2order := msg2order[e.id := msgIndex'];
      }
      assert IndexTables() == WithEntry(t, x, index + 1, msgIndex + 1);
      items, lo, mlo, forward := items + [x], lo', mlo', forward + 1;
    }

    /** The id the server gave an event replaces the transaction id of its local echo. */
    method ReplaceEcho(e: Event, token: Option<string>)
      requires Valid() && e.id != "" && IsEcho(items, e) && e.id !in Ids(items)
      modifies this`order, this`evToOrder, this`order2msg, this`msg2order, this`events, this`items
      ensures Valid() && Contents() == EchoStep(old(Contents()), e, token) && |items| == |old(items)|
      ensures |Shown(items)| == |Shown(old(items))|
    {
      hide IndexedAs, Complete, Shown, Ids;
      ghost var t := IndexTables();
      Echoed(t, lo, mlo, Contents(), forward, backward, e, token);
      var key := evToOrder[e.txnId];
      items := EchoStep(Contents(), e, token).items;
      events := events[e.id := Stored(e)];
      events := events - {e.txnId};
      if e.txnId in msg2order {
        var msgKey := msg2order[e.txnId];
        order2msg := order2msg[msgKey := e.id];
        msg2order := msg2order[e.id := msgKey];
        msg2order := msg2order - {e.txnId};
      }
      order := order[key := OrderEntry(e.id, token)];
      evToOrder := evToOrder[e.id := key];
      evToOrder := evToOrder - {e.txnId};
      assert IndexTables() == WithEcho(t, e.txnId, e.id, token);
    }

    /** Overwrites a stored event with its redacted form. */
    method Redact(e: Event, redacts: Id)
      requires Valid()
      modifies this`events
      ensures Valid() && Contents() == RedactionStep(old(Contents()), e, redacts)
    {
      if redacts in events {
        events := events[redacts := Redacted(events[redacts], e)];
        events := events[e.id := Stored(e)];
      }
    }

    /** What a sync delivers, or a local echo by itself. */
    method SaveTimelineMessages(limited: bool, prevBatch: string, evs: seq<Event>)
      requires Valid() && SyncAllowed(Contents(), limited, prevBatch, evs)
      requires forward + |evs| <= START + 1
      modifies this
      ensures Valid() && Contents() == Synced(old(Contents()), limited, prevBatch, evs)
      ensures evs != [] && TxnIdsApart(evs) ==>
                forall id :: id in msg2order <==> MessageAfter(limited, if limited then [] else old(items), evs, id)
      ensures forward <= old(forward) + |evs| && backward == old(backward)
    {
      SaveEvents(limited, prevBatch, evs);
      if evs != [] && TxnIdsApart(evs) {
        MessagesAfter(old(Contents()), limited, prevBatch, evs);
      }
    }

    lemma MessagesAfter(s: Timeline, limited: bool, prevBatch: string, evs: seq<Event>)
      requires Valid() && Contents() == Synced(s, limited, prevBatch, evs) && Distinct(Ids(s.items))
      requires evs != [] && TxnIdsApart(evs)
      ensures forall id :: id in msg2order <==> MessageAfter(limited, if limited then [] else s.items, evs, id)
    {
      hide Shown, Synced, MessageAfter;
      forall id ensures id in msg2order <==> MessageAfter(limited, if limited then [] else s.items, evs, id) {
        SyncedMessages(s, limited, prevBatch, evs, id);
        assert id in msg2order <==> id in Shown(items);
      }
    }

    method SaveEvents(limited: bool, prevBatch: string, evs: seq<Event>)
      requires Valid() && SyncAllowed(Contents(), limited, prevBatch, evs)
      requires forward + |evs| <= START + 1
      modifies this
      ensures Valid() && Contents() == Synced(old(Contents()), limited, prevBatch, evs)
      ensures forward <= old(forward) + |evs| && backward == old(backward)
      ensures Distinct(Ids(old(items)))
    {
      hide Rep, Shown, Ids, SyncStep;
      RepIds(IndexTables(), lo, mlo, items);
      if evs == [] {
        return;
      }
      ghost var start := SyncStart(limited, Contents());
      if limited {
        order, evToOrder, msg2order, order2msg := map[], map[], map[], map[];
        items := [];
        EmptyIndexed(IndexTables(), lo, mlo, forward, backward);
      }
      assert Valid() && Contents() == start.t;
      var index, msgIndex := NewestIndexes();
      var first := true;
      for n := 0 to |evs|
        invariant Valid() && AtNewest(index, msgIndex)
        invariant SyncState(Contents(), first) == SyncFold(limited, prevBatch, start, evs[..n])
        invariant limited && first ==> items == []
        invariant forward <= old(forward) + n && backward == old(backward)
      {
        assert evs[..n + 1][..n] == evs[..n];
        index, msgIndex, first := SaveEvent(limited, prevBatch, evs[n], first, index, msgIndex);
      }
      assert evs[..|evs|] == evs;
    }

    method NewestIndexes() returns (index: nat, msgIndex: nat)
      requires Valid()
      ensures AtNewest(index, msgIndex)
    {
      hide Rep, Shown;
      KeyRanges(IndexTables(), lo, mlo, items);
      assert items != [] <==> lo + |items| - 1 in order.Keys;
      assert Shown(items) != [] <==> mlo + |Shown(items)| - 1 in order2msg.Keys;
      index, msgIndex := START, START;
      var last := Last(order.Keys);
      if last.Some? {
        index := last.value;
      }
      var lastMsg := Last(order2msg.Keys);
      if lastMsg.Some? {
        msgIndex := lastMsg.value;
      }
    }

    /** One event of a sync. */
    method SaveEvent(limited: bool, prevBatch: string, e: Event, first: bool, index: nat, msgIndex: nat)
      returns (index': nat, msgIndex': nat, first': bool)
      requires Valid() && AtNewest(index, msgIndex) && forward <= START && StepAllowed(SyncState(Contents(), first), e)
      requires limited && first ==> items == []
      modifies this
      ensures Valid() && AtNewest(index', msgIndex')
      ensures SyncState(Contents(), first') == SyncStep(limited, prevBatch, old(SyncState(Contents(), first)), e)
      ensures limited && first' ==> items == []
      ensures forward <= old(forward) + 1 && backward == old(backward)
    {
      hide Rep, Shown, Ids;
      index', msgIndex', first' := index, msgIndex, first;
      if e.id == "" {
        return;
      }
      var token := if first && prevBatch != "" then Some(prevBatch) else None;
      RepIds(IndexTables(), lo, mlo, items);
      if e.txnId != "" && e.txnId in evToOrder {
        ReplaceEcho(e, token);
      } else if e.redaction.Some? {
        if e.redaction.value == "" {
          return;
        }
        // kept so that a limited timeline does not lose its token
        if first && limited {
          first' := false;
          index', msgIndex' := PushNewest(e, token, false, index, msgIndex);
          events := events[e.id := Stored(e)];
        }
        Redact(e, e.redaction.value);
      } else {
        // a duplicate only refreshes the stored event
        if e.id !in evToOrder {
          first' := false;
          index', msgIndex' := PushNewest(e, token, !e.hidden, index, msgIndex);
        }
        events := events[e.id := Stored(e)];
      }
    }

    method OldestIndexes() returns (index: nat, msgIndex: nat)
      requires Valid()
      ensures AtOldest(index, msgIndex)
    {
      hide Rep, Shown;
      KeyRanges(IndexTables(), lo, mlo, items);
      assert items != [] <==> lo in order.Keys;
      assert Shown(items) != [] <==> mlo in order2msg.Keys;
      index, msgIndex := START, START;
      var oldest := First(order.Keys);
      if oldest.Some? {
        index := oldest.value;
      }
      var oldestMsg := First(order2msg.Keys);
      if oldestMsg.Some? {
        msgIndex := oldestMsg.value;
      }
    }

    ghost predicate AtOldest(index: nat, msgIndex: nat)
      reads this
    {
      AtFirst(lo, |items|, index) && AtFirst(mlo, |Shown(items)|, msgIndex)
    }

    /** One entry before the oldest. */
    method PushOldest(e: Event, token: Option<string>, visible: bool, index: nat, msgIndex: nat)
      returns (index': nat, msgIndex': nat)
      requires Indexed() && AtOldest(index, msgIndex) && backward < START
      requires e.id != "" && e.id !in Ids(items)
      modifies this`order, this`evToOrder, this`order2msg, this`msg2order, this`items, this`lo, this`mlo, this`backward
      ensures Indexed() && AtOldest(index', msgIndex') && backward == old(backward) + 1
      ensures items == [Item(e.id, token, visible)] + old(items)
    {
      hide Rep, Shown, Ids;
      ghost var x, t := Item(e.id, token, visible), IndexTables();
      ghost var mlo' := Unshifted(t, lo, mlo, items, forward, backward, x, index, msgIndex);
      index', msgIndex' := index - 1, msgIndex;
      order := order[index' := OrderEntry(e.id, token)];
      evToOrder := evToOrder[e.id := index'];
      if visible {
        msgIndex' := msgIndex - 1;
        order2msg := order2msg[msgIndex' := e.id];
        msg2order := msg2order[e.id := msgIndex'];
      }
      assert IndexTables() == WithEntry(t, x, index - 1, msgIndex - 1);
      items, lo, mlo, backward := [x] + items, index', mlo', backward + 1;
    }

    /** An empty chunk moves the token of the oldest entry. */
    method SetOldestToken(index: nat, end: string)
      requires Valid() && AtFirst(lo, |items|, index)
      modifies this`order, this`items
      ensures Valid() && Contents() == Backfilled(old(Contents()), [], end)
      ensures items != [] ==> BatchToken(order) == end
    {
      hide Rep, Shown, Ids;
      KeyRanges(IndexTables(), lo, mlo, items);
      assert items != [] <==> lo in order.Keys;
      if items != [] {
        OldestTokenSet(IndexTables(), lo, mlo, Contents(), forward, backward, end);
      }
      if index in order {
        order := order[index := OrderEntry(order[index].id, Some(end))];
        items := WithOldestToken(items, end);
      }
    }

    /** One event of a chunk that is no redaction. */
    method SaveOldEvent(e: Event, index: nat, msgIndex: nat) returns (index': nat, msgIndex': nat)
      requires Valid() && AtOldest(index, msgIndex) && backward < START && e.id != "" && e.redaction.None?
      modifies this
      ensures Valid() && AtOldest(index', msgIndex') && Contents() == BackStep(old(Contents()), e)
      ensures items != [] && e.id in Ids(items)
      ensures backward <= old(backward) + 1 && forward == old(forward)
    {
      hide Rep, Shown, Ids;
      RepIds(IndexTables(), lo, mlo, items);
      IdsPrepend(items, Item(e.id, None, !e.hidden));
      index', msgIndex' := index, msgIndex;
      if e.id !in evToOrder {
        index', msgIndex' := PushOldest(e, None, !e.hidden, index, msgIndex);
      }
      events := events[e.id := Stored(e)];
    }

    /** The events of a chunk, one after the other, up to one whose id cannot be a key. */
    method SaveOldEvents(chunk: seq<Event>, index: nat, msgIndex: nat)
      returns (index': nat, msgIndex': nat, lastId: Id, ok: bool)
      requires Valid() && AtOldest(index, msgIndex) && backward + |chunk| <= START
      modifies this
      ensures ok <==> forall i :: 0 <= i < |chunk| && chunk[i].redaction.None? ==> chunk[i].id != ""
      ensures ok ==> Valid() && AtOldest(index', msgIndex')
      ensures ok ==> Contents() == BackFold(old(Contents()), chunk) && lastId == LastId(chunk)
      ensures ok ==> if lastId == "" then Contents() == old(Contents()) && backward == old(backward)
                     else items != [] && lastId in Ids(items)
      ensures backward <= old(backward) + |chunk| && forward == old(forward)
    {
      hide Rep, IndexedAs, Complete, Shown, Ids;
      index', msgIndex', lastId, ok := index, msgIndex, "", true;
      for n := 0 to |chunk|
        invariant Valid() && AtOldest(index', msgIndex') && ok
        invariant Contents() == BackFold(old(Contents()), chunk[..n]) && lastId == LastId(chunk[..n])
        invariant forall i :: 0 <= i < n && chunk[i].redaction.None? ==> chunk[i].id != ""
        invariant backward <= old(backward) + n && forward == old(forward)
        invariant if lastId == "" then Contents() == old(Contents()) && backward == old(backward)
                  else items != [] && lastId in Ids(items)
      {
        assert chunk[..n + 1][..n] == chunk[..n];
        if chunk[n].redaction.Some? {
          continue;
        }
        lastId := chunk[n].id;
        if lastId == "" {
          ok := false;
          return;
        }
        index', msgIndex' := SaveOldEvent(chunk[n], index', msgIndex');
      }
      assert chunk[..|chunk|] == chunk;
    }

    /** What pagination fetched before the oldest entry, newest first, with the token to go on from.
        Returns where the visible entries start now. None stands for the error an empty key raises: the
        transaction is given up and nothing has changed. */
    method SaveOldMessages(chunk: seq<Event>, end: string) returns (r: Option<nat>)
      requires Valid() && backward + |chunk| <= START
      modifies this
      ensures r.None? <==> !Readable(chunk)
      ensures r.None? ==> Valid() && IndexTables() == old(IndexTables()) && Contents() == old(Contents())
      ensures r.Some? && Backfillable(old(Contents()), chunk) ==>
                Valid() && Contents() == Backfilled(old(Contents()), chunk, end)
      ensures r.Some? && !Backfillable(old(Contents()), chunk) ==> !Consistent(IndexTables())
      ensures r.Some? && (chunk != [] || old(items) != []) ==> BatchToken(order) == end
      ensures r.Some? ==> r.value == FirstIndex(order2msg.Keys)
      ensures backward <= old(backward) + |chunk| && forward == old(forward)
    {
      hide Rep, IndexedAs, Complete, Shown, Ids, FirstIndex;
      var index, msgIndex := OldestIndexes();
      MessageStart(msgIndex);
      if chunk == [] {
        SetOldestToken(index, end);
        return Some(msgIndex);
      }
      var tables, stored := Tables(order, evToOrder, order2msg, msg2order), events;
      ghost var s, lo0, mlo0, backward0 := Contents(), lo, mlo, backward;
      var lastId, ok;
      index, msgIndex, lastId, ok := SaveOldEvents(chunk, index, msgIndex);
      var last := chunk[|chunk| - 1];
      if !ok || (lastId == "" && last.id == "") {
        Restore(tables, stored, s, lo0, mlo0, backward0);
        return None;
      }
      MessageStart(msgIndex);
      if lastId != "" {
        BackfillableExactly(s, chunk);
        WriteOldest(lastId, index, end);
      } else {
        KeepRedaction(last, index, end);
      }
      return Some(msgIndex);
    }

    /** Puts back what a transaction that is given up had found. */
    method Restore(t: Tables, stored: map<Id, StoredEvent>, ghost s: Timeline, ghost lo0: nat, ghost mlo0: nat,
                   ghost backward0: nat)
      requires IndexedAs(t, lo0, mlo0, s.items, forward, backward0) && Complete(s) && s.events == stored
      modifies this
      ensures Valid() && IndexTables() == t && Contents() == s && backward == backward0 && forward == old(forward)
    {
      hide IndexedAs, Complete;
      order, evToOrder, order2msg, msg2order, events := t.order, t.evToOrder, t.order2msg, t.msg2order, stored;
      items, lo, mlo, backward := s.items, lo0, mlo0, backward0;
    }

    lemma MessageStart(msgIndex: nat)
      requires Valid() && AtFirst(mlo, |Shown(items)|, msgIndex)
      ensures msgIndex == FirstIndex(order2msg.Keys)
    {
      hide Rep, Shown;
      KeyRanges(IndexTables(), lo, mlo, items);
      assert Shown(items) != [] <==> mlo in order2msg.Keys;
    }

    /** The entry at the lowest index is written again, with the last id of the chunk and the token. */
    method WriteOldest(lastId: Id, index: nat, end: string)
      requires Valid() && items != [] && AtFirst(lo, |items|, index) && lastId in Ids(items)
      modifies this`order, this`items
      ensures if old(items)[0].id == lastId
              then Valid() && items == WithOldestToken(old(items), end)
              else !Consistent(IndexTables())
      ensures BatchToken(order) == end
    {
      hide Rep, Shown, Ids, Consistent;
      KeyRanges(IndexTables(), lo, mlo, items);
      OldestTokenSet(IndexTables(), lo, mlo, Contents(), forward, backward, end);
      if items[0].id != lastId {
        BatchTokenAt(order[index := OrderEntry(lastId, Some(end))], index, end);
        OverwriteBreaks(IndexTables(), lo, mlo, items, lastId, Some(end));
      }
      order := order[index := OrderEntry(lastId, Some(end))];
      items := WithOldestToken(items, end);
    }

    /** A chunk of redactions leaves its last event behind as a hidden entry, for the token. */
    method KeepRedaction(e: Event, index: nat, end: string)
      requires Valid() && AtFirst(lo, |items|, index) && backward < START && e.id != ""
      modifies this
      ensures if e.id !in Ids(old(items))
              then && Valid()
                   && items == [Item(e.id, Some(end), false)] + old(items)
                   && events == old(events)[e.id := Stored(e)]
              else !Consistent(IndexTables())
      ensures BatchToken(order) == end && order2msg == old(order2msg)
      ensures backward == old(backward) + 1 && forward == old(forward)
    {
      hide Rep, Shown, Ids, Consistent;
      ghost var x := Item(e.id, Some(end), false);
      RedactionKept(IndexTables(), lo, mlo, Contents(), forward, backward, e, end, index);
      var index' := index - 1;
      events := events[e.id := Stored(e)];
      evToOrder := evToOrder[e.id := index'];
      order := order[index' := OrderEntry(e.id, Some(end))];
      items, lo, backward := [x] + items, index', backward + 1;
    }

    method DeleteEntry(k: nat, id: Id)
      modifies this`order, this`evToOrder, this`order2msg, this`msg2order, this`events
      ensures IndexTables() == WithoutEntry(old(IndexTables()), k, id) && events == old(events) - {id}
    {
      evToOrder := evToOrder - {id};
      events := events - {id};
      if id in msg2order {
        order2msg := order2msg - {msg2order[id]};
        msg2order := msg2order - {id};
      }
      order := order - {k};
    }

    /** Walks from the newest entry to the oldest and deletes everything before the first entry with
        a token. */
    method ClearTimeline()
      requires Valid()
      modifies this
      ensures Valid() && Contents() == Cleared(old(Contents())) && forward == old(forward) && backward == old(backward)
    {
      hide Rep, IndexedAs, Shown, Clearing, WithoutEntry, Complete, Cleared;
      IndexedIsRep(IndexTables(), lo, mlo, items, forward, backward);
      ghost var t0, s0, p, cut := IndexTables(), Contents(), |items| - 1, |items|;
      ClearStart(t0, s0, lo, mlo);
      var passedToken := false;
      var pos := Last(order.Keys);
      while pos.Some?
        invariant unchanged(this`items, this`lo, this`mlo, this`forward, this`backward)
        invariant -1 <= p < cut <= |items| && pos == (if p < 0 then None else Some(lo + p))
        invariant Clearing(t0, s0, lo, mlo, IndexTables(), events, p, cut, passedToken)
        decreases p + 1
      {
        var k := pos.value;
        ClearStep(t0, s0, lo, mlo, IndexTables(), events, p, cut, passedToken);
        var obj := order[k];
        if passedToken {
          DeleteEntry(k, obj.id);
        } else {
          passedToken := obj.prevBatch.Some?;
          cut := p;
        }
        pos := Before(order.Keys, k);
        p := p - 1;
      }
      ClearEnd(t0, s0, lo, mlo, IndexTables(), events, cut, passedToken, forward, backward);
      if passedToken {
        items, lo, mlo := items[cut..], lo + cut, mlo + |Shown(items[..cut])|;
      }
    }

    /** Deletes from the oldest entry on until max + 1 entries are left. */
    method DeleteOldMessages(max: nat)
      requires Valid()
      modifies this
      ensures Valid() && Contents() == Trimmed(old(Contents()), max)
      ensures forward == old(forward) && backward == old(backward)
    {
      hide Rep, IndexedAs, Shown, Gone, WithoutEntry, Complete;
      IndexedIsRep(IndexTables(), lo, mlo, items, forward, backward);
      ghost var t0, s0, n := IndexTables(), Contents(), 0;
      NothingGone(t0, s0, lo, mlo, 0);
      LastKey(t0, lo, mlo, items);
      var last := Last(order.Keys);
      var pos := First(order.Keys);
      if last.None? || pos.None? {
        return;
      }
      var count := last.value - pos.value;
      if count < max {
        return;
      }
      while pos.Some? && count > max
        invariant unchanged(this`items, this`lo, this`mlo, this`forward, this`backward)
        invariant n + count + 1 == |items| && count >= max && pos == Some(lo + n)
        invariant Gone(t0, s0, lo, mlo, IndexTables(), events, 0, n)
        decreases count
      {
        var k := pos.value;
        count := count - 1;
        GoneKeys(t0, s0, lo, mlo, IndexTables(), events, 0, n);
        var obj := order[k];
        OneMoreGone(t0, s0, lo, mlo, IndexTables(), events, 0, n, n);
        DeleteEntry(k, obj.id);
        n := n + 1;
        GoneKeys(t0, s0, lo, mlo, IndexTables(), events, 0, n);
        pos := After(order.Keys, k);
      }
      Dropped(t0, IndexTables(), lo, mlo, s0, events, forward, backward, n);
      items, lo, mlo := items[n..], lo + n, mlo + |Shown(items[..n])|;
    }

    method PreviousBatchToken() returns (token: string)
      requires Valid()
      ensures token == PreviousBatch(items) == BatchToken(order)
    {
      hide Rep;
      if items != [] {
        EntryAt(IndexTables(), lo, mlo, items, 0);
      }
      KeyRanges(IndexTables(), lo, mlo, items);
      var first := First(order.Keys);
      if first.None? {
        return "";
      }
      var entry := order[first.value];
      token := if entry.prevBatch.Some? then entry.prevBatch.value else "";
    }

    /** The newest visible event not after the given one, with its index. */
    method LastVisibleEvent(eventId: Id) returns (r: Option<(nat, Id)>)
      requires Valid()
      ensures r == None <==> eventId !in Ids(items)
      ensures r.Some? ==> var j := LastVisible(items, IndexOf(items, eventId)); r.value == (lo + j, items[j].id)
    {
      hide Rep, IndexedAs, Ids, LastVisible, IsLastVisible, Complete;
      IndexedIsRep(IndexTables(), lo, mlo, items, forward, backward);
      RepIds(IndexTables(), lo, mlo, items);
      if eventId == "" || eventId !in evToOrder {
        return None;
      }
      ghost var i := IndexOf(items, eventId);
      IndexIs(IndexTables(), lo, mlo, items, i);
      EntryAt(IndexTables(), lo, mlo, items, i);
      var idx, evId := evToOrder[eventId], eventId;
      var pos := if idx in order then Some(idx) else None;
      ghost var n: nat := i + 1;
      while pos.Some?
        invariant 0 <= n <= i + 1 && pos == (if n == 0 then None else Some(lo + n - 1))
        invariant LastVisible(items, i) == if n == 0 then 0 else LastVisible(items, n - 1)
        invariant n <= i ==> idx == lo + n && evId == items[n].id
        decreases n
      {
        idx := pos.value;
        ReadAt(IndexTables(), lo, mlo, items, n - 1);
        LastVisibleStep(items, n - 1);
        evId := order[idx].id;
        if evId in msg2order {
          return Some((idx, evId));
        }
        n := n - 1;
        pos := Before(order.Keys, idx);
      }
      return Some((idx, evId));
    }

    /** The last of the hidden events that directly follow the given one, with its index. */
    method LastInvisibleEventAfter(eventId: Id) returns (r: Option<(nat, Id)>)
      requires Valid()
      ensures r == None <==> eventId !in Ids(items)
      ensures r.Some? ==> var j := LastHiddenAfter(items, IndexOf(items, eventId)); r.value == (lo + j, items[j].id)
    {
      hide Rep, IndexedAs, Ids, LastHiddenAfter, IsLastHiddenAfter, Complete;
      IndexedIsRep(IndexTables(), lo, mlo, items, forward, backward);
      RepIds(IndexTables(), lo, mlo, items);
      if eventId == "" || eventId !in evToOrder {
        return None;
      }
      ghost var i := IndexOf(items, eventId);
      IndexIs(IndexTables(), lo, mlo, items, i);
      var prevIdx, prevId := evToOrder[eventId], eventId;
      ghost var j := i;
      ReadAt(IndexTables(), lo, mlo, items, j);
      var pos := After(order.Keys, prevIdx);
      while pos.Some?
        invariant j < |items| && prevIdx == lo + j && prevId == items[j].id
        invariant pos == (if j + 1 == |items| then None else Some(lo + j + 1))
        invariant LastHiddenAfter(items, i) == LastHiddenAfter(items, j)
        decreases |items| - j
      {
        LastHiddenStep(items, j);
        ReadAt(IndexTables(), lo, mlo, items, j + 1);
        var evId := order[pos.value].id;
        if evId in msg2order {
          return Some((prevIdx, prevId));
        }
        prevIdx, prevId := pos.value, evId;
        j := j + 1;
        pos := After(order.Keys, prevIdx);
      }
      LastHiddenStep(items, j);
      return Some((prevIdx, prevId));
    }

    /** Local echoes enter as a sync of one event that carries its transaction id as its id. */
    method SavePendingMessage(message: Event)
      requires Valid() && SyncAllowed(Contents(), false, "", [message]) && forward < START
      modifies this
      ensures Valid() && Contents() == Synced(old(Contents()), false, "", [message])
      ensures forward <= old(forward) + 1 && backward == old(backward)
    {
      SaveTimelineMessages(false, "", [message]);
    }

    /** Any run whose steps meet their assumptions keeps the tables in step with the sequence. */
    method Run(run: seq<Step>)
      requires Valid() && RunAllowed(Contents(), run)
      requires forward + TotalForward(run) <= START && backward + TotalBackward(run) <= START
      modifies this
      ensures Valid() && Consistent(IndexTables()) && Contents() == ApplyAll(old(Contents()), run)
      ensures forward <= old(forward) + TotalForward(run) && backward <= old(backward) + TotalBackward(run)
      ensures forall k :: k in order || k in order2msg ==> k < INDEX_RANGE
    {
      hide Rep, Consistent, Allowed, Apply;
      for n := 0 to |run|
        invariant Valid() && RunAllowed(old(Contents()), run[..n]) && Contents() == ApplyAll(old(Contents()), run[..n])
        invariant forward <= old(forward) + TotalForward(run[..n])
        invariant backward <= old(backward) + TotalBackward(run[..n])
      {
        PrefixesAllowed(old(Contents()), run, n);
        assert run[..n + 1][..n] == run[..n];
        Perform(run[n]);
      }
      assert run[..|run|] == run;
      RepIsConsistent(IndexTables(), lo, mlo, items);
      IndexesFit(IndexTables(), lo, mlo, items, forward, backward);
    }

    method Perform(step: Step)
      requires Valid() && Allowed(Contents(), step)
      requires forward + step.AddsForward() <= START && backward + step.AddsBackward() <= START
      modifies this
      ensures Valid() && Contents() == Apply(old(Contents()), step)
      ensures forward <= old(forward) + step.AddsForward() && backward <= old(backward) + step.AddsBackward()
    {
      hide Rep;
      match step
      case Sync(limited, prevBatch, evs) => SaveTimelineMessages(limited, prevBatch, evs);
      case LocalEcho(message) => SavePendingMessage(message);
      case Backfill(chunk, end) => var msgIndex := SaveOldMessages(chunk, end);
      case Clear => ClearTimeline();
      case Trim(max) => DeleteOldMessages(max);
    }
  }
}
