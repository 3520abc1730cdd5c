/** The four index tables of a room and the one sequence of timeline entries they stand for. */
module TimelineTables {
  import opened Options
  import opened OrderedKeys
  import opened PairedTables
  import opened Sequences

  /** A value of the order table: the event and, if it starts a batch, the pagination token. */
  datatype OrderEntry = OrderEntry(id: Id, prevBatch: Option<string>)

  datatype Tables = Tables(
    order: map<nat, OrderEntry>,   // index -> event
    evToOrder: map<Id, nat>,       // event -> index
    order2msg: map<nat, Id>,       // index -> visible event
    msg2order: map<Id, nat>)       // visible event -> index

  /** One timeline entry; the sequence of them has the oldest first. */
  datatype Item = Item(id: Id, prevBatch: Option<string>, visible: bool)

  ghost function Ids(items: seq<Item>): (ids: seq<Id>)
    ensures |ids| == |items| && forall i :: 0 <= i < |items| ==> ids[i] == items[i].id
  {
    seq(|items|, i requires 0 <= i < |items| => items[i].id)
  }

  /** The ids of the visible entries. */
  ghost function Shown(items: seq<Item>): seq<Id> {
    if items == [] then []
    else
      var last := items[|items| - 1];
      Shown(items[..|items| - 1]) + if last.visible then [last.id] else []
  }

  ghost function Events(order: map<nat, OrderEntry>): map<nat, Id> {
    map k | k in order :: order[k].id
  }

  ghost predicate TokensRep(order: map<nat, OrderEntry>, lo: nat, items: seq<Item>) {
    forall k :: k in order && lo <= k < lo + |items| ==> order[k].prevBatch == items[k - lo].prevBatch
  }

  ghost predicate OrderRep(order: map<nat, OrderEntry>, evToOrder: map<Id, nat>, lo: nat, items: seq<Item>) {
    SeqRep(Events(order), evToOrder, lo, Ids(items)) && TokensRep(order, lo, items)
  }

  ghost predicate MessageRep(order2msg: map<nat, Id>, msg2order: map<Id, nat>, mlo: nat, items: seq<Item>) {
    SeqRep(order2msg, msg2order, mlo, Shown(items))
  }

  /** The tables hold exactly these entries: all of them at consecutive indexes from lo, the visible
      ones again at consecutive indexes from mlo. */
  ghost predicate Rep(t: Tables, lo: nat, mlo: nat, items: seq<Item>) {
    && "" !in Ids(items)
    && OrderRep(t.order, t.evToOrder, lo, items)
    && MessageRep(t.order2msg, t.msg2order, mlo, items)
  }

  /** What the four tables promise: each pair is mutually inverse over gap-free indexes, every visible
      event is ordered, and both orders agree. */
  ghost predicate Consistent(t: Tables) {
    && Inverse(Events(t.order), t.evToOrder) && GapFree(t.order.Keys)
    && Inverse(t.order2msg, t.msg2order) && GapFree(t.order2msg.Keys)
    && t.msg2order.Keys <= t.evToOrder.Keys
    && (forall a, b :: a in t.msg2order && b in t.msg2order ==>
          (t.msg2order[a] < t.msg2order[b] <==> t.evToOrder[a] < t.evToOrder[b]))
  }

  lemma {:induction false} ShownConcat(a: seq<Item>, b: seq<Item>)
    ensures Shown(a + b) == Shown(a) + Shown(b)
  {
    if b == [] {
      assert a + b == a;
    } else {
      var front := b[..|b| - 1];
      ShownConcat(a, front);
      assert (a + b)[..|a + b| - 1] == a + front;
    }
  }

  lemma ShownOne(x: Item)
    ensures Shown([x]) == if x.visible then [x.id] else []
  {
    assert [x][..0] == [];
  }

  /** Where a visible entry stands among the visible ones. */
  lemma ShownAt(items: seq<Item>, i: nat)
    requires i < |items| && items[i].visible
    ensures |Shown(items[..i])| < |Shown(items)| && Shown(items)[|Shown(items[..i])|] == items[i].id
    ensures forall j :: i < j <= |items| ==> |Shown(items[..i])| < |Shown(items[..j])|
  {
    ShownSplit(items, i);
    forall j | i < j <= |items| ensures |Shown(items[..i])| < |Shown(items[..j])| {
      ShownSplit(items[..j], i);
      assert items[..j][..i] == items[..i];
    }
  }

  lemma ShownSplit(items: seq<Item>, i: nat)
    requires i < |items|
    ensures Shown(items) ==
              Shown(items[..i]) + (if items[i].visible then [items[i].id] else []) + Shown(items[i + 1..])
  {
    hide Shown;
    SplitAround(items, i);
    ShownConcat(items[..i], [items[i]] + items[i + 1..]);
    ShownConcat([items[i]], items[i + 1..]);
    ShownOne(items[i]);
    Associative(Shown(items[..i]), Shown([items[i]]), Shown(items[i + 1..]));
  }

  lemma {:induction false} ShownIsVisible(items: seq<Item>, id: Id) returns (i: nat)
    requires id in Shown(items)
    ensures i < |items| && items[i].id == id && items[i].visible
  {
    var front := items[..|items| - 1];
    if id in Shown(front) {
      i := ShownIsVisible(front, id);
    } else {
      i := |items| - 1;
    }
  }

  /** Where the tables keep a visible event. */
  lemma VisibleAt(t: Tables, lo: nat, mlo: nat, items: seq<Item>, id: Id) returns (i: nat)
    requires Rep(t, lo, mlo, items) && id in t.msg2order
    ensures i < |items| && items[i].id == id && items[i].visible
    ensures id in t.evToOrder && t.evToOrder[id] == lo + i && t.msg2order[id] == mlo + |Shown(items[..i])|
  {
    i := ShownIsVisible(items, id);
    ShownAt(items, i);
    assert Ids(items)[i] == id;
  }

  lemma RepIsConsistent(t: Tables, lo: nat, mlo: nat, items: seq<Item>)
    requires Rep(t, lo, mlo, items)
    ensures Consistent(t)
  {
    hide SeqRep, Inverse, GapFree, Shown;
    RepIsInverse(Events(t.order), t.evToOrder, lo, Ids(items));
    RepIsInverse(t.order2msg, t.msg2order, mlo, Shown(items));
    assert t.order.Keys == Events(t.order).Keys;
    OrdersAgree(t, lo, mlo, items);
  }

  lemma OrdersAgree(t: Tables, lo: nat, mlo: nat, items: seq<Item>)
    requires Rep(t, lo, mlo, items)
    ensures t.msg2order.Keys <= t.evToOrder.Keys
    ensures forall a, b :: a in t.msg2order && b in t.msg2order ==>
              (t.msg2order[a] < t.msg2order[b] <==> t.evToOrder[a] < t.evToOrder[b])
  {
    forall a | a in t.msg2order ensures a in t.evToOrder {
      var i := VisibleAt(t, lo, mlo, items, a);
    }
    forall a, b | a in t.msg2order && b in t.msg2order
      ensures t.msg2order[a] < t.msg2order[b] <==> t.evToOrder[a] < t.evToOrder[b]
    {
      var i := VisibleAt(t, lo, mlo, items, a);
      var j := VisibleAt(t, lo, mlo, items, b);
      ShownAt(items, i);
      ShownAt(items, j);
    }
  }

  lemma RepIds(t: Tables, lo: nat, mlo: nat, items: seq<Item>)
    requires Rep(t, lo, mlo, items)
    ensures Distinct(Ids(items)) && "" !in Ids(items)
    ensures forall id :: id in t.evToOrder <==> id in Ids(items)
  {
  }

  lemma KeyRanges(t: Tables, lo: nat, mlo: nat, items: seq<Item>)
    requires Rep(t, lo, mlo, items)
    ensures forall k :: k in t.order <==> lo <= k < lo + |items|
    ensures forall k :: k in t.order2msg <==> mlo <= k < mlo + |Shown(items)|
  {
    forall k ensures k in t.order <==> lo <= k < lo + |items| {
      assert k in t.order <==> k in Events(t.order);
    }
  }

  lemma EntryAt(t: Tables, lo: nat, mlo: nat, items: seq<Item>, i: nat)
    requires Rep(t, lo, mlo, items) && i < |items|
    ensures lo + i in t.order && t.order[lo + i] == OrderEntry(items[i].id, items[i].prevBatch)
  {
    assert lo + i in Events(t.order) && Events(t.order)[lo + i] == Ids(items)[i];
  }

  lemma ShownIsListed(items: seq<Item>, id: Id)
    ensures id in Shown(items) ==> id in Ids(items)
  {
    if id in Shown(items) {
      var i := ShownIsVisible(items, id);
      assert Ids(items)[i] == id;
    }
  }

  // How a timeline grows

  /** One more entry, written at the given indexes. */
  function WithEntry(t: Tables, x: Item, key: nat, mkey: nat): Tables {
    Tables(t.order[key := OrderEntry(x.id, x.prevBatch)], t.evToOrder[x.id := key],
           if x.visible then t.order2msg[mkey := x.id] else t.order2msg,
           if x.visible then t.msg2order[x.id := mkey] else t.msg2order)
  }

  lemma EventsUpdate(order: map<nat, OrderEntry>, key: nat, e: OrderEntry)
    ensures Events(order[key := e]) == Events(order)[key := e.id]
  {
  }

  lemma AppendOrder(order: map<nat, OrderEntry>, evToOrder: map<Id, nat>, lo: nat, items: seq<Item>, x: Item,
                    key: nat)
    requires OrderRep(order, evToOrder, lo, items) && x.id !in Ids(items) && (items != [] ==> key == lo + |items|)
    ensures OrderRep(order[key := OrderEntry(x.id, x.prevBatch)], evToOrder[x.id := key],
                     if items == [] then key else lo, items + [x])
  {
    hide SeqRep;
    EventsUpdate(order, key, OrderEntry(x.id, x.prevBatch));
    PairedTables.AppendKeepsRep(Events(order), evToOrder, lo, Ids(items), x.id, key);
    assert Ids(items + [x]) == Ids(items) + [x.id];
    assert Ids(items) == [] <==> items == [];
  }

  lemma AppendShown(order2msg: map<nat, Id>, msg2order: map<Id, nat>, mlo: nat, items: seq<Item>, x: Item, mkey: nat)
    requires MessageRep(order2msg, msg2order, mlo, items) && x.id !in Ids(items)
    requires x.visible && Shown(items) != [] ==> mkey == mlo + |Shown(items)|
    ensures if x.visible
            then MessageRep(order2msg[mkey := x.id], msg2order[x.id := mkey],
                            if Shown(items) == [] then mkey else mlo, items + [x])
            else MessageRep(order2msg, msg2order, mlo, items + [x])
  {
    ShownConcat(items, [x]);
    ShownOne(x);
    ShownIsListed(items, x.id);
    if x.visible {
      PairedTables.AppendKeepsRep(order2msg, msg2order, mlo, Shown(items), x.id, mkey);
    }
  }

  lemma AppendEntry(t: Tables, lo: nat, mlo: nat, items: seq<Item>, x: Item, key: nat, mkey: nat)
    requires Rep(t, lo, mlo, items) && x.id !in Ids(items) && x.id != ""
    requires items != [] ==> key == lo + |items|
    requires x.visible && Shown(items) != [] ==> mkey == mlo + |Shown(items)|
    ensures Rep(WithEntry(t, x, key, mkey), if items == [] then key else lo,
                if x.visible && Shown(items) == [] then mkey else mlo, items + [x])
  {
    AppendOrder(t.order, t.evToOrder, lo, items, x, key);
    AppendShown(t.order2msg, t.msg2order, mlo, items, x, mkey);
    assert Ids(items + [x]) == Ids(items) + [x.id];
  }

  lemma PrependOrder(order: map<nat, OrderEntry>, evToOrder: map<Id, nat>, lo: nat, items: seq<Item>, x: Item,
                     key: nat)
    requires OrderRep(order, evToOrder, lo, items) && x.id !in Ids(items) && (items != [] ==> key + 1 == lo)
    ensures OrderRep(order[key := OrderEntry(x.id, x.prevBatch)], evToOrder[x.id := key], key, [x] + items)
  {
    EventsUpdate(order, key, OrderEntry(x.id, x.prevBatch));
    PairedTables.PrependKeepsRep(Events(order), evToOrder, lo, Ids(items), x.id, key);
    assert Ids([x] + items) == [x.id] + Ids(items);
    PrependTokens(order, lo, items, x, key);
  }

  lemma PrependTokens(order: map<nat, OrderEntry>, lo: nat, items: seq<Item>, x: Item, key: nat)
    requires TokensRep(order, lo, items) && (items != [] ==> key + 1 == lo)
    ensures TokensRep(order[key := OrderEntry(x.id, x.prevBatch)], key, [x] + items)
  {
  }

  lemma PrependShown(order2msg: map<nat, Id>, msg2order: map<Id, nat>, mlo: nat, items: seq<Item>, x: Item, mkey: nat)
    requires MessageRep(order2msg, msg2order, mlo, items) && x.id !in Ids(items)
    requires x.visible && Shown(items) != [] ==> mkey + 1 == mlo
    ensures if x.visible then MessageRep(order2msg[mkey := x.id], msg2order[x.id := mkey], mkey, [x] + items)
            else MessageRep(order2msg, msg2order, mlo, [x] + items)
  {
    ShownConcat([x], items);
    ShownOne(x);
    ShownIsListed(items, x.id);
    if x.visible {
      PairedTables.PrependKeepsRep(order2msg, msg2order, mlo, Shown(items), x.id, mkey);
    } else {
      assert [] + Shown(items) == Shown(items);
    }
  }

  lemma PrependEntry(t: Tables, lo: nat, mlo: nat, items: seq<Item>, x: Item, key: nat, mkey: nat)
    requires Rep(t, lo, mlo, items) && x.id !in Ids(items) && x.id != ""
    requires items != [] ==> key + 1 == lo
    requires x.visible && Shown(items) != [] ==> mkey + 1 == mlo
    ensures Rep(WithEntry(t, x, key, mkey), key, if x.visible then mkey else mlo, [x] + items)
  {
    PrependOrder(t.order, t.evToOrder, lo, items, x, key);
    PrependShown(t.order2msg, t.msg2order, mlo, items, x, mkey);
    assert Ids([x] + items) == [x.id] + Ids(items);
  }

  /** A local echo is replaced by the event it became: the id changes, both positions stay. */
  function WithEcho(t: Tables, txnId: Id, id: Id, prevBatch: Option<string>): Tables
    requires txnId in t.evToOrder
  {
    var key := t.evToOrder[txnId];
    Tables(t.order[key := OrderEntry(id, prevBatch)], t.evToOrder[id := key] - {txnId},
           if txnId in t.msg2order then t.order2msg[t.msg2order[txnId] := id] else t.order2msg,
           if txnId in t.msg2order then t.msg2order[id := t.msg2order[txnId]] - {txnId} else t.msg2order)
  }

  lemma ReplaceOrder(order: map<nat, OrderEntry>, evToOrder: map<Id, nat>, lo: nat, items: seq<Item>, i: nat, x: Item)
    requires OrderRep(order, evToOrder, lo, items) && i < |items| && x.id !in Ids(items)
    ensures items[i].id in evToOrder
    ensures var key := evToOrder[items[i].id];
            OrderRep(order[key := OrderEntry(x.id, x.prevBatch)], evToOrder[x.id := key] - {items[i].id}, lo,
                     items[i := x])
  {
    assert Ids(items)[i] == items[i].id;
    EventsUpdate(order, evToOrder[items[i].id], OrderEntry(x.id, x.prevBatch));
    ReplaceKeepsRep(Events(order), evToOrder, lo, Ids(items), i, x.id);
    assert Ids(items[i := x]) == Ids(items)[i := x.id];
  }

  lemma ReplaceShown(order2msg: map<nat, Id>, msg2order: map<Id, nat>, mlo: nat, items: seq<Item>, i: nat, x: Item)
    requires MessageRep(order2msg, msg2order, mlo, items) && Distinct(Ids(items))
    requires i < |items| && x.id !in Ids(items) && x.visible == items[i].visible
    ensures items[i].id in msg2order <==> x.visible
    ensures if x.visible
            then MessageRep(order2msg[msg2order[items[i].id] := x.id],
                            msg2order[x.id := msg2order[items[i].id]] - {items[i].id}, mlo, items[i := x])
            else MessageRep(order2msg, msg2order, mlo, items[i := x])
  {
    ShownReplaced(items, i, x);
    ShownIsListed(items, x.id);
    if x.visible {
      ReplaceKeepsRep(order2msg, msg2order, mlo, Shown(items), |Shown(items[..i])|, x.id);
    } else {
      HiddenIsNotShown(items, i);
    }
  }

  lemma ShownReplaced(items: seq<Item>, i: nat, x: Item)
    requires i < |items| && x.visible == items[i].visible
    ensures var n := |Shown(items[..i])|;
            if x.visible
            then && n < |Shown(items)| && Shown(items)[n] == items[i].id
                 && Shown(items[i := x]) == Shown(items)[n := x.id]
            else Shown(items[i := x]) == Shown(items)
  {
    hide Shown;
    var items' := items[i := x];
    ShownSplit(items, i);
    ShownSplit(items', i);
    assert items'[..i] == items[..i] && items'[i + 1..] == items[i + 1..];
  }

  lemma SameId(items: seq<Item>, i: nat, j: nat)
    requires Distinct(Ids(items)) && i < |items| && j < |items| && items[i].id == items[j].id
    ensures i == j
  {
    assert Ids(items)[i] == Ids(items)[j];
  }

  lemma HiddenIsNotShown(items: seq<Item>, i: nat)
    requires Distinct(Ids(items)) && i < |items| && !items[i].visible
    ensures items[i].id !in Shown(items)
  {
    hide Shown, Ids;
    if items[i].id in Shown(items) {
      var j := ShownIsVisible(items, items[i].id);
      SameId(items, i, j);
    }
  }

  lemma ReplaceEntry(t: Tables, lo: nat, mlo: nat, items: seq<Item>, i: nat, id: Id, prevBatch: Option<string>)
    requires Rep(t, lo, mlo, items) && i < |items| && id !in Ids(items) && id != ""
    ensures items[i].id in t.evToOrder
    ensures Rep(WithEcho(t, items[i].id, id, prevBatch), lo, mlo, items[i := Item(id, prevBatch, items[i].visible)])
  {
    var x := Item(id, prevBatch, items[i].visible);
    ReplaceOrder(t.order, t.evToOrder, lo, items, i, x);
    ReplaceShown(t.order2msg, t.msg2order, mlo, items, i, x);
    assert Ids(items[i := x]) == Ids(items)[i := id];
  }

  /** The oldest entry gets a token. */
  lemma TokenAtOldest(t: Tables, lo: nat, mlo: nat, items: seq<Item>, token: Option<string>)
    requires Rep(t, lo, mlo, items) && items != []
    ensures Rep(t.(order := t.order[lo := OrderEntry(items[0].id, token)]), lo, mlo,
              items[0 := items[0].(prevBatch := token)])
  {
    var x := items[0].(prevBatch := token);
    SameIds(items, x);
    TokenInOrder(t.order, t.evToOrder, lo, items, x);
    TokensUpdated(t.order, lo, items, x);
  }

  lemma SameIds(items: seq<Item>, x: Item)
    requires items != [] && x.id == items[0].id && x.visible == items[0].visible
    ensures Ids(items[0 := x]) == Ids(items) && Shown(items[0 := x]) == Shown(items)
  {
    ShownReplaced(items, 0, x);
  }

  lemma TokenInOrder(order: map<nat, OrderEntry>, evToOrder: map<Id, nat>, lo: nat, items: seq<Item>, x: Item)
    requires OrderRep(order, evToOrder, lo, items) && items != [] && x.id == items[0].id
    ensures Events(order[lo := OrderEntry(x.id, x.prevBatch)]) == Events(order)
  {
    assert Events(order)[lo] == Ids(items)[0];
  }

  lemma TokensUpdated(order: map<nat, OrderEntry>, lo: nat, items: seq<Item>, x: Item)
    requires TokensRep(order, lo, items) && items != []
    ensures TokensRep(order[lo := OrderEntry(x.id, x.prevBatch)], lo, items[0 := x])
  {
  }

  // What can break the tables

  /** The assumption on echoes is exact: the tables survive one if and only if the id it is given is
      not in the timeline yet. */
  lemma EchoIsSafeExactly(t: Tables, lo: nat, mlo: nat, items: seq<Item>, i: nat, id: Id, token: Option<string>)
    requires Rep(t, lo, mlo, items) && i < |items| && id != ""
    ensures items[i].id in t.evToOrder
    ensures Consistent(WithEcho(t, items[i].id, id, token)) <==> id !in Ids(items)
  {
    hide Rep, Consistent, WithEcho;
    IndexIs(t, lo, mlo, items, i);
    if id in Ids(items) {
      EchoBreaks(t, lo, mlo, items, i, id, token);
    } else {
      ReplaceEntry(t, lo, mlo, items, i, id, token);
      RepIsConsistent(WithEcho(t, items[i].id, id, token), lo, mlo, items[i := Item(id, token, items[i].visible)]);
    }
  }

  lemma EchoBreaks(t: Tables, lo: nat, mlo: nat, items: seq<Item>, i: nat, id: Id, token: Option<string>)
    requires Rep(t, lo, mlo, items) && i < |items| && id in Ids(items) && items[i].id in t.evToOrder
    ensures !Consistent(WithEcho(t, items[i].id, id, token))
  {
    hide Rep;
    var t' := WithEcho(t, items[i].id, id, token);
    var j :| 0 <= j < |items| && Ids(items)[j] == id;
    IndexIs(t, lo, mlo, items, i);
    EntryAt(t, lo, mlo, items, j);
    assert lo + j in Events(t'.order) && Events(t'.order)[lo + j] == id;
  }

  /** Writing another event's id over the oldest entry leaves that id at two indexes. */
  lemma OverwriteBreaks(t: Tables, lo: nat, mlo: nat, items: seq<Item>, id: Id, token: Option<string>)
    requires Rep(t, lo, mlo, items) && items != [] && id in Ids(items) && items[0].id != id
    ensures !Consistent(t.(order := t.order[lo := OrderEntry(id, token)]))
  {
    var order' := t.order[lo := OrderEntry(id, token)];
    var i :| 0 <= i < |items| && Ids(items)[i] == id;
    assert t.evToOrder[id] == lo + i != lo;
    assert lo in Events(order') && Events(order')[lo] == id;
  }

  /** Listing an event a second time, before the oldest entry, orphans its first index. */
  lemma RelistBreaks(t: Tables, lo: nat, mlo: nat, items: seq<Item>, id: Id, token: Option<string>, key: nat)
    requires Rep(t, lo, mlo, items) && id in Ids(items) && key + 1 == lo
    ensures !Consistent(t.(order := t.order[key := OrderEntry(id, token)], evToOrder := t.evToOrder[id := key]))
  {
    var order' := t.order[key := OrderEntry(id, token)];
    var i :| 0 <= i < |items| && Ids(items)[i] == id;
    assert lo + i in Events(t.order) && Events(t.order)[lo + i] == id;
    assert lo + i in Events(order') && Events(order')[lo + i] == id;
  }

  // How a timeline shrinks

  ghost predicate SubTable(order': map<nat, OrderEntry>, order: map<nat, OrderEntry>) {
    forall k :: k in order' ==> k in order && order'[k] == order[k]
  }

  ghost predicate OrderRemoved(order: map<nat, OrderEntry>, evToOrder: map<Id, nat>, order': map<nat, OrderEntry>,
                               evToOrder': map<Id, nat>, lo: nat, items: seq<Item>, i: nat, j: nat) {
    Removed(Events(order), evToOrder, Events(order'), evToOrder', lo, Ids(items), i, j) && SubTable(order', order)
  }

  ghost predicate MessagesRemoved(order2msg: map<nat, Id>, msg2order: map<Id, nat>, order2msg': map<nat, Id>,
                                  msg2order': map<Id, nat>, mlo: nat, items: seq<Item>, i: nat, j: nat) {
    i <= j <= |items| &&
    Removed(order2msg, msg2order, order2msg', msg2order', mlo, Shown(items), |Shown(items[..i])|, |Shown(items[..j])|)
  }

  /** The tables t' are left of t when the entries at the positions from i up to j are deleted. */
  ghost predicate EntriesRemoved(t: Tables, t': Tables, lo: nat, mlo: nat, items: seq<Item>, i: nat, j: nat) {
    && OrderRemoved(t.order, t.evToOrder, t'.order, t'.evToOrder, lo, items, i, j)
    && MessagesRemoved(t.order2msg, t.msg2order, t'.order2msg, t'.msg2order, mlo, items, i, j)
  }

  /** The tables after the entry of one event is deleted. */
  function WithoutEntry(t: Tables, key: nat, id: Id): Tables {
    Tables(t.order - {key}, t.evToOrder - {id},
           if id in t.msg2order then t.order2msg - {t.msg2order[id]} else t.order2msg,
           if id in t.msg2order then t.msg2order - {id} else t.msg2order)
  }

  lemma ShownUpTo(items: seq<Item>, i: nat)
    requires i < |items|
    ensures |Shown(items[..i + 1])| == |Shown(items[..i])| + (if items[i].visible then 1 else 0) <= |Shown(items)|
    ensures items[i].visible ==> Shown(items)[|Shown(items[..i])|] == items[i].id
  {
    assert items[..i + 1] == items[..i] + [items[i]];
    ShownConcat(items[..i], [items[i]]);
    ShownOne(items[i]);
    ShownSplit(items, i);
  }

  lemma EntryStillThere(order: map<nat, OrderEntry>, evToOrder: map<Id, nat>, order': map<nat, OrderEntry>,
                        evToOrder': map<Id, nat>, lo: nat, items: seq<Item>, i: nat, j: nat, n: nat)
    requires SeqRep(Events(order), evToOrder, lo, Ids(items))
    requires OrderRemoved(order, evToOrder, order', evToOrder', lo, items, i, j)
    requires n < |items| && !(i <= n < j)
    ensures lo + n in order' && order'[lo + n] == order[lo + n] && order[lo + n].id == items[n].id
  {
    StillThere(Events(order), evToOrder, Events(order'), evToOrder', lo, Ids(items), i, j, n);
    assert lo + n in Events(order');
  }

  lemma RemoveFromOrder(order: map<nat, OrderEntry>, evToOrder: map<Id, nat>, order': map<nat, OrderEntry>,
                        evToOrder': map<Id, nat>, lo: nat, items: seq<Item>, i: nat, j: nat, n: nat)
    requires OrderRemoved(order, evToOrder, order', evToOrder', lo, items, i, j)
    requires n < |items| && (n == j || n + 1 == i)
    ensures OrderRemoved(order, evToOrder, order' - {lo + n}, evToOrder' - {items[n].id}, lo, items,
                         if n == j then i else n, if n == j then j + 1 else j)
  {
    RemoveAt(Events(order), evToOrder, Events(order'), evToOrder', lo, Ids(items), i, j, n);
    EventsWithout(order', lo + n);
  }

  lemma EventsWithout(order: map<nat, OrderEntry>, k: nat)
    ensures Events(order - {k}) == Events(order) - {k}
  {
  }

  lemma MessageStillThere(order2msg: map<nat, Id>, msg2order: map<Id, nat>, order2msg': map<nat, Id>,
                          msg2order': map<Id, nat>, mlo: nat, items: seq<Item>, i: nat, j: nat, n: nat)
    requires MessageRep(order2msg, msg2order, mlo, items) && Distinct(Ids(items))
    requires MessagesRemoved(order2msg, msg2order, order2msg', msg2order', mlo, items, i, j)
    requires n < |items| && (n == j || n + 1 == i)
    ensures items[n].id in msg2order' <==> items[n].visible
    ensures items[n].visible ==> msg2order'[items[n].id] == mlo + |Shown(items[..n])|
  {
    ShownUpTo(items, n);
    if items[n].visible {
      StillThere(order2msg, msg2order, order2msg', msg2order', mlo, Shown(items),
                 |Shown(items[..i])|, |Shown(items[..j])|, |Shown(items[..n])|);
    } else {
      HiddenIsNotShown(items, n);
    }
  }

  lemma RemoveFromMessages(order2msg: map<nat, Id>, msg2order: map<Id, nat>, order2msg': map<nat, Id>,
                           msg2order': map<Id, nat>, mlo: nat, items: seq<Item>, i: nat, j: nat, n: nat)
    requires MessagesRemoved(order2msg, msg2order, order2msg', msg2order', mlo, items, i, j)
    requires n < |items| && (n == j || n + 1 == i)
    ensures var mi, mj, mn := if n == j then i else n, if n == j then j + 1 else j, mlo + |Shown(items[..n])|;
            if items[n].visible
            then MessagesRemoved(order2msg, msg2order, order2msg' - {mn}, msg2order' - {items[n].id}, mlo, items,
                                 mi, mj)
            else MessagesRemoved(order2msg, msg2order, order2msg', msg2order', mlo, items, mi, mj)
  {
    ShownUpTo(items, n);
    if items[n].visible {
      RemoveAt(order2msg, msg2order, order2msg', msg2order', mlo, Shown(items),
               |Shown(items[..i])|, |Shown(items[..j])|, |Shown(items[..n])|);
    }
  }

  /** The next entry to delete, from below or from above. */
  lemma EntryKept(t: Tables, t': Tables, lo: nat, mlo: nat, items: seq<Item>, i: nat, j: nat, n: nat)
    requires Rep(t, lo, mlo, items) && EntriesRemoved(t, t', lo, mlo, items, i, j)
    requires n < |items| && (n == j || n + 1 == i)
    ensures lo + n in t'.order && t'.order[lo + n] == t.order[lo + n] && t.order[lo + n].id == items[n].id
    ensures items[n].id in t'.msg2order <==> items[n].visible
    ensures items[n].visible ==> t'.msg2order[items[n].id] == mlo + |Shown(items[..n])|
  {
    EntryStillThere(t.order, t.evToOrder, t'.order, t'.evToOrder, lo, items, i, j, n);
    MessageStillThere(t.order2msg, t.msg2order, t'.order2msg, t'.msg2order, mlo, items, i, j, n);
  }

  lemma RemoveEntry(t: Tables, t': Tables, lo: nat, mlo: nat, items: seq<Item>, i: nat, j: nat, n: nat)
    requires EntriesRemoved(t, t', lo, mlo, items, i, j) && n < |items| && (n == j || n + 1 == i)
    requires items[n].id in t'.msg2order <==> items[n].visible
    requires items[n].visible ==> t'.msg2order[items[n].id] == mlo + |Shown(items[..n])|
    ensures EntriesRemoved(t, WithoutEntry(t', lo + n, items[n].id), lo, mlo, items,
                           if n == j then i else n, if n == j then j + 1 else j)
  {
    RemoveFromOrder(t.order, t.evToOrder, t'.order, t'.evToOrder, lo, items, i, j, n);
    RemoveFromMessages(t.order2msg, t.msg2order, t'.order2msg, t'.msg2order, mlo, items, i, j, n);
  }

  lemma DropFromOrder(order: map<nat, OrderEntry>, evToOrder: map<Id, nat>, order': map<nat, OrderEntry>,
                      evToOrder': map<Id, nat>, lo: nat, items: seq<Item>, j: nat)
    requires OrderRep(order, evToOrder, lo, items)
    requires OrderRemoved(order, evToOrder, order', evToOrder', lo, items, 0, j)
    ensures OrderRep(order', evToOrder', lo + j, items[j..])
  {
    assert Ids(items[j..]) == Ids(items)[j..];
    DropKeepsRep(Events(order), evToOrder, Events(order'), evToOrder', lo, Ids(items), j);
  }

  lemma ShownDropped(items: seq<Item>, j: nat)
    requires j <= |items|
    ensures |Shown(items[..0])| == 0 && |Shown(items[..j])| <= |Shown(items)|
    ensures Shown(items)[|Shown(items[..j])|..] == Shown(items[j..])
  {
    assert items[..0] == [] && items == items[..j] + items[j..];
    ShownConcat(items[..j], items[j..]);
  }

  lemma NothingShown(items: seq<Item>)
    ensures Shown(items[..0]) == []
  {
  }

  lemma DropFromMessages(order2msg: map<nat, Id>, msg2order: map<Id, nat>, order2msg': map<nat, Id>,
                         msg2order': map<Id, nat>, mlo: nat, items: seq<Item>, j: nat)
    requires MessageRep(order2msg, msg2order, mlo, items)
    requires MessagesRemoved(order2msg, msg2order, order2msg', msg2order', mlo, items, 0, j)
    ensures MessageRep(order2msg', msg2order', mlo + |Shown(items[..j])|, items[j..])
  {
    hide SeqRep, Removed, Shown;
    NothingShown(items);
    ShownDropped(items, j);
    DropKeepsRep(order2msg, msg2order, order2msg', msg2order', mlo, Shown(items), |Shown(items[..j])|);
  }

  /** When all entries below position j are gone, the rest is a timeline again. */
  lemma DropEntries(t: Tables, t': Tables, lo: nat, mlo: nat, items: seq<Item>, j: nat)
    requires Rep(t, lo, mlo, items) && EntriesRemoved(t, t', lo, mlo, items, 0, j)
    ensures Rep(t', lo + j, mlo + |Shown(items[..j])|, items[j..])
  {
    hide SeqRep, Removed, Shown;
    DropFromOrder(t.order, t.evToOrder, t'.order, t'.evToOrder, lo, items, j);
    DropFromMessages(t.order2msg, t.msg2order, t'.order2msg, t'.msg2order, mlo, items, j);
    assert Ids(items[j..]) == Ids(items)[j..];
  }

  /** The indexes that are left while the entries from i up to j are gone. */
  lemma KeysLeft(t: Tables, t': Tables, lo: nat, mlo: nat, items: seq<Item>, i: nat, j: nat)
    requires Rep(t, lo, mlo, items) && EntriesRemoved(t, t', lo, mlo, items, i, j)
    ensures forall k :: k in t'.order <==> (lo <= k < lo + i || lo + j <= k < lo + |items|)
  {
    forall k ensures k in t'.order <==> (lo <= k < lo + i || lo + j <= k < lo + |items|) {
      assert k in t'.order <==> k in Events(t'.order);
      assert k in Range(lo + i, lo + j) <==> lo + i <= k < lo + j;
      assert k in Events(t.order) <==> lo <= k < lo + |items|;
    }
  }

  lemma NothingRemoved(t: Tables, lo: nat, mlo: nat, items: seq<Item>, i: nat)
    requires Rep(t, lo, mlo, items) && i <= |items|
    ensures EntriesRemoved(t, t, lo, mlo, items, i, i)
  {
    hide SeqRep, Shown;
    ShownDropped(items, i);
    assert Range(lo + i, lo + i) == {} && Ids(items)[i..i] == [];
  }

  /** Whether an entry is visible can be read off the message table. */
  lemma VisibleIsListed(t: Tables, lo: nat, mlo: nat, items: seq<Item>, i: nat)
    requires Rep(t, lo, mlo, items) && i < |items|
    ensures items[i].id in t.msg2order <==> items[i].visible
  {
    if items[i].visible {
      ShownAt(items, i);
    } else {
      HiddenIsNotShown(items, i);
    }
  }

  lemma IndexIs(t: Tables, lo: nat, mlo: nat, items: seq<Item>, i: nat)
    requires Rep(t, lo, mlo, items) && i < |items|
    ensures items[i].id in t.evToOrder && t.evToOrder[items[i].id] == lo + i
  {
    assert Ids(items)[i] == items[i].id;
  }

  /** What a cursor on one entry sees when it moves. */
  lemma Neighbours(t: Tables, lo: nat, mlo: nat, items: seq<Item>, i: nat)
    requires Rep(t, lo, mlo, items) && i < |items|
    ensures Before(t.order.Keys, lo + i) == if i == 0 then None else Some(lo + i - 1)
    ensures After(t.order.Keys, lo + i) == if i + 1 == |items| then None else Some(lo + i + 1)
  {
    hide Rep;
    KeyRanges(t, lo, mlo, items);
    assert i > 0 ==> lo + i - 1 in t.order.Keys;
    assert i + 1 < |items| ==> lo + i + 1 in t.order.Keys;
  }

  lemma LastKey(t: Tables, lo: nat, mlo: nat, items: seq<Item>)
    requires Rep(t, lo, mlo, items)
    ensures Last(t.order.Keys) == if items == [] then None else Some(lo + |items| - 1)
    ensures First(t.order.Keys) == if items == [] then None else Some(lo)
  {
    hide Rep;
    KeyRanges(t, lo, mlo, items);
    assert items != [] ==> lo in t.order.Keys && lo + |items| - 1 in t.order.Keys;
  }
}
