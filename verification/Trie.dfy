/** The trie as a value: what is stored under which key, how many entries there are, and which
    values a fuzzy query is meant to find. */
module TrieModel {
  import opened EditDistance
  import opened Sequences

  datatype ElementRank = First | Second

  datatype Trie<V> = Trie(values: seq<(ElementRank, V)>, next: map<Key, Trie<V>>)

  ghost function Empty<V>(): Trie<V> { Trie([], map[]) }

  /** The entries stored at one key. */
  ghost function At<V>(t: Trie<V>, key: seq<Key>): seq<(ElementRank, V)>
    decreases key
  {
    if key == [] then t.values
    else if key[0] in t.next then At(t.next[key[0]], key[1..])
    else []
  }

  ghost predicate Contains<V>(entries: seq<(ElementRank, V)>, v: V) {
    exists i :: 0 <= i < |entries| && entries[i].1 == v
  }

  ghost predicate Stored<V>(t: Trie<V>, key: seq<Key>, v: V) {
    Contains(At(t, key), v)
  }

  // Number of entries

  ghost function SumOf(m: map<Key, nat>): nat
    decreases |m|
  {
    if m == map[] then 0 else
      var k: Key :| k in m;
      m[k] + SumOf(m - {k})
  }

  lemma {:induction false} SumWithout(m: map<Key, nat>, k: Key)
    requires k in m
    ensures SumOf(m) == m[k] + SumOf(m - {k})
    decreases |m|
  {
    var c: Key :| c in m && SumOf(m) == m[c] + SumOf(m - {c});
    if c != k {
      SumWithout(m - {c}, k);
      assert m - {c} - {k} == m - {k} - {c};
      SumWithout(m - {k}, c);
    }
  }

  lemma SumWith(m: map<Key, nat>, k: Key, n: nat)
    ensures SumOf(m[k := n]) == n + SumOf(m - {k})
    ensures k in m ==> SumOf(m[k := n]) + m[k] == SumOf(m) + n
    ensures k !in m ==> SumOf(m[k := n]) == SumOf(m) + n
  {
    SumWithout(m[k := n], k);
    assert m[k := n] - {k} == m - {k};
    if k in m { SumWithout(m, k); } else { assert m - {k} == m; }
  }

  ghost function Sizes<V>(t: Trie<V>): map<Key, nat>
    decreases t, 0
  {
    map k | k in t.next :: Size(t.next[k])
  }

  ghost function Size<V>(t: Trie<V>): nat
    decreases t, 1
  {
    |t.values| + SumOf(Sizes(t))
  }

  lemma ChildSize<V>(t: Trie<V>, k: Key)
    requires k in t.next
    ensures |t.values| + Size(t.next[k]) + SumOf(Sizes(t) - {k}) == Size(t)
  {
    SumWithout(Sizes(t), k);
  }

  // Insertion

  function Place<V>(entries: seq<(ElementRank, V)>, rank: ElementRank, v: V): seq<(ElementRank, V)> {
    if rank == Second then entries + [(rank, v)]
    else entries[..FirstCount(entries)] + [(rank, v)] + entries[FirstCount(entries)..]
  }

  /** Length of the leading run of entries of rank First. */
  function FirstCount<V>(entries: seq<(ElementRank, V)>): (n: nat)
    ensures n <= |entries|
    ensures forall i :: 0 <= i < n ==> entries[i].0 == First
    ensures n < |entries| ==> entries[n].0.Second?
  {
    if entries != [] && entries[0].0.First? then
      var n := FirstCount(entries[1..]);
      assert forall i :: 0 < i < |entries| ==> entries[i] == entries[1..][i - 1];
      1 + n
    else 0
  }

  ghost function InsertAt<V>(t: Trie<V>, key: seq<Key>, rank: ElementRank, v: V): Trie<V>
    decreases key
  {
    if key == [] then t.(values := Place(t.values, rank, v))
    else
      var child := if key[0] in t.next then t.next[key[0]] else Empty();
      t.(next := t.next[key[0] := InsertAt(child, key[1..], rank, v)])
  }

  /** The node at a key, empty when there is none. */
  ghost function NodeAt<V>(t: Trie<V>, key: seq<Key>): Trie<V>
    decreases key
  {
    if key == [] then t
    else NodeAt(if key[0] in t.next then t.next[key[0]] else Empty(), key[1..])
  }

  lemma {:induction false} NodeAtNext<V>(t: Trie<V>, keys: seq<Key>, i: nat)
    requires i < |keys|
    ensures var node := NodeAt(t, keys[..i]);
            NodeAt(t, keys[..i + 1]) == if keys[i] in node.next then node.next[keys[i]] else Empty()
    decreases i
  {
    if i > 0 {
      NodeAtNext(if keys[0] in t.next then t.next[keys[0]] else Empty(), keys[1..], i - 1);
      assert keys[..i][1..] == keys[1..][..i - 1] && keys[..i + 1][1..] == keys[1..][..i];
    }
  }

  /** An insertion changes one key's entries, and there by exactly the placed value. */
  lemma {:induction false} InsertAtStores<V>(t: Trie<V>, key: seq<Key>, rank: ElementRank, v: V, other: seq<Key>)
    ensures At(InsertAt(t, key, rank, v), other) ==
            if other == key then Place(At(t, key), rank, v) else At(t, other)
    decreases key
  {
    var child: Trie<V> := if key != [] && key[0] in t.next then t.next[key[0]] else Empty();
    if key != [] && other != [] && key[0] == other[0] {
      InsertAtStores(child, key[1..], rank, v, other[1..]);
      assert other == [other[0]] + other[1..] && key == [key[0]] + key[1..];
      assert key[0] !in t.next ==> At(child, other[1..]) == [] && At(child, key[1..]) == [] by {
        if key[0] !in t.next { EmptyStoresNothing<V>(other[1..]); EmptyStoresNothing<V>(key[1..]); }
      }
    }
  }

  lemma EmptyStoresNothing<V>(key: seq<Key>)
    ensures At(Empty<V>(), key) == []
  {
  }

  lemma {:induction false} InsertAtGrowsByOne<V>(t: Trie<V>, key: seq<Key>, rank: ElementRank, v: V)
    ensures Size(InsertAt(t, key, rank, v)) == Size(t) + 1
    decreases key
  {
    hide Place, SumOf, Size;
    if key == [] {
      PlaceGrowsByOne(t.values, rank, v);
      SizeIs(t);
      SizeIs(t.(values := Place(t.values, rank, v)));
    } else {
      var k := key[0];
      var child := if k in t.next then t.next[k] else Empty();
      InsertAtGrowsByOne(child, key[1..], rank, v);
      var child' := InsertAt(child, key[1..], rank, v);
      SumWith(Sizes(t), k, Size(child'));
      SizeIs(t);
      SizeIs(t.(next := t.next[k := child']));
      SizesUpdate(t, k, child');
      EmptyIsSmall<V>();
    }
  }

  lemma PlaceGrowsByOne<V>(entries: seq<(ElementRank, V)>, rank: ElementRank, v: V)
    ensures |Place(entries, rank, v)| == |entries| + 1
  {
  }

  lemma SizeIs<V>(t: Trie<V>)
    ensures Size(t) == |t.values| + SumOf(Sizes(t))
    ensures forall values :: Sizes(t.(values := values)) == Sizes(t)
  {
  }

  lemma SizesUpdate<V>(t: Trie<V>, k: Key, child: Trie<V>)
    ensures Sizes(t.(next := t.next[k := child])) == Sizes(t)[k := Size(child)]
  {
  }

  lemma EmptyIsSmall<V>()
    ensures Size(Empty<V>()) == 0
  {
    assert Sizes(Empty<V>()) == map[];
  }

  /** Everything reachable by insertions only. */
  ghost function InsertAll<V>(inserts: seq<(seq<Key>, ElementRank, V)>): Trie<V> {
    if inserts == [] then Empty()
    else
      var last := inserts[|inserts| - 1];
      InsertAt(InsertAll(inserts[..|inserts| - 1]), last.0, last.1, last.2)
  }

  lemma LastInsert<V>(before: seq<(seq<Key>, ElementRank, V)>, after: seq<(seq<Key>, ElementRank, V)>,
                      key: seq<Key>, rank: ElementRank, v: V)
    requires after == before + [(key, rank, v)]
    ensures InsertAll(after) == InsertAt(InsertAll(before), key, rank, v)
  {
    assert after[..|after| - 1] == before;
  }

  /** The ranked values inserted under one key, in insertion order. */
  ghost function InsertedUnder<V>(inserts: seq<(seq<Key>, ElementRank, V)>, key: seq<Key>,
                                  rank: ElementRank): seq<V> {
    if inserts == [] then []
    else
      var last := inserts[|inserts| - 1];
      InsertedUnder(inserts[..|inserts| - 1], key, rank) +
      if last.0 == key && last.1 == rank then [last.2] else []
  }

  lemma InsertedUnderLast<V>(inserts: seq<(seq<Key>, ElementRank, V)>, key: seq<Key>, rank: ElementRank)
    requires inserts != []
    ensures var before, last := inserts[..|inserts| - 1], inserts[|inserts| - 1];
            InsertedUnder(inserts, key, rank) ==
              if last.0 == key && last.1 == rank then InsertedUnder(before, key, rank) + [last.2]
              else InsertedUnder(before, key, rank)
  {
  }

  ghost function Tag<V>(rank: ElementRank, vs: seq<V>): seq<(ElementRank, V)> {
    seq(|vs|, i requires 0 <= i < |vs| => (rank, vs[i]))
  }

  lemma PlaceInTagged<V>(firsts: seq<V>, seconds: seq<V>, rank: ElementRank, v: V)
    ensures Place(Tag(First, firsts) + Tag(Second, seconds), rank, v) ==
            if rank == First then Tag(First, firsts + [v]) + Tag(Second, seconds)
            else Tag(First, firsts) + Tag(Second, seconds + [v])
  {
    hide Tag, FirstCount;
    TagAppend(First, firsts, v);
    TagAppend(Second, seconds, v);
    FirstCountTagged(firsts, seconds);
    ConcatParts(Tag(First, firsts), Tag(Second, seconds));
    Associative(Tag(First, firsts), Tag(Second, seconds), [(Second, v)]);
  }

  lemma NothingTagged<V>()
    ensures Tag<V>(First, []) + Tag<V>(Second, []) == []
  {
  }

  lemma TagAppend<V>(rank: ElementRank, vs: seq<V>, v: V)
    ensures Tag(rank, vs + [v]) == Tag(rank, vs) + [(rank, v)]
  {
  }

  lemma FirstCountTagged<V>(firsts: seq<V>, seconds: seq<V>)
    ensures FirstCount(Tag(First, firsts) + Tag(Second, seconds)) == |Tag(First, firsts)|
  {
    var entries := Tag(First, firsts) + Tag(Second, seconds);
    assert forall i :: 0 <= i < |firsts| ==> entries[i].0 == First;
    assert seconds != [] ==> entries[|firsts|].0 == Second;
  }

  /** After any sequence of insertions each key holds its first-ranked values and then its
      second-ranked values, both in the order they were inserted. */
  lemma {:induction false} InsertAllStores<V>(inserts: seq<(seq<Key>, ElementRank, V)>, key: seq<Key>)
    ensures At(InsertAll(inserts), key) ==
            Tag(First, InsertedUnder(inserts, key, First)) + Tag(Second, InsertedUnder(inserts, key, Second))
  {
    if inserts == [] {
      EmptyStoresNothing<V>(key);
      NothingTagged<V>();
    } else {
      hide At, Place, Tag, InsertedUnder;
      var before, last := inserts[..|inserts| - 1], inserts[|inserts| - 1];
      InsertAllStores(before, key);
      InsertAtStores(InsertAll(before), last.0, last.1, last.2, key);
      InsertedUnderLast(inserts, key, First);
      InsertedUnderLast(inserts, key, Second);
      PlaceInTagged(InsertedUnder(before, key, First), InsertedUnder(before, key, Second), last.1, last.2);
    }
  }

  lemma {:induction false} InsertAllSize<V>(inserts: seq<(seq<Key>, ElementRank, V)>)
    ensures Size(InsertAll(inserts)) == |inserts|
  {
    if inserts == [] {
      assert Sizes(Empty<V>()) == map[];
    } else {
      var before, last := inserts[..|inserts| - 1], inserts[|inserts| - 1];
      InsertAllSize(before);
      InsertAtGrowsByOne(InsertAll(before), last.0, last.1, last.2);
    }
  }

  ghost predicate InsertedFor<V>(inserts: seq<(seq<Key>, ElementRank, V)>, key: seq<Key>, v: V) {
    exists i :: 0 <= i < |inserts| && inserts[i].0 == key && inserts[i].2 == v
  }

  lemma InsertedOneMore<V>(inserts: seq<(seq<Key>, ElementRank, V)>, rank: ElementRank, key: seq<Key>, v: V)
    ensures forall key', v' :: InsertedFor(inserts + [(key, rank, v)], key', v') <==>
              InsertedFor(inserts, key', v') || (key' == key && v' == v)
  {
    var more := inserts + [(key, rank, v)];
    assert more[|inserts|] == (key, rank, v);
    forall key', v' | InsertedFor(inserts, key', v') ensures InsertedFor(more, key', v') {
      var i :| 0 <= i < |inserts| && inserts[i].0 == key' && inserts[i].2 == v';
      assert more[i] == inserts[i];
    }
  }

  /** Exactly what was inserted under a key is stored there. */
  lemma {:induction false} StoredIsInserted<V>(inserts: seq<(seq<Key>, ElementRank, V)>, key: seq<Key>, v: V)
    ensures Stored(InsertAll(inserts), key, v) <==> InsertedFor(inserts, key, v)
  {
    if inserts == [] {
      EmptyStoresNothing<V>(key);
    } else {
      hide Contains, At, InsertedFor;
      var before, last := inserts[..|inserts| - 1], inserts[|inserts| - 1];
      StoredIsInserted(before, key, v);
      InsertAtStores(InsertAll(before), last.0, last.1, last.2, key);
      PlaceContains(At(InsertAll(before), key), last.1, last.2, v);
      InsertedOneMore(before, last.1, last.0, last.2);
      assert before + [last] == inserts;
    }
  }

  lemma PlaceContains<V>(entries: seq<(ElementRank, V)>, rank: ElementRank, v: V, w: V)
    ensures Contains(Place(entries, rank, v), w) <==> Contains(entries, w) || w == v
  {
    var n := if rank == Second then |entries| else FirstCount(entries);
    var placed := Place(entries, rank, v);
    assert placed == entries[..n] + [(rank, v)] + entries[n..];
    assert placed[n] == (rank, v);
    if i :| 0 <= i < |entries| && entries[i].1 == w {
      assert placed[if i < n then i else i + 1] == entries[i];
    }
    if i :| 0 <= i < |placed| && placed[i].1 == w {
      assert i != n ==> placed[i] == entries[if i < n then i else i - 1];
    }
  }

  // What a query finds

  /** v is stored under some key that has a prefix within d edits of the query. */
  ghost predicate Found<V>(t: Trie<V>, q: seq<Key>, d: nat, v: V) {
    exists key :: Stored(t, key, v) && Matches(q, key, d)
  }

  lemma FoundMonotone<V>(t: Trie<V>, q: seq<Key>, d: nat, d': nat, v: V)
    requires Found(t, q, d, v) && d <= d'
    ensures Found(t, q, d', v)
  {
    var key :| Stored(t, key, v) && Matches(q, key, d);
    Monotone(q, key, d, d');
  }

  /** The same said of the insertions alone: v was inserted under a key that has a prefix within d
      edits of the query. */
  ghost predicate InsertedWithin<V>(inserts: seq<(seq<Key>, ElementRank, V)>, q: seq<Key>, d: nat, v: V) {
    exists i :: 0 <= i < |inserts| && inserts[i].2 == v && WithinEdits(q, inserts[i].0, d)
  }

  lemma FoundIsInserted<V>(inserts: seq<(seq<Key>, ElementRank, V)>, q: seq<Key>, d: nat, v: V)
    ensures Found(InsertAll(inserts), q, d, v) <==> InsertedWithin(inserts, q, d, v)
  {
    if Found(InsertAll(inserts), q, d, v) {
      var key :| Stored(InsertAll(inserts), key, v) && Matches(q, key, d);
      StoredIsInserted(inserts, key, v);
      MatchesIsWithinEdits(q, key, d);
    }
    if InsertedWithin(inserts, q, d, v) {
      var i :| 0 <= i < |inserts| && inserts[i].2 == v && WithinEdits(q, inserts[i].0, d);
      StoredIsInserted(inserts, inserts[i].0, v);
      MatchesIsWithinEdits(q, inserts[i].0, d);
    }
  }

  ghost predicate FoundBelow<V>(t: Trie<V>, k: Key, q: seq<Key>, d: nat, v: V) {
    k in t.next && Found(t.next[k], q, d, v)
  }

  ghost predicate FoundBySwap<V>(t: Trie<V>, q: seq<Key>, d: nat, v: V) {
    |q| >= 2 && q[1] in t.next && FoundBelow(t.next[q[1]], q[0], q[2..], d, v)
  }

  ghost predicate FoundByInsert<V>(t: Trie<V>, q: seq<Key>, d: nat, v: V)
    requires q != []
  {
    exists k: Key :: k != q[0] && FoundBelow(t, k, q, d, v)
  }

  ghost predicate FoundBySubstitute<V>(t: Trie<V>, q: seq<Key>, d: nat, v: V)
    requires q != []
  {
    exists k: Key :: k != q[0] && FoundBelow(t, k, q[1..], d, v)
  }

  /** A match below a child is a match in the trie with the child's key in front. */
  lemma Below<V>(t: Trie<V>, k: Key, key: seq<Key>, v: V)
    requires k in t.next
    ensures Stored(t, [k] + key, v) <==> Stored(t.next[k], key, v)
    ensures ([k] + key)[1..] == key
  {
    assert ([k] + key)[1..] == key;
  }

  lemma BelowTwo<V>(t: Trie<V>, a: Key, b: Key, key: seq<Key>, v: V)
    requires b in t.next && a in t.next[b].next
    ensures Stored(t, [b, a] + key, v) <==> Stored(t.next[b].next[a], key, v)
    ensures ([b, a] + key)[2..] == key
  {
    assert [b, a] + key == [b] + ([a] + key);
    Below(t, b, [a] + key, v);
    Below(t.next[b], a, key, v);
  }

  /** One round of the search looks exactly where a match with d edits can be. */
  lemma RoundIsComplete<V>(t: Trie<V>, q: seq<Key>, d: nat, v: V)
    requires q != []
    ensures Found(t, q, d, v) <==>
            || FoundBelow(t, q[0], q[1..], d, v)
            || (d > 0 && (|| FoundBySwap(t, q, d - 1, v)
                          || FoundByInsert(t, q, d - 1, v)
                          || Found(t, q[1..], d - 1, v)
                          || FoundBySubstitute(t, q, d - 1, v)))
  {
    if Found(t, q, d, v) {
      var key :| Stored(t, key, v) && Matches(q, key, d);
      RoundCovers(t, q, d, v, key);
    }
    RoundIsSound(t, q, d, v);
  }

  lemma RoundCovers<V>(t: Trie<V>, q: seq<Key>, d: nat, v: V, key: seq<Key>)
    requires q != [] && Stored(t, key, v) && Matches(q, key, d)
    ensures || FoundBelow(t, q[0], q[1..], d, v)
            || (d > 0 && (|| FoundBySwap(t, q, d - 1, v)
                          || FoundByInsert(t, q, d - 1, v)
                          || Found(t, q[1..], d - 1, v)
                          || FoundBySubstitute(t, q, d - 1, v)))
  {
    hide Stored, Matches;
    PruningIsComplete(q, key, d);
    if Exact(q, key, d) {
      StoredBelow(t, key, v);
      FoundHere(t.next[q[0]], q[1..], d, v, key[1..]);
    } else if Swapped(q, key, d - 1) {
      StoredBelow(t, key, v);
      StoredBelow(t.next[q[1]], key[1..], v);
      assert key[1..][1..] == key[2..];
      FoundHere(t.next[q[1]].next[q[0]], q[2..], d - 1, v, key[2..]);
    } else if key != [] && key[0] != q[0] && Inserted(q, key, d - 1) {
      StoredBelow(t, key, v);
      FoundHere(t.next[key[0]], q, d - 1, v, key[1..]);
      assert FoundBelow(t, key[0], q, d - 1, v);
    } else if Deleted(q, key, d - 1) {
      FoundHere(t, q[1..], d - 1, v, key);
    } else {
      StoredBelow(t, key, v);
      FoundHere(t.next[key[0]], q[1..], d - 1, v, key[1..]);
      assert FoundBelow(t, key[0], q[1..], d - 1, v);
    }
  }

  lemma StoredBelow<V>(t: Trie<V>, key: seq<Key>, v: V)
    requires key != [] && Stored(t, key, v)
    ensures key[0] in t.next && Stored(t.next[key[0]], key[1..], v)
  {
  }

  lemma FoundHere<V>(t: Trie<V>, q: seq<Key>, d: nat, v: V, key: seq<Key>)
    requires Stored(t, key, v) && Matches(q, key, d)
    ensures Found(t, q, d, v)
  {
  }

  lemma RoundIsSound<V>(t: Trie<V>, q: seq<Key>, d: nat, v: V)
    requires q != []
    ensures FoundBelow(t, q[0], q[1..], d, v) ==> Found(t, q, d, v)
    ensures d > 0 && FoundBySwap(t, q, d - 1, v) ==> Found(t, q, d, v)
    ensures d > 0 && FoundByInsert(t, q, d - 1, v) ==> Found(t, q, d, v)
    ensures d > 0 && Found(t, q[1..], d - 1, v) ==> Found(t, q, d, v)
    ensures d > 0 && FoundBySubstitute(t, q, d - 1, v) ==> Found(t, q, d, v)
  {
    if FoundBelow(t, q[0], q[1..], d, v) {
      var key :| Stored(t.next[q[0]], key, v) && Matches(q[1..], key, d);
      Below(t, q[0], key, v);
      assert Exact(q, [q[0]] + key, d);
    }
    if d > 0 && FoundBySwap(t, q, d - 1, v) {
      var key :| Stored(t.next[q[1]].next[q[0]], key, v) && Matches(q[2..], key, d - 1);
      BelowTwo(t, q[0], q[1], key, v);
      assert Swapped(q, [q[1], q[0]] + key, d - 1);
    }
    if d > 0 && FoundByInsert(t, q, d - 1, v) {
      var k: Key :| k != q[0] && FoundBelow(t, k, q, d - 1, v);
      var key :| Stored(t.next[k], key, v) && Matches(q, key, d - 1);
      Below(t, k, key, v);
      assert Inserted(q, [k] + key, d - 1);
    }
    if d > 0 && Found(t, q[1..], d - 1, v) {
      var key :| Stored(t, key, v) && Matches(q[1..], key, d - 1);
      assert Deleted(q, key, d - 1);
    }
    if d > 0 && FoundBySubstitute(t, q, d - 1, v) {
      var k: Key :| k != q[0] && FoundBelow(t, k, q[1..], d - 1, v);
      var key :| Stored(t.next[k], key, v) && Matches(q[1..], key, d - 1);
      Below(t, k, key, v);
      assert Substituted(q, [k] + key, d - 1);
    }
  }

  // Distinct values are no more than entries

  ghost function EntryValues<V>(entries: seq<(ElementRank, V)>): set<V> {
    set i | 0 <= i < |entries| :: entries[i].1
  }

  ghost function ValuesBelow<V>(t: Trie<V>, ks: set<Key>): set<V>
    requires ks <= t.next.Keys
    decreases t, 0
  {
    set k, v | k in ks && v in Values(t.next[k]) :: v
  }

  ghost function Values<V>(t: Trie<V>): set<V>
    decreases t, 1
  {
    EntryValues(t.values) + ValuesBelow(t, t.next.Keys)
  }

  lemma {:induction false} StoredIsValue<V>(t: Trie<V>, key: seq<Key>, v: V)
    requires Stored(t, key, v)
    ensures v in Values(t)
    decreases key
  {
    if key != [] {
      StoredIsValue(t.next[key[0]], key[1..], v);
    }
  }

  lemma {:induction false} EntryValuesBound<V>(entries: seq<(ElementRank, V)>)
    ensures |EntryValues(entries)| <= |entries|
  {
    if entries != [] {
      var front := entries[..|entries| - 1];
      EntryValuesBound(front);
      assert EntryValues(entries) == EntryValues(front) + {entries[|entries| - 1].1};
    }
  }

  lemma ValuesBelowSplit<V>(t: Trie<V>, ks: set<Key>, k: Key)
    requires ks <= t.next.Keys && k in ks
    ensures ValuesBelow(t, ks) == ValuesBelow(t, ks - {k}) + Values(t.next[k])
  {
  }

  lemma {:induction false} ValuesBelowBound<V>(t: Trie<V>, ks: set<Key>)
    requires ks <= t.next.Keys
    ensures |ValuesBelow(t, ks)| <= SumOf(Sizes(t) - (t.next.Keys - ks))
    decreases t, 0, |ks|
  {
    if ks == {} {
      assert ValuesBelow(t, ks) == {};
    } else {
      var k :| k in ks;
      ValuesBelowBound(t, ks - {k});
      ValuesBound(t.next[k]);
      ValuesBelowSplit(t, ks, k);
      var m := Sizes(t) - (t.next.Keys - ks);
      SumWithout(m, k);
      assert m - {k} == Sizes(t) - (t.next.Keys - (ks - {k}));
    }
  }

  lemma {:induction false} ValuesBound<V>(t: Trie<V>)
    ensures |Values(t)| <= Size(t)
    decreases t, 1
  {
    EntryValuesBound(t.values);
    ValuesBelowBound(t, t.next.Keys);
    assert Sizes(t) - (t.next.Keys - t.next.Keys) == Sizes(t);
  }

  // Result lists

  lemma {:induction false} DistinctBound<V>(s: seq<V>, values: set<V>)
    requires Distinct(s) && forall i :: 0 <= i < |s| ==> s[i] in values
    ensures |s| <= |values|
  {
    if s != [] {
      var front := s[..|s| - 1];
      DistinctBound(front, values - {s[|s| - 1]});
    }
  }

  /** A list of distinct matches is no longer than the number of entries. */
  lemma MatchesFit<V>(t: Trie<V>, q: seq<Key>, d: nat, s: seq<V>)
    requires Distinct(s) && forall i :: 0 <= i < |s| ==> Found(t, q, d, s[i])
    ensures |s| <= Size(t)
  {
    forall i | 0 <= i < |s| ensures s[i] in Values(t) {
      var key :| Stored(t, key, s[i]) && Matches(q, key, d);
      StoredIsValue(t, key, s[i]);
    }
    DistinctBound(s, Values(t));
    ValuesBound(t);
  }

  /** No value stands before another that needs fewer edits. */
  ghost predicate BestFirst<V>(t: Trie<V>, q: seq<Key>, s: seq<V>) {
    forall i, j, e: nat :: 0 <= i < j < |s| && Found(t, q, e, s[j]) ==> Found(t, q, e, s[i])
  }

  /** Appending values that need exactly d edits to a list of values that need at most d. */
  lemma BestFirstExtends<V>(t: Trie<V>, q: seq<Key>, s: seq<V>, more: seq<V>, d: nat)
    requires s <= more && BestFirst(t, q, s)
    requires forall i :: 0 <= i < |more| ==> Found(t, q, d, more[i])
    requires forall i :: |s| <= i < |more| && d > 0 ==> !Found(t, q, d - 1, more[i])
    ensures BestFirst(t, q, more)
  {
    forall i, j, e: nat | 0 <= i < j < |more| && Found(t, q, e, more[j]) ensures Found(t, q, e, more[i]) {
      if j >= |s| {
        if e < d { FoundMonotone(t, q, e, d - 1, more[j]); }
        FoundMonotone(t, q, d, e, more[i]);
      } else {
        assert more[i] == s[i] && more[j] == s[j];
      }
    }
  }
}
