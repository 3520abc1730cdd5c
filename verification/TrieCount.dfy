/** How often a value is stored at and below a node, and what that says of the insertions. */
module TrieCounts {
  import opened EditDistance
  import opened TrieModel

  ghost function OwnValues<V>(t: Trie<V>): (r: seq<V>)
    ensures |r| == |t.values| && forall i :: 0 <= i < |r| ==> r[i] == t.values[i].1
  {
    seq(|t.values|, i requires 0 <= i < |t.values| => t.values[i].1)
  }

  ghost function Counts<V>(t: Trie<V>, v: V): map<Key, nat>
    decreases t, 0
  {
    map k | k in t.next :: Count(t.next[k], v)
  }

  /** How many entries at and below the node have the value. */
  ghost function Count<V>(t: Trie<V>, v: V): nat
    decreases t, 1
  {
    multiset(OwnValues(t))[v] + SumOf(Counts(t, v))
  }

  lemma PlaceCounts<V>(t: Trie<V>, rank: ElementRank, w: V, v: V)
    ensures var t' := t.(values := Place(t.values, rank, w));
            multiset(OwnValues(t'))[v] == multiset(OwnValues(t))[v] + if v == w then 1 else 0
  {
    var n := if rank == Second then |t.values| else FirstCount(t.values);
    var own, own' := OwnValues(t), OwnValues(t.(values := Place(t.values, rank, w)));
    var placed := Place(t.values, rank, w);
    assert placed == t.values[..n] + [(rank, w)] + t.values[n..];
    assert own' == own[..n] + [w] + own[n..];
    assert own == own[..n] + own[n..];
  }

  lemma CountIs<V>(t: Trie<V>, v: V)
    ensures Count(t, v) == multiset(OwnValues(t))[v] + SumOf(Counts(t, v))
    ensures forall values :: Counts(t.(values := values), v) == Counts(t, v)
  {
  }

  lemma CountsUpdate<V>(t: Trie<V>, k: Key, child: Trie<V>, v: V)
    ensures Counts(t.(next := t.next[k := child]), v) == Counts(t, v)[k := Count(child, v)]
    ensures OwnValues(t.(next := t.next[k := child])) == OwnValues(t)
  {
  }

  lemma EmptyCounts<V>(v: V)
    ensures Count(Empty<V>(), v) == 0
  {
    assert Counts(Empty<V>(), v) == map[];
  }

  /** An insertion adds one entry with its value. */
  lemma {:induction false} InsertAtCounts<V>(t: Trie<V>, key: seq<Key>, rank: ElementRank, w: V, v: V)
    ensures Count(InsertAt(t, key, rank, w), v) == Count(t, v) + if v == w then 1 else 0
    decreases key
  {
    hide Place, SumOf, Count;
    if key == [] {
      PlaceCounts(t, rank, w, v);
      CountIs(t, v);
      CountIs(t.(values := Place(t.values, rank, w)), v);
    } else {
      var k := key[0];
      var child := if k in t.next then t.next[k] else Empty();
      InsertAtCounts(child, key[1..], rank, w, v);
      var child' := InsertAt(child, key[1..], rank, w);
      SumWith(Counts(t, v), k, Count(child', v));
      CountIs(t, v);
      CountIs(t.(next := t.next[k := child']), v);
      CountsUpdate(t, k, child', v);
      EmptyCounts(v);
    }
  }

  /** The values inserted under keys with the given prefix, in the order of the insertions. */
  ghost function InsertedBelow<V>(inserts: seq<(seq<Key>, ElementRank, V)>, q: seq<Key>): seq<V> {
    if inserts == [] then []
    else
      var last := inserts[|inserts| - 1];
      InsertedBelow(inserts[..|inserts| - 1], q) + if q <= last.0 then [last.2] else []
  }

  /** Below a prefix of its key, an insertion is one with the rest of the key; elsewhere it is none. */
  lemma {:induction false} NodeAtInsert<V>(t: Trie<V>, key: seq<Key>, rank: ElementRank, w: V, q: seq<Key>)
    ensures NodeAt(InsertAt(t, key, rank, w), q) ==
              if q <= key then InsertAt(NodeAt(t, q), key[|q|..], rank, w) else NodeAt(t, q)
    decreases q
  {
    if q == [] {
      assert key[0..] == key;
    } else if key != [] && key[0] == q[0] {
      var child := if q[0] in t.next then t.next[q[0]] else Empty();
      NodeAtInsert(child, key[1..], rank, w, q[1..]);
      assert q <= key <==> q[1..] <= key[1..] by {
        assert q == [q[0]] + q[1..] && key == [key[0]] + key[1..];
      }
      if q <= key { assert key[|q|..] == key[1..][|q[1..]|..]; }
    }
  }

  lemma {:induction false} EmptyNode<V>(q: seq<Key>)
    ensures NodeAt(Empty<V>(), q) == Empty<V>()
  {
    if q != [] {
      EmptyNode<V>(q[1..]);
    }
  }

  /** What is stored at and below a node is what was inserted under keys with its prefix, as often. */
  lemma {:induction false} CountIsInserted<V>(inserts: seq<(seq<Key>, ElementRank, V)>, q: seq<Key>, v: V)
    ensures Count(NodeAt(InsertAll(inserts), q), v) == multiset(InsertedBelow(inserts, q))[v]
  {
    if inserts == [] {
      EmptyNode<V>(q);
      EmptyCounts(v);
    } else {
      hide Count;
      var before, last := inserts[..|inserts| - 1], inserts[|inserts| - 1];
      CountIsInserted(before, q, v);
      NodeAtInsert(InsertAll(before), last.0, last.1, last.2, q);
      if q <= last.0 {
        InsertAtCounts(NodeAt(InsertAll(before), q), last.0[|q|..], last.1, last.2, v);
      }
    }
  }
}
