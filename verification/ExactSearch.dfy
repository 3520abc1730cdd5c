/** What a search without edits returns, told from what is stored: the values at and below the node of the
    query, the node's own first and then child by child, cut off by the limit. */
module ExactSearch {
  import opened EditDistance
  import opened OrderedKeys
  import opened SearchResults
  import opened Sequences
  import opened TrieCounts
  import opened TrieModel
  import opened TrieSearchSpec

  /** All values at and below a node, with repeats. */
  ghost function Enumeration<V>(t: Trie<V>): seq<V>
    decreases t, 1, 0
  {
    var ks := Ascending(t.next.Keys);
    EnumChildren(t, ks, |ks|)
  }

  ghost function EnumChildren<V>(t: Trie<V>, ks: seq<Key>, n: nat): seq<V>
    requires n <= |ks| && forall k :: k in ks ==> k in t.next
    decreases t, 0, n
  {
    if n == 0 then OwnValues(t) else EnumChildren(t, ks, n - 1) + Enumeration(t.next[ks[n - 1]])
  }

  ghost function Cut<V>(s: seq<V>, limit: nat): (r: seq<V>)
    ensures |r| == if |s| < limit then |s| else limit
  {
    if |s| < limit then s else s[..limit]
  }

  /** The first values under the limit, if there are no repeats among them, are listed as they come. */
  lemma {:induction false} ListingIsCut<V>(t: Trie<V>, limit: nat)
    requires Distinct(Cut(Enumeration(t), limit))
    ensures Listing(t, limit) == Cut(Enumeration(t), limit)
    decreases t, 1, 0
  {
    var ks := Ascending(t.next.Keys);
    EnumGrows(t, ks, 0, |ks|);
    if |t.values| < limit {
      ListChildrenIsCut(t, limit, ks, |ks|);
    }
  }

  lemma {:induction false} EnumGrows<V>(t: Trie<V>, ks: seq<Key>, m: nat, n: nat)
    requires m <= n <= |ks| && forall k :: k in ks ==> k in t.next
    ensures EnumChildren(t, ks, m) <= EnumChildren(t, ks, n)
    decreases n
  {
    hide Enumeration;
    if m < n {
      EnumGrows(t, ks, m, n - 1);
    }
  }

  lemma {:induction false} ListChildrenIsCut<V>(t: Trie<V>, limit: nat, ks: seq<Key>, n: nat)
    requires n <= |ks| && |t.values| < limit && forall k :: k in ks ==> k in t.next
    requires Distinct(Cut(EnumChildren(t, ks, n), limit))
    ensures ListChildren(t, limit, ks, n) == Cut(EnumChildren(t, ks, n), limit)
    decreases t, 0, n
  {
    hide Distinct, Listing, Enumeration, Fill;
    if n > 0 {
      var done, child := EnumChildren(t, ks, n - 1), t.next[ks[n - 1]];
      var all, more := EnumChildren(t, ks, n), Enumeration(child);
      assert all == done + more;
      CutOfFront(done, more, limit);
      ListChildrenIsCut(t, limit, ks, n - 1);
      if |done| < limit {
        ListingIsCut(child, limit - |done|);
        var listed := Listing(child, limit - |done|);
        assert done + listed == Cut(all, limit);
        FillDistinct(done, listed, limit);
      }
    }
  }

  /** What is distinct as a whole is distinct in parts. */
  lemma CutOfFront<V>(a: seq<V>, b: seq<V>, limit: nat)
    requires Distinct(Cut(a + b, limit))
    ensures Distinct(Cut(a, limit)) && (|a| < limit ==> Distinct(Cut(b, limit - |a|)))
    ensures Cut(a + b, limit) == if |a| < limit then a + Cut(b, limit - |a|) else Cut(a, limit)
  {
    var all := Cut(a + b, limit);
    if |a| < limit {
      var rest := Cut(b, limit - |a|);
      assert all == a + rest;
      assert forall i :: 0 <= i < |a| ==> a[i] == all[i];
      assert forall i :: 0 <= i < |rest| ==> rest[i] == all[|a| + i];
      assert Cut(a, limit) == a;
    } else {
      assert all == a[..limit];
    }
  }

  // Repeats

  /** The values in the order in which they come first. */
  ghost function Once<V>(s: seq<V>): seq<V> {
    Fill([], s, |s|)
  }

  lemma {:induction false} FillHolds<V>(ret: seq<V>, input: seq<V>, limit: nat)
    requires |ret| + |input| <= limit
    ensures |Fill(ret, input, limit)| <= |ret| + |input|
    ensures forall v :: v in Fill(ret, input, limit) <==> v in ret || v in input
    ensures Distinct(ret) ==> Distinct(Fill(ret, input, limit))
  {
    if input != [] {
      var front, last := input[..|input| - 1], input[|input| - 1];
      FillHolds(ret, front, limit);
      assert forall v :: v in input <==> v in front || v == last;
    }
  }

  /** With room for all, the limit does not matter. */
  lemma {:induction false} RoomForAll<V>(ret: seq<V>, input: seq<V>, a: nat, b: nat)
    requires |ret| + |input| <= a && |ret| + |input| <= b
    ensures Fill(ret, input, a) == Fill(ret, input, b)
  {
    if input != [] {
      var front := input[..|input| - 1];
      RoomForAll(ret, front, a, b);
      FillHolds(ret, front, a);
    }
  }

  /** Filling up twice is filling up with both. */
  lemma {:induction false} FillConcat<V>(ret: seq<V>, a: seq<V>, b: seq<V>, limit: nat)
    ensures Fill(ret, a + b, limit) == Fill(Fill(ret, a, limit), b, limit)
  {
    if b == [] {
      assert a + b == a;
    } else {
      FillConcat(ret, a, b[..|b| - 1], limit);
      assert (a + b)[..|a + b| - 1] == a + b[..|b| - 1];
    }
  }

  /** What was filled up from two lists with the same values, coming first in the same order, is the same. */
  lemma {:induction false} FillOnce<V>(ret: seq<V>, input: seq<V>, limit: nat)
    requires |ret| + |input| <= limit
    ensures Fill(ret, Once(input), limit) == Fill(ret, input, limit)
  {
    hide Fill, Once, Distinct;
    OnceHolds(input);
    if input == [] {
      assert Once(input) == [];
    } else {
      var front, last := input[..|input| - 1], input[|input| - 1];
      assert input == front + [last];
      FillOnce(ret, front, limit);
      OnceSnoc(front, last);
      FillSnoc(ret, front, last, limit);
      FillSnoc(ret, Once(front), last, limit);
      FillHolds(ret, front, limit);
    }
  }

  /** With room for every entry, all values are listed, and they come first in the order of the entries. */
  lemma {:induction false} ListingFits<V>(t: Trie<V>, limit: nat)
    requires |Enumeration(t)| <= limit
    ensures Once(Listing(t, limit)) == Once(Enumeration(t))
    decreases t, 1, 0
  {
    var ks := Ascending(t.next.Keys);
    EnumGrows(t, ks, 0, |ks|);
    if |t.values| < limit {
      ListChildrenFits(t, limit, ks, |ks|);
    } else {
      assert OwnValues(t)[..limit] == OwnValues(t) == Enumeration(t);
    }
  }

  lemma {:induction false} ListChildrenFits<V>(t: Trie<V>, limit: nat, ks: seq<Key>, n: nat)
    requires n <= |ks| && |t.values| < limit && forall k :: k in ks ==> k in t.next
    requires |EnumChildren(t, ks, n)| <= limit
    ensures Once(ListChildren(t, limit, ks, n)) == Once(EnumChildren(t, ks, n))
    ensures |ListChildren(t, limit, ks, n)| <= |EnumChildren(t, ks, n)|
    decreases t, 0, n
  {
    hide Listing, Enumeration, Fill, Once;
    if n > 0 {
      var done, child := EnumChildren(t, ks, n - 1), t.next[ks[n - 1]];
      var more, before := Enumeration(child), ListChildren(t, limit, ks, n - 1);
      ListChildrenFits(t, limit, ks, n - 1);
      if |before| < limit {
        var listed := Listing(child, limit - |before|);
        ListingFits(child, limit - |before|);
        ListingIsShort(child, limit - |before|);
        FillListed(before, done, listed, more, limit);
      } else {
        assert more == [];
        assert done + more == done;
      }
    }
  }

  lemma {:induction false} ListingIsShort<V>(t: Trie<V>, limit: nat)
    ensures |Listing(t, limit)| <= |Enumeration(t)|
    decreases t, 1, 0
  {
    var ks := Ascending(t.next.Keys);
    EnumGrows(t, ks, 0, |ks|);
    if |t.values| < limit {
      ListChildrenIsShort(t, limit, ks, |ks|);
    }
  }

  lemma {:induction false} ListChildrenIsShort<V>(t: Trie<V>, limit: nat, ks: seq<Key>, n: nat)
    requires n <= |ks| && |t.values| < limit && forall k :: k in ks ==> k in t.next
    ensures |ListChildren(t, limit, ks, n)| <= |EnumChildren(t, ks, n)|
    decreases t, 0, n
  {
    if n > 0 {
      ListChildrenIsShort(t, limit, ks, n - 1);
      var before, child := ListChildren(t, limit, ks, n - 1), t.next[ks[n - 1]];
      if |before| < limit {
        ListingIsShort(child, limit - |before|);
        FillIsShort(before, Listing(child, limit - |before|), limit);
      }
    }
  }

  lemma {:induction false} FillIsShort<V>(ret: seq<V>, input: seq<V>, limit: nat)
    ensures |Fill(ret, input, limit)| <= |ret| + |input|
  {
    if input != [] {
      FillIsShort(ret, input[..|input| - 1], limit);
    }
  }

  lemma FillListed<V>(before: seq<V>, done: seq<V>, listed: seq<V>, more: seq<V>, limit: nat)
    requires Once(before) == Once(done) && Once(listed) == Once(more)
    requires |before| <= |done| && |listed| <= |more| && |done| + |more| <= limit
    ensures Once(Fill(before, listed, limit)) == Once(done + more)
    ensures |Fill(before, listed, limit)| <= |done| + |more|
  {
    hide Fill, Distinct;
    var big := |done| + |more|;
    FillIsShort(before, listed, limit);
    OnceOfFill(before, listed, limit, big);
    FillConcat([], done, more, big);
    RoomForAll([], done, |done|, big);
    RoomForAll([], before, |before|, big);
    FillHolds([], done, big);
    FillOnce(Once(done), more, big);
    FillOnce(Once(done), listed, big);
  }

  /** Dropping repeats at the end is dropping them throughout. */
  lemma {:induction false} OnceOfFill<V>(ret: seq<V>, input: seq<V>, limit: nat, big: nat)
    requires |ret| + |input| <= limit && |ret| + |input| <= big
    ensures Once(Fill(ret, input, limit)) == Fill(Once(ret), input, big)
  {
    hide Fill, Once, Distinct;
    FillNothing(ret, limit);
    FillNothing(Once(ret), big);
    if input != [] {
      var front, last := input[..|input| - 1], input[|input| - 1];
      assert input == front + [last];
      OnceOfFill(ret, front, limit, big);
      var f := Fill(ret, front, limit);
      FillSnoc(ret, front, last, limit);
      FillSnoc(Once(ret), front, last, big);
      FillHolds(ret, front, limit);
      OnceHolds(ret);
      FillHolds(Once(ret), front, big);
      OnceSnoc(f, last);
    }
  }

  lemma FillNothing<V>(ret: seq<V>, limit: nat)
    ensures Fill(ret, [], limit) == ret
  {
  }

  lemma FillSnoc<V>(ret: seq<V>, input: seq<V>, v: V, limit: nat)
    ensures var r := Fill(ret, input, limit);
            Fill(ret, input + [v], limit) == if |r| >= limit || v in r then r else r + [v]
  {
    assert (input + [v])[..|input|] == input;
  }

  lemma OnceHolds<V>(s: seq<V>)
    ensures |Once(s)| <= |s| && forall v :: v in Once(s) <==> v in s
  {
    FillHolds([], s, |s|);
  }

  lemma OnceSnoc<V>(s: seq<V>, v: V)
    ensures Once(s + [v]) == if v in s then Once(s) else Once(s) + [v]
  {
    hide Fill;
    FillSnoc([], s, v, |s| + 1);
    RoomForAll([], s, |s|, |s| + 1);
    OnceHolds(s);
  }

  // The result

  /** A search without edits goes down to the node of the query and drops the repeats from its listing. */
  lemma {:induction false} ExactIsListing<V>(t: Trie<V>, q: seq<Key>, limit: nat)
    requires q != [] && 0 < limit < HALF_RANGE
    ensures Result(t, q, limit, 0) == Fill([], Listing(NodeAt(t, q), limit), limit)
    decreases q
  {
    hide Fill, Listing;
    ExactRound(t, q, limit);
    if q[0] in t.next {
      var child := t.next[q[0]];
      if q[1..] == [] {
        assert NodeAt(t, q) == child;
      } else {
        ExactIsListing(child, q[1..], limit);
        FillAgain(Listing(NodeAt(t, q), limit), limit);
      }
    } else {
      EmptyNode<V>(q[1..]);
      EmptyListing<V>(limit);
      FillNothing<V>([], limit);
    }
  }

  lemma ExactRound<V>(t: Trie<V>, q: seq<Key>, limit: nat)
    requires q != [] && 0 < limit < HALF_RANGE
    ensures Result(t, q, limit, 0) ==
              if q[0] in t.next then Fill([], Result(t.next[q[0]], q[1..], limit, 0), limit) else []
  {
    TakenIs(t, q, limit, 0, ExactRoute, []);
  }

  lemma EmptyListing<V>(limit: nat)
    ensures Listing(Empty<V>(), limit) == []
  {
  }

  /** A list without repeats that is not longer than the limit stays as it is. */
  lemma FillAgain<V>(s: seq<V>, limit: nat)
    ensures Fill([], Fill([], s, limit), limit) == Fill([], s, limit)
  {
    var f := Fill([], s, limit);
    FillIsDistinct(s, limit);
    assert [] + f == f;
    FillDistinct([], f, limit);
  }

  lemma {:induction false} FillIsDistinct<V>(s: seq<V>, limit: nat)
    ensures Distinct(Fill([], s, limit))
  {
    if s != [] {
      FillIsDistinct(s[..|s| - 1], limit);
    }
  }

  /** Without edits, a search returns the values at and below the node of its query. If there are no repeats
      among the first of them, up to the limit, it returns exactly these. */
  lemma ExactIsCut<V>(t: Trie<V>, q: seq<Key>, limit: nat)
    requires q != [] && 0 < limit < HALF_RANGE
    requires Distinct(Cut(Enumeration(NodeAt(t, q)), limit))
    ensures Result(t, q, limit, 0) == Cut(Enumeration(NodeAt(t, q)), limit)
  {
    var listed := Cut(Enumeration(NodeAt(t, q)), limit);
    ExactIsListing(t, q, limit);
    ListingIsCut(NodeAt(t, q), limit);
    assert [] + listed == listed;
    FillDistinct([], listed, limit);
  }

  /** With room for every entry it returns all values, each where it comes first. */
  lemma ExactIsOnce<V>(t: Trie<V>, q: seq<Key>, limit: nat)
    requires q != [] && 0 < limit < HALF_RANGE && |Enumeration(NodeAt(t, q))| <= limit
    ensures Result(t, q, limit, 0) == Once(Enumeration(NodeAt(t, q)))
  {
    ExactIsListing(t, q, limit);
    var listed := Listing(NodeAt(t, q), limit);
    ListingFits(NodeAt(t, q), limit);
    ListingIsShort(NodeAt(t, q), limit);
    RoomForAll([], listed, |listed|, limit);
  }

  /** Repeats use up room: a node with the same value twice and then another shows the first alone when
      two are asked for. */
  lemma RepeatsUseRoom<V>(t: Trie<V>, k: Key, v: V, w: V)
    requires k in t.next && |t.next[k].values| >= 3 && v != w
    requires t.next[k].values[0].1 == v && t.next[k].values[1].1 == v && t.next[k].values[2].1 == w
    ensures Result(t, [k], 2, 0) == [v]
  {
    ExactIsListing(t, [k], 2);
    var listed := Listing(t.next[k], 2);
    assert listed == [v, v];
    assert [v, v][..1] == [v] && [v][..0] == [];
    assert Fill([], [v], 2) == [v];
  }

  // What is enumerated

  /** Every entry is enumerated once. */
  lemma {:induction false} EnumerationCounts<V>(t: Trie<V>, v: V)
    ensures multiset(Enumeration(t))[v] == Count(t, v)
    decreases t, 1, 0
  {
    hide EnumChildren;
    var ks := Ascending(t.next.Keys);
    EnumChildrenCounts(t, ks, |ks|, v);
    assert Prefix(ks, |ks|) == t.next.Keys;
    AllCounts(t, v);
    CountIs(t, v);
  }

  lemma AllCounts<V>(t: Trie<V>, v: V)
    ensures Counts(t, v) - (t.next.Keys - t.next.Keys) == Counts(t, v)
  {
  }

  lemma {:induction false} EnumChildrenCounts<V>(t: Trie<V>, ks: seq<Key>, n: nat, v: V)
    requires n <= |ks| && (forall k :: k in ks ==> k in t.next) && forall i, j :: 0 <= i < j < |ks| ==> ks[i] != ks[j]
    ensures multiset(EnumChildren(t, ks, n))[v] ==
              multiset(OwnValues(t))[v] + SumOf(Counts(t, v) - (t.next.Keys - Prefix(ks, n)))
    decreases t, 0, n
  {
    hide Enumeration, Count;
    if n == 0 {
      assert Counts(t, v) - (t.next.Keys - Prefix(ks, 0)) == map[];
    } else {
      EnumChildrenCounts(t, ks, n - 1, v);
      var k := ks[n - 1];
      EnumerationCounts(t.next[k], v);
      PrefixNext(ks, n - 1);
      var m := Counts(t, v) - (t.next.Keys - Prefix(ks, n));
      assert k !in Prefix(ks, n - 1);
      assert m - {k} == Counts(t, v) - (t.next.Keys - Prefix(ks, n - 1));
      SumWithout(m, k);
    }
  }

  /** What is enumerated at and below the node of a query is what was inserted under keys that begin with
      it, each as often. */
  lemma EnumeratedIsInserted<V>(inserts: seq<(seq<Key>, ElementRank, V)>, q: seq<Key>)
    ensures forall v :: multiset(Enumeration(NodeAt(InsertAll(inserts), q)))[v] ==
              multiset(InsertedBelow(inserts, q))[v]
  {
    forall v ensures multiset(Enumeration(NodeAt(InsertAll(inserts), q)))[v] == multiset(InsertedBelow(inserts, q))[v] {
      EnumerationCounts(NodeAt(InsertAll(inserts), q), v);
      CountIsInserted(inserts, q, v);
    }
  }

  /** Lists with the same values, each as often, are equally long. */
  lemma {:induction false} SameLength<V>(a: seq<V>, b: seq<V>)
    requires forall v :: multiset(a)[v] == multiset(b)[v]
    ensures |a| == |b|
  {
    if a == [] {
      assert forall v :: v in b ==> multiset(b)[v] > 0;
    } else {
      var front, last := a[..|a| - 1], a[|a| - 1];
      assert last in multiset(a);
      assert multiset(b)[last] > 0;
      assert last in multiset(b);
      var i :| 0 <= i < |b| && b[i] == last;
      var rest := b[..i] + b[i + 1..];
      forall v ensures multiset(front)[v] == multiset(rest)[v] {
        CountWithout(a, |a| - 1, v);
        CountWithout(b, i, v);
        assert front + a[|a|..] == front;
      }
      SameLength(front, rest);
    }
  }

  lemma CountWithout<V>(s: seq<V>, i: nat, v: V)
    requires i < |s|
    ensures multiset(s)[v] == multiset(s[..i] + s[i + 1..])[v] + if s[i] == v then 1 else 0
  {
    assert s == s[..i] + [s[i]] + s[i + 1..];
  }

  /** The same lists in another order have the same length and repeats. */
  lemma DistinctAsWell<V>(a: seq<V>, b: seq<V>)
    requires (forall v :: multiset(a)[v] == multiset(b)[v]) && Distinct(a)
    ensures |a| == |b| && Distinct(b) && forall v :: v in a <==> v in b
  {
    SameLength(a, b);
    forall v ensures v in a <==> v in b {
      assert v in multiset(a) <==> v in multiset(b);
    }
    forall i, j | 0 <= i < j < |b| ensures b[i] != b[j] {
      if b[i] == b[j] {
        assert b == b[..j] + b[j..];
        assert b[..j][i] in multiset(b[..j]) && b[j..][0] in multiset(b[j..]);
        OnceInDistinct(a, b[i]);
      }
    }
  }

  lemma {:induction false} OnceInDistinct<V>(s: seq<V>, v: V)
    requires Distinct(s)
    ensures multiset(s)[v] <= 1
  {
    if s != [] {
      var front, last := s[..|s| - 1], s[|s| - 1];
      OnceInDistinct(front, v);
      assert s == front + [last] && last !in front;
    }
  }

  /** Over the insertions: if no value was inserted twice under keys that begin with the query, a search
      without edits returns as many of them as the limit allows, and nothing else. */
  lemma ExactOverInserts<V>(inserts: seq<(seq<Key>, ElementRank, V)>, q: seq<Key>, limit: nat)
    requires q != [] && 0 < limit < HALF_RANGE && Distinct(InsertedBelow(inserts, q))
    ensures var r, below := Result(InsertAll(inserts), q, limit, 0), InsertedBelow(inserts, q);
            && |r| == (if |below| < limit then |below| else limit)
            && r <= Enumeration(NodeAt(InsertAll(inserts), q))
            && |Enumeration(NodeAt(InsertAll(inserts), q))| == |below|
            && (forall v :: v in r ==> v in below)
  {
    hide NodeAt, InsertAll, InsertedBelow, Result, Enumeration;
    var all, below := Enumeration(NodeAt(InsertAll(inserts), q)), InsertedBelow(inserts, q);
    EnumeratedIsInserted(inserts, q);
    DistinctAsWell(below, all);
    var r := Cut(all, limit);
    assert r <= all;
    forall v | v in r ensures v in all {
      var i :| 0 <= i < |r| && r[i] == v;
      assert all[i] == v;
    }
    ExactIsCut(InsertAll(inserts), q, limit);
  }

  // The order

  /** The order of keys: one comes before another if it is a proper prefix of it or has the smaller
      character where they first differ. */
  ghost predicate KeyLess(a: seq<Key>, b: seq<Key>) {
    b != [] && (a == [] || a[0] < b[0] || (a[0] == b[0] && KeyLess(a[1..], b[1..])))
  }

  /** For each value of an enumeration, the key it is stored under. */
  ghost function EnumKeys<V>(t: Trie<V>): (r: seq<seq<Key>>)
    decreases t, 1, 0
  {
    var ks := Ascending(t.next.Keys);
    ChildKeys(t, ks, |ks|)
  }

  ghost function ChildKeys<V>(t: Trie<V>, ks: seq<Key>, n: nat): (r: seq<seq<Key>>)
    requires n <= |ks| && forall k :: k in ks ==> k in t.next
    decreases t, 0, n
  {
    if n == 0 then seq(|t.values|, _ => [])
    else ChildKeys(t, ks, n - 1) + Under(ks[n - 1], EnumKeys(t.next[ks[n - 1]]))
  }

  ghost function Under(k: Key, keys: seq<seq<Key>>): (r: seq<seq<Key>>)
    ensures |r| == |keys| && forall i :: 0 <= i < |r| ==> r[i] == [k] + keys[i]
  {
    seq(|keys|, i requires 0 <= i < |keys| => [k] + keys[i])
  }

  ghost predicate InKeyOrder(keys: seq<seq<Key>>) {
    forall i, j :: 0 <= i < j < |keys| ==> keys[i] == keys[j] || KeyLess(keys[i], keys[j])
  }

  /** The enumeration goes through the keys in order. */
  lemma {:induction false} EnumInKeyOrder<V>(t: Trie<V>)
    ensures |EnumKeys(t)| == |Enumeration(t)| && InKeyOrder(EnumKeys(t))
    decreases t, 1, 0
  {
    var ks := Ascending(t.next.Keys);
    ChildrenInKeyOrder(t, ks, |ks|);
  }

  lemma {:induction false} ChildrenInKeyOrder<V>(t: Trie<V>, ks: seq<Key>, n: nat)
    requires n <= |ks| && (forall k :: k in ks ==> k in t.next) && forall i, j :: 0 <= i < j < |ks| ==> ks[i] < ks[j]
    ensures |ChildKeys(t, ks, n)| == |EnumChildren(t, ks, n)| && InKeyOrder(ChildKeys(t, ks, n))
    ensures forall i :: 0 <= i < |ChildKeys(t, ks, n)| ==>
              ChildKeys(t, ks, n)[i] == [] || (n > 0 && ChildKeys(t, ks, n)[i][0] <= ks[n - 1])
    decreases t, 0, n
  {
    hide EnumKeys, Enumeration;
    if n > 0 {
      ChildrenInKeyOrder(t, ks, n - 1);
      EnumInKeyOrder(t.next[ks[n - 1]]);
      KeyOrderMore(ChildKeys(t, ks, n - 1), ks[n - 1], EnumKeys(t.next[ks[n - 1]]));
    }
  }

  lemma KeyOrderMore(keys: seq<seq<Key>>, k: Key, more: seq<seq<Key>>)
    requires InKeyOrder(keys) && InKeyOrder(more)
    requires forall i :: 0 <= i < |keys| ==> keys[i] == [] || keys[i][0] < k
    ensures InKeyOrder(keys + Under(k, more))
  {
    var all := keys + Under(k, more);
    forall i, j | 0 <= i < j < |all| ensures all[i] == all[j] || KeyLess(all[i], all[j]) {
      if i < |keys| {
        assert all[i] == keys[i];
        if j >= |keys| { assert all[j] == [k] + more[j - |keys|]; }
      } else {
        var a, b := more[i - |keys|], more[j - |keys|];
        assert all[i] == [k] + a && all[j] == [k] + b;
        assert ([k] + a)[1..] == a && ([k] + b)[1..] == b;
      }
    }
  }

  /** The values of an enumeration that are stored under one key. */
  ghost function Filed<V>(keys: seq<seq<Key>>, values: seq<V>, key: seq<Key>): seq<V>
    requires |keys| == |values|
  {
    if keys == [] then []
    else
      var n := |keys| - 1;
      Filed(keys[..n], values[..n], key) + if keys[n] == key then [values[n]] else []
  }

  lemma {:induction false} FiledConcat<V>(ka: seq<seq<Key>>, va: seq<V>, kb: seq<seq<Key>>, vb: seq<V>, key: seq<Key>)
    requires |ka| == |va| && |kb| == |vb|
    ensures Filed(ka + kb, va + vb, key) == Filed(ka, va, key) + Filed(kb, vb, key)
    decreases |kb|
  {
    if kb == [] {
      assert ka + kb == ka && va + vb == va;
    } else {
      var n := |kb| - 1;
      FiledConcat(ka, va, kb[..n], vb[..n], key);
      assert (ka + kb)[..|ka| + n] == ka + kb[..n] && (va + vb)[..|ka| + n] == va + vb[..n];
    }
  }

  lemma {:induction false} FiledUnder<V>(k: Key, keys: seq<seq<Key>>, values: seq<V>, key: seq<Key>)
    requires |keys| == |values|
    ensures Filed(Under(k, keys), values, key) == if key != [] && key[0] == k then Filed(keys, values, key[1..]) else []
    decreases |keys|
  {
    if keys != [] {
      var n := |keys| - 1;
      FiledUnder(k, keys[..n], values[..n], key);
      assert Under(k, keys)[..n] == Under(k, keys[..n]);
      assert ([k] + keys[n])[1..] == keys[n];
      assert key != [] ==> key == [key[0]] + key[1..];
    }
  }

  lemma {:induction false} FiledOwn<V>(keys: seq<seq<Key>>, values: seq<V>, key: seq<Key>)
    requires |keys| == |values| && forall i :: 0 <= i < |keys| ==> keys[i] == []
    ensures Filed(keys, values, key) == if key == [] then values else []
  {
    if keys != [] {
      var n := |keys| - 1;
      FiledOwn(keys[..n], values[..n], key);
      assert values == values[..n] + [values[n]];
    }
  }

  /** Under each key, the enumeration has the values stored there, in their order. */
  lemma {:induction false} EnumFiles<V>(t: Trie<V>, key: seq<Key>)
    ensures |EnumKeys(t)| == |Enumeration(t)|
    ensures Filed(EnumKeys(t), Enumeration(t), key) == OwnValues(Trie(At(t, key), map[]))
    decreases t, 1, 0
  {
    var ks := Ascending(t.next.Keys);
    ChildrenFile(t, ks, |ks|, key);
  }

  lemma {:induction false} ChildrenFile<V>(t: Trie<V>, ks: seq<Key>, n: nat, key: seq<Key>)
    requires n <= |ks| && (forall k :: k in ks ==> k in t.next) && forall i, j :: 0 <= i < j < |ks| ==> ks[i] < ks[j]
    ensures |ChildKeys(t, ks, n)| == |EnumChildren(t, ks, n)|
    ensures Filed(ChildKeys(t, ks, n), EnumChildren(t, ks, n), key) ==
              if key == [] || key[0] in ks[..n] then OwnValues(Trie(At(t, key), map[])) else []
    decreases t, 0, n
  {
    hide Filed, EnumKeys, Enumeration;
    if n == 0 {
      FiledOwn(ChildKeys(t, ks, 0), OwnValues(t), key);
      assert OwnValues(Trie(t.values, map[])) == OwnValues(t);
    } else {
      var k := ks[n - 1];
      var child := t.next[k];
      ChildrenFile(t, ks, n - 1, key);
      EnumFiles(child, if key == [] then [] else key[1..]);
      FiledConcat(ChildKeys(t, ks, n - 1), EnumChildren(t, ks, n - 1),
                  Under(k, EnumKeys(child)), Enumeration(child), key);
      FiledUnder(k, EnumKeys(child), Enumeration(child), key);
      assert ks[..n] == ks[..n - 1] + [k] && k !in ks[..n - 1];
    }
  }
}
