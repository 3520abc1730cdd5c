/** What the search loops keep: the limits they pass down, what an enumeration lists, and what each
    round of the fuzzy search has covered. */
module TrieSearchSpec {
  import opened EditDistance
  import opened Sequences
  import opened TrieCounts
  import opened TrieModel

  const SIZE_RANGE: nat := 0x1_0000_0000_0000_0000
  const HALF_RANGE: nat := 0x8000_0000_0000_0000

  /** How many results a nested search may return once n of limit have been found. The doubling is
      done in 64 bits and wraps. */
  function NestedLimit(limit: nat, n: nat): nat
    requires n <= limit
  {
    var doubled := (limit - n) * 2 % SIZE_RANGE;
    if limit <= doubled then limit else doubled
  }

  function Pow2(n: nat): (p: nat)
    ensures p > 0
  {
    if n == 0 then 1 else 2 * Pow2(n - 1)
  }

  lemma {:induction false} Pow2Grows(m: nat, n: nat)
    requires m <= n
    ensures Pow2(m) <= Pow2(n)
    decreases n
  {
    if m < n {
      Pow2Grows(m, n - 1);
    }
  }

  lemma HalfIsPow2()
    ensures Pow2(63) == HALF_RANGE
  {
    Pow2Adds(1, 1);
    Pow2Adds(2, 2);
    Pow2Adds(4, 4);
    Pow2Adds(8, 8);
    Pow2Adds(16, 16);
    Pow2Adds(32, 32);
    assert Pow2(64) == 2 * Pow2(63);
  }

  lemma {:induction false} Pow2Adds(m: nat, n: nat)
    ensures Pow2(m + n) == Pow2(m) * Pow2(n)
  {
    if m > 0 {
      Pow2Adds(m - 1, n);
    }
  }

  /** A limit that never hides one of n entries from a search at most k levels deep. Below 2^63 the
      doubling does not wrap and every entry has to fit twice. From there on each level doubles what the
      limit lacks to 2^64 and what was found before, and this must not reach 2^63. */
  ghost predicate Room(n: nat, limit: nat, k: nat) {
    || 2 * n <= limit < HALF_RANGE
    || (HALF_RANGE <= limit < SIZE_RANGE && (SIZE_RANGE - limit + 2 * n) * Pow2(k) <= HALF_RANGE)
  }

  ghost predicate Ample<V>(t: Trie<V>, limit: nat, k: nat) {
    Room(Size(t), limit, k)
  }

  lemma RoomIsEnough(n: nat, limit: nat, k: nat)
    requires Room(n, limit, k)
    ensures n <= limit && (limit > 0 ==> n < limit)
  {
    var lack := SIZE_RANGE - limit + 2 * n;
    if limit >= HALF_RANGE {
      Shrinks(lack, lack, 1, Pow2(k));
    }
  }

  /** Room for more entries and more levels is room for fewer. */
  lemma RoomForLess(n: nat, n': nat, limit: nat, k: nat, k': nat)
    requires Room(n, limit, k) && n' <= n && k' <= k
    ensures Room(n', limit, k')
  {
    Pow2Grows(k', k);
    if limit >= HALF_RANGE {
      Shrinks(SIZE_RANGE - limit + 2 * n', SIZE_RANGE - limit + 2 * n, Pow2(k'), Pow2(k));
    }
  }

  lemma Shrinks(a: nat, b: nat, x: nat, y: nat)
    requires a <= b && x <= y
    ensures a * x <= b * y
  {
    assert a * x <= b * x && b * x <= b * y;
  }

  /** One level down, with at most n values found before, there is room again. */
  lemma RoomBelow(n: nat, limit: nat, k: nat, found: nat)
    requires Room(n, limit, k + 1) && found <= n && limit > 0
    ensures found < limit && found < NestedLimit(limit, found) && Room(n, NestedLimit(limit, found), k)
  {
    RoomIsEnough(n, limit, k + 1);
    if limit >= HALF_RANGE {
      var lack, p := SIZE_RANGE - limit, Pow2(k);
      Shrinks(lack + 2 * n, lack + 2 * n, 2, Pow2(k + 1));
      NestedAbove(limit, found, lack);
      Doubled(lack + 2 * n, p);
      Shrinks(2 * (lack + found) + 2 * n, 2 * (lack + 2 * n), p, p);
    }
  }

  lemma NestedAbove(limit: nat, found: nat, lack: nat)
    requires limit + lack == SIZE_RANGE && found <= limit && 0 < lack && lack + found < HALF_RANGE
    ensures NestedLimit(limit, found) == SIZE_RANGE - 2 * (lack + found)
  {
    assert (limit - found) * 2 == SIZE_RANGE + (SIZE_RANGE - 2 * (lack + found));
  }

  lemma Doubled(a: nat, b: nat)
    ensures 2 * a * b == a * (2 * b)
  {
  }

  /** A limit that lacks a power of two to 2^64 runs down to zero while such a query is gone through, as
      long as nothing is found: each level uses up a key or an edit, and a swap two keys. */
  ghost predicate RunsOut(limit: nat, length: nat, d: nat) {
    exists j: nat :: j <= 63 && RunsOutFrom(j, limit, length, d)
  }

  ghost predicate RunsOutFrom(j: nat, limit: nat, length: nat, d: nat)
    requires j <= 63
  {
    limit + Pow2(j) == SIZE_RANGE && length >= 64 - j + if d < 63 - j then d else 63 - j
  }

  lemma OnlyKeysRunOut(limit: nat, d: nat)
    ensures !RunsOut(limit, 0, d)
  {
  }

  lemma RunsOutForLess(limit: nat, length: nat, d: nat, d': nat)
    requires RunsOut(limit, length, d) && d' <= d
    ensures RunsOut(limit, length, d')
  {
    var j: nat :| j <= 63 && RunsOutFrom(j, limit, length, d);
    assert RunsOutFrom(j, limit, length, d');
  }

  lemma RunsOutBelow(limit: nat, length: nat, d: nat, length': nat, d': nat)
    requires RunsOut(limit, length, d)
    requires if d' == d then length' + 1 == length else d' + 1 == d && length' + 2 >= length
    ensures NestedLimit(limit, 0) == 0 || RunsOut(NestedLimit(limit, 0), length', d')
  {
    var j: nat :| j <= 63 && RunsOutFrom(j, limit, length, d);
    HalfIsPow2();
    if j < 63 {
      Pow2Grows(j + 1, 63);
      assert limit * 2 == SIZE_RANGE + (SIZE_RANGE - Pow2(j + 1));
      assert RunsOutFrom(j + 1, NestedLimit(limit, 0), length', d');
    }
  }

  /** 2^63, whose double is nothing, runs out for every query there is. */
  lemma HalfRunsOut(length: nat, d: nat)
    requires length > 0
    ensures RunsOut(HALF_RANGE, length, d)
  {
    HalfIsPow2();
    assert RunsOutFrom(63, HALF_RANGE, length, d);
  }

  /** The largest limit there is runs out for every query of 64 keys and one more for each edit. */
  lemma MaxRunsOut(length: nat, d: nat)
    requires length >= 64 + d
    ensures RunsOut(SIZE_RANGE - 1, length, d)
  {
    assert RunsOutFrom(0, SIZE_RANGE - 1, length, d);
  }

  /** more is ret followed by values of input that were not there yet, each once; none is left out
      while there is room. */
  ghost predicate Extends<V>(ret: seq<V>, input: seq<V>, limit: nat, more: seq<V>) {
    && ret <= more && |more| <= limit && |more| <= |ret| + |input|
    && (forall i :: |ret| <= i < |more| ==> more[i] in input)
    && (forall i, j :: 0 <= i < j < |more| && |ret| <= j ==> more[i] != more[j])
    && (|more| < limit || |ret| + |input| <= limit ==> forall v :: v in input ==> v in more)
  }

  ghost function Prefix(ks: seq<Key>, n: nat): set<Key>
    requires n <= |ks|
  {
    set k | k in ks[..n]
  }

  lemma PrefixNext(ks: seq<Key>, n: nat)
    requires n < |ks|
    ensures Prefix(ks, n + 1) == Prefix(ks, n) + {ks[n]}
  {
    assert ks[..n + 1] == ks[..n] + [ks[n]];
  }

  // What an enumeration under a limit returns

  /** The limit was used up by entries whose values are in the list. */
  ghost predicate UsedUp<V(!new)>(t: Trie<V>, limit: nat, ret: seq<V>) {
    exists used: multiset<V> :: Uses(t, limit, ret, used)
  }

  ghost predicate Uses<V(!new)>(t: Trie<V>, limit: nat, ret: seq<V>, used: multiset<V>) {
    |used| == limit && (forall v :: used[v] <= Count(t, v)) && forall v :: v in used ==> v in ret
  }

  /** ret is the node's own values, in rank order, and then distinct values from below, cut off at
      the limit. Nothing is missing when the limit is at least the number of entries, or unless entries
      have used the limit up, and something is returned whenever there is something and room for it. */
  ghost predicate Lists<V(!new)>(t: Trie<V>, limit: nat, ret: seq<V>) {
    && |ret| <= limit && |ret| <= Size(t)
    && (forall i :: 0 <= i < |ret| && i < |t.values| ==> ret[i] == t.values[i].1)
    && (forall i, j :: 0 <= i < j < |ret| && |t.values| <= j ==> ret[i] != ret[j])
    && (forall v :: v in ret ==> Reachable(t, v))
    && (|t.values| <= |ret| || |ret| == limit)
    && (UsedUp(t, limit, ret) || forall v :: Reachable(t, v) ==> v in ret)
    && (Size(t) <= limit || (ret == [] && limit > 0) ==> forall v :: Reachable(t, v) ==> v in ret)
  }

  ghost predicate Reachable<V>(t: Trie<V>, v: V) {
    exists key :: Stored(t, key, v)
  }

  ghost predicate ReachableVia<V>(t: Trie<V>, ks: set<Key>, v: V) {
    exists key :: Stored(t, key, v) && (key == [] || key[0] in ks)
  }

  ghost function CountSome<V>(t: Trie<V>, ks: set<Key>, v: V): nat {
    multiset(OwnValues(t))[v] + SumOf(Counts(t, v) - (t.next.Keys - ks))
  }

  lemma CountSomeMore<V>(t: Trie<V>, ks: set<Key>, k: Key, v: V)
    requires k in t.next && k !in ks
    ensures CountSome(t, ks + {k}, v) == CountSome(t, ks, v) + Count(t.next[k], v)
  {
    hide Count;
    var m := Counts(t, v) - (t.next.Keys - (ks + {k}));
    SumWithout(m, k);
    assert m - {k} == Counts(t, v) - (t.next.Keys - ks);
  }

  lemma {:induction false} CountSomeBound<V>(t: Trie<V>, ks: set<Key>, v: V)
    requires ks <= t.next.Keys
    ensures CountSome(t, ks, v) <= Count(t, v)
    decreases |t.next.Keys - ks|
  {
    if ks == t.next.Keys {
      assert Counts(t, v) - (t.next.Keys - ks) == Counts(t, v);
    } else {
      assert t.next.Keys == ks + (t.next.Keys - ks);
      var k :| k in t.next.Keys - ks;
      assert t.next.Keys - (ks + {k}) < t.next.Keys - ks;
      CountSomeMore(t, ks, k, v);
      CardinalityGrows(t.next.Keys - (ks + {k}), t.next.Keys - ks);
      CountSomeBound(t, ks + {k}, v);
    }
  }

  lemma {:induction false} CardinalityGrows<T>(a: set<T>, b: set<T>)
    requires a < b
    ensures |a| < |b|
  {
    assert b == a + (b - a);
  }

  /** A list in which no value is more often than in the entries it was made from, and which is as long as
      the limit, has used the limit up. */
  lemma FullUsesUp<V(!new)>(t: Trie<V>, limit: nat, ks: set<Key>, ret: seq<V>)
    requires |ret| == limit && ks <= t.next.Keys && forall v :: multiset(ret)[v] <= CountSome(t, ks, v)
    ensures UsedUp(t, limit, ret)
  {
    hide CountSome, Count;
    forall v ensures multiset(ret)[v] <= Count(t, v) {
      CountSomeBound(t, ks, v);
    }
    assert Uses(t, limit, ret, multiset(ret));
  }

  lemma {:induction false} StoredCounts<V>(t: Trie<V>, key: seq<Key>, v: V)
    requires Stored(t, key, v)
    ensures Count(t, v) > 0
    decreases key
  {
    if key == [] {
      var i :| 0 <= i < |t.values| && t.values[i].1 == v;
      assert OwnValues(t)[i] == v;
      assert v in multiset(OwnValues(t));
    } else {
      StoredCounts(t.next[key[0]], key[1..], v);
      SumWithout(Counts(t, v), key[0]);
    }
  }

  /** The same after the children in ks have been listed. */
  ghost predicate ListsSome<V(!new)>(t: Trie<V>, limit: nat, ks: set<Key>, ret: seq<V>) {
    && |t.values| <= |ret| <= limit
    && |ret| + SumOf(Sizes(t) - ks) <= Size(t)
    && ks <= t.next.Keys && (forall v :: multiset(ret)[v] <= CountSome(t, ks, v))
    && (UsedUp(t, limit, ret) || forall v :: ReachableVia(t, ks, v) ==> v in ret)
    && (forall i :: 0 <= i < |t.values| ==> ret[i] == t.values[i].1)
    && (forall i, j :: 0 <= i < j < |ret| && |t.values| <= j ==> ret[i] != ret[j])
    && (forall v :: v in ret ==> Reachable(t, v))
    && (Size(t) <= limit || ret == [] ==> forall v :: ReachableVia(t, ks, v) ==> v in ret)
  }

  lemma OwnValueReachable<V>(t: Trie<V>, i: nat)
    requires i < |t.values|
    ensures ReachableVia(t, {}, t.values[i].1)
  {
    assert Stored(t, [], t.values[i].1);
  }

  lemma OwnValuesOnly<V(!new)>(t: Trie<V>, limit: nat, ret: seq<V>)
    requires |ret| == limit < |t.values|
    requires forall i :: 0 <= i < |ret| ==> ret[i] == t.values[i].1
    ensures Lists(t, limit, ret)
  {
    forall v | v in ret ensures Reachable(t, v) {
      var i :| 0 <= i < |ret| && ret[i] == v;
      OwnValueReachable(t, i);
    }
    OwnValuesUseUp(t, limit, ret);
  }

  lemma OwnValuesUseUp<V(!new)>(t: Trie<V>, limit: nat, ret: seq<V>)
    requires |ret| == limit < |t.values|
    requires forall i :: 0 <= i < |ret| ==> ret[i] == t.values[i].1
    ensures UsedUp(t, limit, ret)
  {
    assert OwnValues(t) == ret + OwnValues(t)[limit..];
    forall v ensures multiset(ret)[v] <= Count(t, v) {
      CountIs(t, v);
    }
    assert Uses(t, limit, ret, multiset(ret));
  }

  lemma OwnValuesFirst<V(!new)>(t: Trie<V>, limit: nat, ret: seq<V>)
    requires |ret| == |t.values| <= limit
    requires forall i :: 0 <= i < |ret| ==> ret[i] == t.values[i].1
    ensures ListsSome(t, limit, {}, ret)
  {
    assert Sizes(t) - {} == Sizes(t);
    assert ret == OwnValues(t);
    forall v | v in ret ensures Reachable(t, v) {
      var i :| 0 <= i < |ret| && ret[i] == v;
      OwnValueReachable(t, i);
    }
  }

  lemma ReachableOneMore<V>(t: Trie<V>, ks: set<Key>, k: Key, v: V)
    requires k in t.next
    ensures ReachableVia(t, ks + {k}, v) <==> ReachableVia(t, ks, v) || Reachable(t.next[k], v)
  {
    if Reachable(t.next[k], v) {
      var key :| Stored(t.next[k], key, v);
      Below(t, k, key, v);
    }
    if ReachableVia(t, ks + {k}, v) {
      var key :| Stored(t, key, v) && (key == [] || key[0] in ks + {k});
      assert key != [] && key[0] == k ==> Stored(t.next[k], key[1..], v);
    }
  }

  lemma ListsOneMore<V(!new)>(t: Trie<V>, limit: nat, ks: set<Key>, k: Key, ret: seq<V>, temp: seq<V>, more: seq<V>)
    requires ListsSome(t, limit, ks, ret) && |ret| < limit && k in t.next && k !in ks
    requires Lists(t.next[k], limit - |ret|, temp)
    requires Extends(ret, temp, limit, more)
    ensures ListsSome(t, limit, ks + {k}, more)
  {
    hide CountSome, UsedUp;
    MoreCounts(t, limit, ks, k, ret, temp, more);
    MoreUsedUp(t, limit, ks, k, ret, temp, more);
    SumWithout(Sizes(t) - ks, k);
    assert Sizes(t) - ks - {k} == Sizes(t) - (ks + {k});
    forall v | v in more ensures Reachable(t, v) {
      ReachableOneMore(t, {}, k, v);
    }
    if Size(t) <= limit || more == [] {
      forall v | ReachableVia(t, ks + {k}, v) ensures v in more {
        ReachableOneMore(t, ks, k, v);
        assert temp != [] ==> temp[0] in temp;
      }
    }
  }

  lemma MoreCounts<V(!new)>(t: Trie<V>, limit: nat, ks: set<Key>, k: Key, ret: seq<V>, temp: seq<V>, more: seq<V>)
    requires ListsSome(t, limit, ks, ret) && k in t.next && k !in ks
    requires forall v :: v in temp ==> Reachable(t.next[k], v)
    requires Extends(ret, temp, limit, more)
    ensures forall v :: multiset(more)[v] <= CountSome(t, ks + {k}, v)
  {
    hide CountSome, Count, UsedUp;
    forall v ensures multiset(more)[v] <= CountSome(t, ks + {k}, v) {
      CountSomeMore(t, ks, k, v);
      var extra := more[|ret|..];
      assert more == ret + extra;
      if v in extra {
        var i :| 0 <= i < |extra| && extra[i] == v;
        assert more[|ret| + i] == v && v in temp;
        var key :| Stored(t.next[k], key, v);
        StoredCounts(t.next[k], key, v);
        OnceInExtra(ret, more, v, |ret| + i);
      }
    }
  }

  /** A value that was filled in is there once. */
  lemma OnceInExtra<V>(ret: seq<V>, more: seq<V>, v: V, k: nat)
    requires ret <= more && |ret| <= k < |more| && more[k] == v
    requires forall i, j :: 0 <= i < j < |more| && |ret| <= j ==> more[i] != more[j]
    ensures multiset(more)[v] == 1
  {
    assert more == more[..k] + [v] + more[k + 1..];
    assert v !in more[..k] && v !in more[k + 1..];
  }

  lemma MoreUsedUp<V(!new)>(t: Trie<V>, limit: nat, ks: set<Key>, k: Key, ret: seq<V>, temp: seq<V>, more: seq<V>)
    requires ListsSome(t, limit, ks, ret) && |ret| < limit && k in t.next && k !in ks
    requires Lists(t.next[k], limit - |ret|, temp)
    requires Extends(ret, temp, limit, more)
    ensures UsedUp(t, limit, more) || forall v :: ReachableVia(t, ks + {k}, v) ==> v in more
  {
    hide CountSome, Count, UsedUp, Uses;
    MoreCounts(t, limit, ks, k, ret, temp, more);
    if |more| == limit {
      FullUsesUp(t, limit, ks + {k}, more);
    } else if UsedUp(t, limit, ret) {
      UsedUpMore(t, limit, ret, more);
    } else if UsedUp(t.next[k], limit - |ret|, temp) {
      UsedUpBelow(t, limit, ks, k, ret, temp, more);
    } else {
      forall v | ReachableVia(t, ks + {k}, v) ensures v in more {
        ReachableOneMore(t, ks, k, v);
      }
    }
  }

  lemma UsedUpMore<V(!new)>(t: Trie<V>, limit: nat, ret: seq<V>, more: seq<V>)
    requires UsedUp(t, limit, ret) && ret <= more
    ensures UsedUp(t, limit, more)
  {
    hide Count;
    var used :| Uses(t, limit, ret, used);
    assert Uses(t, limit, more, used);
  }

  /** What used up the room of the child, and what was listed before, used up that of the node. */
  lemma UsedUpBelow<V(!new)>(t: Trie<V>, limit: nat, ks: set<Key>, k: Key, ret: seq<V>, temp: seq<V>, more: seq<V>)
    requires |ret| < limit && k in t.next && k !in ks && ks <= t.next.Keys
    requires forall v :: multiset(ret)[v] <= CountSome(t, ks, v)
    requires UsedUp(t.next[k], limit - |ret|, temp)
    requires ret <= more && forall v :: v in temp ==> v in more
    ensures UsedUp(t, limit, more)
  {
    hide CountSome, Count;
    var used :| Uses(t.next[k], limit - |ret|, temp, used);
    var all := multiset(ret) + used;
    forall v ensures all[v] <= Count(t, v) {
      CountSomeMore(t, ks, k, v);
      CountSomeBound(t, ks + {k}, v);
    }
    forall v | v in all ensures v in more {
      assert v in multiset(ret) || v in used;
    }
    assert Uses(t, limit, more, all);
  }

  lemma FullIsEnough<V(!new)>(t: Trie<V>, limit: nat, ks: set<Key>, ret: seq<V>)
    requires ListsSome(t, limit, ks, ret) && |ret| == limit
    ensures Lists(t, limit, ret)
  {
    FullUsesUp(t, limit, ks, ret);
    hide UsedUp, CountSome;
    if Size(t) <= limit {
      forall v | Reachable(t, v) ensures v in ret {
        var key :| Stored(t, key, v);
        if key != [] && key[0] !in ks {
          SumWithout(Sizes(t) - ks, key[0]);
          StoredIsValue(t.next[key[0]], key[1..], v);
          ValuesBound(t.next[key[0]]);
        }
        assert ReachableVia(t, ks, v);
      }
    }
  }

  lemma AllListed<V(!new)>(t: Trie<V>, limit: nat, ret: seq<V>)
    requires ListsSome(t, limit, t.next.Keys, ret)
    ensures Lists(t, limit, ret)
  {
    hide UsedUp, CountSome;
    forall v | Reachable(t, v) ensures ReachableVia(t, t.next.Keys, v) {
    }
  }

  // The fuzzy search

  /** Where one round of the search looks: one route per kind of edit and child. */
  datatype Route = SwapRoute | InsertRoute(k: Key) | DeleteRoute | SubstituteRoute(k: Key) | ExactRoute

  datatype Goal<V> = Nowhere | Goal(t: Trie<V>, q: seq<Key>, d: nat)

  /** The nested search a route leads to. The child equal to the first query key is neither inserted
      nor substituted. */
  ghost function Target<V>(t: Trie<V>, q: seq<Key>, d: nat, route: Route): Goal<V>
    requires q != []
  {
    match route
    case ExactRoute => if q[0] in t.next then Goal(t.next[q[0]], q[1..], d) else Nowhere
    case SwapRoute =>
      if d > 0 && |q| >= 2 && q[1] in t.next && q[0] in t.next[q[1]].next
      then Goal(t.next[q[1]].next[q[0]], q[2..], d - 1) else Nowhere
    case InsertRoute(k) => if d > 0 && k in t.next && k != q[0] then Goal(t.next[k], q, d - 1) else Nowhere
    case DeleteRoute => if d > 0 then Goal(t, q[1..], d - 1) else Nowhere
    case SubstituteRoute(k) => if d > 0 && k in t.next && k != q[0] then Goal(t.next[k], q[1..], d - 1) else Nowhere
  }

  lemma ChildTarget<V>(t: Trie<V>, q: seq<Key>, d: nat, inserting: bool, k: Key)
    requires q != [] && d > 0 && k in t.next
    ensures Target(t, q, d, ChildRoute(inserting, k)) ==
            if k == q[0] then Nowhere else Goal(t.next[k], if inserting then q else q[1..], d - 1)
  {
  }

  ghost predicate Via<V>(t: Trie<V>, q: seq<Key>, d: nat, route: Route, v: V)
    requires q != []
  {
    var goal := Target(t, q, d, route);
    goal.Goal? && Found(goal.t, goal.q, goal.d, v)
  }

  ghost function ChildRoute(inserting: bool, k: Key): Route {
    if inserting then InsertRoute(k) else SubstituteRoute(k)
  }

  ghost function ChildRoutes(inserting: bool, ks: set<Key>): set<Route> {
    set k | k in ks :: ChildRoute(inserting, k)
  }

  lemma NoChildRoutes(before: set<Route>, inserting: bool, ks: seq<Key>)
    ensures before + ChildRoutes(inserting, Prefix(ks, 0)) == before
  {
  }

  lemma ChildRoutesNext(before: set<Route>, inserting: bool, ks: seq<Key>, n: nat)
    requires n < |ks|
    ensures before + ChildRoutes(inserting, Prefix(ks, n + 1)) ==
            before + ChildRoutes(inserting, Prefix(ks, n)) + {ChildRoute(inserting, ks[n])}
  {
    PrefixNext(ks, n);
  }

  ghost function EditRoutes(ks: set<Key>): set<Route> {
    {SwapRoute} + ChildRoutes(true, ks) + {DeleteRoute} + ChildRoutes(false, ks)
  }

  ghost predicate Covered<V>(t: Trie<V>, q: seq<Key>, d: nat, routes: set<Route>, v: V)
    requires q != []
  {
    || (d > 0 && Found(t, q, d - 1, v))
    || exists route :: route in routes && Via(t, q, d, route, v)
  }

  lemma RoutesLeadToMatches<V>(t: Trie<V>, q: seq<Key>, d: nat, route: Route, v: V)
    requires q != [] && Via(t, q, d, route, v)
    ensures Found(t, q, d, v)
  {
    RoundIsComplete(t, q, d, v);
    match route
    case InsertRoute(k) => assert FoundBelow(t, k, q, d - 1, v);
    case SubstituteRoute(k) => assert FoundBelow(t, k, q[1..], d - 1, v);
    case _ =>
  }

  /** A full round finds every match with d edits; the round without edits needs the exact route only. */
  lemma RoutesFindAll<V>(t: Trie<V>, q: seq<Key>, d: nat, routes: set<Route>, v: V)
    requires q != [] && Found(t, q, d, v)
    requires ExactRoute in routes && (d > 0 ==> routes == EditRoutes(t.next.Keys) + {ExactRoute})
    ensures Covered(t, q, d, routes, v)
  {
    RoundIsComplete(t, q, d, v);
    if FoundBelow(t, q[0], q[1..], d, v) {
      assert Via(t, q, d, ExactRoute, v);
    } else if FoundBySwap(t, q, d - 1, v) {
      assert Via(t, q, d, SwapRoute, v);
    } else if FoundByInsert(t, q, d - 1, v) {
      var k: Key :| k != q[0] && FoundBelow(t, k, q, d - 1, v);
      assert Via(t, q, d, ChildRoute(true, k), v);
    } else if Found(t, q[1..], d - 1, v) {
      assert Via(t, q, d, DeleteRoute, v);
    } else {
      var k: Key :| k != q[0] && FoundBelow(t, k, q[1..], d - 1, v);
      assert Via(t, q, d, ChildRoute(false, k), v);
    }
  }

  /** The first result needs as few edits as any match does. */
  ghost predicate Leads<V(!new)>(t: Trie<V>, q: seq<Key>, first: V) {
    forall v, e: nat :: Found(t, q, e, v) ==> Found(t, q, e, first)
  }

  ghost function Elements<V>(s: seq<V>): set<V> {
    set v | v in s
  }

  /** No value is stored in more than m entries. */
  ghost predicate AtMost<V(!new)>(t: Trie<V>, m: nat) {
    forall v :: Count(t, v) <= m
  }

  ghost predicate UnderfilledBy<V(!new)>(t: Trie<V>, limit: nat, ret: seq<V>, m: nat) {
    m >= 2 && AtMost(t, m) && m * |Elements(ret)| < limit
  }

  /** The list holds less than the m-th part of the limit, where no value is stored in more than m entries,
      and m is at least 2. */
  ghost predicate Underfilled<V(!new)>(t: Trie<V>, limit: nat, ret: seq<V>) {
    limit < HALF_RANGE && exists m: nat :: UnderfilledBy(t, limit, ret, m)
  }

  lemma {:induction false} AtMostElements<V(!new)>(used: multiset<V>, values: set<V>, m: nat)
    requires (forall v :: v in used ==> v in values) && forall v :: used[v] <= m
    ensures |used| <= m * |values|
    decreases |values|
  {
    if values == {} {
      assert forall v :: v !in used;
    } else {
      var v :| v in values;
      var rest := used[v := 0];
      AtMostElements(rest, values - {v}, m);
      assert |used| == |rest| + used[v];
    }
  }

  /** An underfilled list has not used up the limit. */
  lemma UnderfilledIsNotUsedUp<V(!new)>(t: Trie<V>, limit: nat, ret: seq<V>)
    requires Underfilled(t, limit, ret)
    ensures !UsedUp(t, limit, ret)
  {
    var m: nat :| UnderfilledBy(t, limit, ret, m);
    if used :| Uses(t, limit, ret, used) {
      AtMostElements(used, Elements(ret), m);
    }
  }

  lemma UnderfilledBefore<V(!new)>(t: Trie<V>, limit: nat, ret: seq<V>, more: seq<V>)
    requires Underfilled(t, limit, more) && ret <= more
    ensures Underfilled(t, limit, ret)
  {
    var m: nat :| UnderfilledBy(t, limit, more, m);
    FewerElements(ret, more, m);
    assert UnderfilledBy(t, limit, ret, m);
  }

  lemma FewerElements<V>(a: seq<V>, b: seq<V>, m: nat)
    requires forall v :: v in a ==> v in b
    ensures m * |Elements(a)| <= m * |Elements(b)|
  {
    SubsetSize(Elements(a), Elements(b));
    Shrinks(|Elements(a)|, |Elements(b)|, m, m);
  }

  lemma {:induction false} SubsetSize<T>(a: set<T>, b: set<T>)
    requires a <= b
    ensures |a| <= |b|
  {
    assert b == a + (b - a);
  }

  lemma {:induction false} DistinctElements<V>(s: seq<V>)
    requires Distinct(s)
    ensures |Elements(s)| == |s|
  {
    if s != [] {
      var front, last := s[..|s| - 1], s[|s| - 1];
      DistinctElements(front);
      assert last !in front;
      assert Elements(s) == Elements(front) + {last};
    }
  }

  /** While the results are underfilled, nested searches get the whole limit. */
  lemma UnderfilledHasRoom<V(!new)>(t: Trie<V>, limit: nat, ret: seq<V>)
    requires Underfilled(t, limit, ret) && Distinct(ret) && |ret| <= limit
    ensures |ret| < limit && NestedLimit(limit, |ret|) == limit
  {
    var m: nat :| UnderfilledBy(t, limit, ret, m);
    DistinctElements(ret);
    Shrinks(|ret|, |ret|, 2, m);
  }

  lemma UnderfilledBelow<V(!new)>(t: Trie<V>, q: seq<Key>, d: nat, route: Route, limit: nat, temp: seq<V>, more: seq<V>)
    requires q != [] && Target(t, q, d, route).Goal?
    requires Underfilled(t, limit, more) && forall v :: v in temp ==> v in more
    ensures Underfilled(Target(t, q, d, route).t, limit, temp)
  {
    hide Count;
    var m: nat :| UnderfilledBy(t, limit, more, m);
    FewerElements(temp, more, m);
    forall v ensures Count(Target(t, q, d, route).t, v) <= m {
      TargetCounts(t, q, d, route, v);
    }
    assert UnderfilledBy(Target(t, q, d, route).t, limit, temp, m);
  }

  lemma ChildCounts<V>(t: Trie<V>, k: Key, v: V)
    requires k in t.next
    ensures Count(t.next[k], v) <= Count(t, v)
  {
    SumWithout(Counts(t, v), k);
  }

  lemma TargetCounts<V>(t: Trie<V>, q: seq<Key>, d: nat, route: Route, v: V)
    requires q != [] && Target(t, q, d, route).Goal?
    ensures Count(Target(t, q, d, route).t, v) <= Count(t, v)
  {
    hide Count;
    match route
    case ExactRoute => ChildCounts(t, q[0], v);
    case SwapRoute => ChildCounts(t, q[1], v); ChildCounts(t.next[q[1]], q[0], v);
    case InsertRoute(k) => ChildCounts(t, k, v);
    case DeleteRoute =>
    case SubstituteRoute(k) => ChildCounts(t, k, v);
  }

  /** What a search with at most d edits returns under a limit. */
  ghost predicate Searched<V(!new)>(t: Trie<V>, q: seq<Key>, limit: nat, d: nat, ret: seq<V>) {
    && |ret| <= limit
    && (forall i :: 0 <= i < |ret| ==> Found(t, q, d, ret[i]))
    && (q != [] ==> Distinct(ret))
    && (Ample(t, limit, |q| + d) ==> forall v :: Found(t, q, d, v) ==> v in ret)
    && (Ample(t, limit, |q| + d) && q != [] ==> BestFirst(t, q, ret))
    && (0 < limit < HALF_RANGE && ret == [] ==> forall v :: !Found(t, q, d, v))
    && (0 < limit < HALF_RANGE && ret != [] ==> Leads(t, q, ret[0]))
    && (RunsOut(limit, |q|, d) ==> ret == [])
    && (Underfilled(t, limit, ret) ==> forall v :: Found(t, q, d, v) ==> v in ret)
  }

  /** The same in the middle of the round for d edits, after some of its routes. */
  ghost predicate Partial<V(!new)>(t: Trie<V>, q: seq<Key>, limit: nat, d: nat, routes: set<Route>, ret: seq<V>)
    requires q != []
  {
    && 0 < limit && |ret| <= limit && Distinct(ret)
    && (forall i :: 0 <= i < |ret| ==> Found(t, q, d, ret[i]))
    && (Ample(t, limit, |q| + d) ==> forall v :: Covered(t, q, d, routes, v) ==> v in ret)
    && (Ample(t, limit, |q| + d) ==> BestFirst(t, q, ret))
    && (limit < HALF_RANGE && ret == [] ==> forall v :: !Covered(t, q, d, routes, v))
    && (limit < HALF_RANGE && ret != [] ==> Leads(t, q, ret[0]))
    && (RunsOut(limit, |q|, d) ==> ret == [])
    && (Underfilled(t, limit, ret) ==> forall v :: Covered(t, q, d, routes, v) ==> v in ret)
  }

  lemma NoRoom<V(!new)>(t: Trie<V>, q: seq<Key>, d: nat)
    ensures Searched(t, q, 0, d, [])
  {
    forall v | Found(t, q, d, v) ensures Size(t) > 0 {
      MatchesFit(t, q, d, [v]);
    }
  }

  lemma EnumerationSearches<V(!new)>(t: Trie<V>, limit: nat, d: nat, ret: seq<V>)
    requires Lists(t, limit, ret)
    ensures Searched(t, [], limit, d, ret)
  {
    hide Room, RunsOut, UsedUp, Underfilled;
    if Underfilled(t, limit, ret) {
      UnderfilledIsNotUsedUp(t, limit, ret);
    }
    assert !RunsOut(limit, 0, d) by { OnlyKeysRunOut(limit, d); }
    if Ample(t, limit, d) {
      RoomIsEnough(Size(t), limit, d);
    }
    forall v, e: nat ensures Found(t, [], e, v) <==> Reachable(t, v) {
      if Reachable(t, v) {
        var key :| Stored(t, key, v);
        assert Matches([], key, e);
      }
    }
  }

  /** The routes of the round for d edits: without edits only the exact one. */
  ghost function RoundRoutes(ks: set<Key>, d: nat): set<Route> {
    (if d == 0 then {} else EditRoutes(ks)) + {ExactRoute}
  }

  /** The same after the rounds for fewer than n edits. */
  ghost predicate Finished<V(!new)>(t: Trie<V>, q: seq<Key>, limit: nat, n: nat, ret: seq<V>)
    requires q != []
  {
    if n == 0 then ret == [] && limit > 0 else Partial(t, q, limit, n - 1, RoundRoutes(t.next.Keys, n - 1), ret)
  }

  lemma FinishedCovers<V(!new)>(t: Trie<V>, q: seq<Key>, limit: nat, n: nat, ret: seq<V>, v: V)
    requires q != [] && n > 0 && Finished(t, q, limit, n, ret) && Found(t, q, n - 1, v)
    ensures Ample(t, limit, |q| + n - 1) ==> v in ret
    ensures Underfilled(t, limit, ret) ==> v in ret
    ensures limit < HALF_RANGE ==> ret != []
  {
    RoutesFindAll(t, q, n - 1, RoundRoutes(t.next.Keys, n - 1), v);
  }

  lemma RoundBegins<V(!new)>(t: Trie<V>, q: seq<Key>, limit: nat, n: nat, ret: seq<V>)
    requires q != [] && Finished(t, q, limit, n, ret)
    ensures Partial(t, q, limit, n, {}, ret)
  {
    forall i | 0 <= i < |ret| ensures Found(t, q, n, ret[i]) {
      FoundMonotone(t, q, n - 1, n, ret[i]);
    }
    if n > 0 {
      FewerEdits(t, q, limit, n, n - 1);
    }
    forall v | Covered(t, q, n, {}, v)
      ensures Ample(t, limit, |q| + n) ==> v in ret
      ensures Underfilled(t, limit, ret) ==> v in ret
      ensures limit < HALF_RANGE ==> ret != []
    {
      FinishedCovers(t, q, limit, n, ret, v);
    }
  }

  lemma FewerEdits<V>(t: Trie<V>, q: seq<Key>, limit: nat, d: nat, d': nat)
    requires d' <= d
    ensures Ample(t, limit, |q| + d) ==> Ample(t, limit, |q| + d')
    ensures RunsOut(limit, |q|, d) ==> RunsOut(limit, |q|, d')
  {
    if Ample(t, limit, |q| + d) {
      RoomForLess(Size(t), Size(t), limit, |q| + d, |q| + d');
    }
    if RunsOut(limit, |q|, d) {
      RunsOutForLess(limit, |q|, d, d');
    }
  }

  lemma NestedLimitIsEnough<V>(t: Trie<V>, q: seq<Key>, d: nat, limit: nat, ret: seq<V>)
    requires q != [] && 0 < limit && |ret| <= limit && Distinct(ret)
    requires forall i :: 0 <= i < |ret| ==> Found(t, q, d, ret[i])
    ensures Ample(t, limit, |q| + d) ==>
              |ret| < limit && |ret| < NestedLimit(limit, |ret|) && Ample(t, NestedLimit(limit, |ret|), |q| + d - 1)
    ensures limit < HALF_RANGE && ret == [] ==> NestedLimit(limit, |ret|) == limit
  {
    MatchesFit(t, q, d, ret);
    if Ample(t, limit, |q| + d) {
      RoomBelow(Size(t), limit, |q| + d - 1, |ret|);
    }
  }

  /** What holds of a limit holds, one level down, of the nested one. */
  lemma TargetKeepsRoom<V>(t: Trie<V>, q: seq<Key>, d: nat, route: Route, limit: nat)
    requires q != [] && Target(t, q, d, route).Goal?
    ensures var goal := Target(t, q, d, route);
            && (Ample(t, limit, |q| + d - 1) ==> Ample(goal.t, limit, |goal.q| + goal.d))
            && |goal.q| + goal.d < |q| + d
            && if goal.d == d then |goal.q| + 1 == |q| else goal.d + 1 == d && |goal.q| + 2 >= |q|
  {
    TargetIsSmaller(t, q, d, route);
    var goal := Target(t, q, d, route);
    if Ample(t, limit, |q| + d - 1) {
      RoomForLess(Size(t), Size(goal.t), limit, |q| + d - 1, |goal.q| + goal.d);
    }
  }

  lemma TargetIsSmaller<V>(t: Trie<V>, q: seq<Key>, d: nat, route: Route)
    requires q != [] && Target(t, q, d, route).Goal?
    ensures Size(Target(t, q, d, route).t) <= Size(t)
  {
    var goal := Target(t, q, d, route);
    match route
    case ExactRoute => ChildSize(t, q[0]);
    case SwapRoute => ChildSize(t, q[1]); ChildSize(t.next[q[1]], q[0]);
    case InsertRoute(k) => ChildSize(t, k);
    case DeleteRoute =>
    case SubstituteRoute(k) => ChildSize(t, k);
  }

  /** Appending what the nested search of one more route returned. */
  lemma RouteTaken<V(!new)>(t: Trie<V>, q: seq<Key>, limit: nat, d: nat, routes: set<Route>, route: Route,
                            ret: seq<V>, temp: seq<V>, more: seq<V>)
    requires q != [] && Partial(t, q, limit, d, routes, ret) && Target(t, q, d, route).Goal?
    requires var goal := Target(t, q, d, route); Searched(goal.t, goal.q, NestedLimit(limit, |ret|), goal.d, temp)
    requires Extends(ret, temp, limit, more)
    ensures Partial(t, q, limit, d, routes + {route}, more)
  {
    var goal := Target(t, q, d, route);
    var nested := NestedLimit(limit, |ret|);
    NestedLimitIsEnough(t, q, d, limit, ret);
    TargetIsSmaller(t, q, d, route);
    TargetKeepsRoom(t, q, d, route, nested);
    hide Room, RunsOut, Underfilled;
    if Underfilled(t, limit, more) {
      UnderfilledBefore(t, limit, ret, more);
      UnderfilledHasRoom(t, limit, ret);
      UnderfilledRoute(t, q, limit, d, routes, route, ret, temp, more);
    }
    forall i | 0 <= i < |more| ensures Found(t, q, d, more[i]) {
      if i >= |ret| {
        assert Via(t, q, d, route, more[i]);
        RoutesLeadToMatches(t, q, d, route, more[i]);
      }
    }
    MatchesFit(t, q, d, more);
    if Ample(t, limit, |q| + d) {
      RoomIsEnough(Size(t), limit, |q| + d);
      AmpleRoute(t, q, limit, d, routes, route, ret, temp, more);
    }
    if limit < HALF_RANGE && ret == [] {
      FirstRoute(t, q, limit, d, routes, route, temp, more);
    }
    if RunsOut(limit, |q|, d) {
      RunsOutBelow(limit, |q|, d, |goal.q|, goal.d);
      assert temp == [];
    }
  }

  lemma UnderfilledRoute<V(!new)>(t: Trie<V>, q: seq<Key>, limit: nat, d: nat, routes: set<Route>, route: Route,
                                  ret: seq<V>, temp: seq<V>, more: seq<V>)
    requires q != [] && Partial(t, q, limit, d, routes, ret) && Target(t, q, d, route).Goal?
    requires var goal := Target(t, q, d, route); Searched(goal.t, goal.q, limit, goal.d, temp)
    requires Underfilled(t, limit, ret) && Underfilled(t, limit, more) && Extends(ret, temp, limit, more)
    requires forall i, j :: 0 <= i < j < |more| ==> more[i] != more[j]
    ensures forall v :: Covered(t, q, d, routes + {route}, v) ==> v in more
  {
    hide Room, RunsOut, Underfilled, Ample, BestFirst, Leads;
    UnderfilledHasRoom(t, limit, more);
    UnderfilledBelow(t, q, d, route, limit, temp, more);
    forall v | Covered(t, q, d, routes + {route}, v) ensures v in more {
      assert Covered(t, q, d, routes, v) || Via(t, q, d, route, v);
    }
  }

  lemma AmpleRoute<V(!new)>(t: Trie<V>, q: seq<Key>, limit: nat, d: nat, routes: set<Route>, route: Route,
                            ret: seq<V>, temp: seq<V>, more: seq<V>)
    requires q != [] && Partial(t, q, limit, d, routes, ret) && Target(t, q, d, route).Goal?
    requires forall v :: Via(t, q, d, route, v) ==> v in temp
    requires Ample(t, limit, |q| + d) && Extends(ret, temp, limit, more) && |more| < limit
    requires forall i :: 0 <= i < |more| ==> Found(t, q, d, more[i])
    ensures forall v :: Covered(t, q, d, routes + {route}, v) ==> v in more
    ensures BestFirst(t, q, more)
  {
    forall v | Covered(t, q, d, routes + {route}, v) ensures v in more {
      assert Covered(t, q, d, routes, v) || Via(t, q, d, route, v);
    }
    forall i | |ret| <= i < |more| && d > 0 ensures !Found(t, q, d - 1, more[i]) {
      if Found(t, q, d - 1, more[i]) {
        assert Covered(t, q, d, routes, more[i]);
        assert false;
      }
    }
    BestFirstExtends(t, q, ret, more, d);
  }

  lemma FirstRoute<V(!new)>(t: Trie<V>, q: seq<Key>, limit: nat, d: nat, routes: set<Route>, route: Route,
                            temp: seq<V>, more: seq<V>)
    requires q != [] && Partial(t, q, limit, d, routes, []) && limit < HALF_RANGE
    requires temp == [] ==> forall v :: !Via(t, q, d, route, v)
    requires Extends([], temp, limit, more)
    requires forall i :: 0 <= i < |more| ==> Found(t, q, d, more[i])
    ensures more == [] ==> forall v :: !Covered(t, q, d, routes + {route}, v)
    ensures more != [] ==> Leads(t, q, more[0])
  {
    assert temp != [] ==> temp[0] in temp;
    if more == [] {
      forall v ensures !Covered(t, q, d, routes + {route}, v) {
        assert !Covered(t, q, d, routes, v);
      }
    } else {
      forall v, e: nat | Found(t, q, e, v) ensures Found(t, q, e, more[0]) {
        assert !Covered(t, q, d, routes, v);
        if e < d { FoundMonotone(t, q, e, d - 1, v); }
        FoundMonotone(t, q, d, e, more[0]);
      }
    }
  }

  /** A route that leads nowhere needs no search. */
  lemma RouteMissing<V(!new)>(t: Trie<V>, q: seq<Key>, limit: nat, d: nat, routes: set<Route>, route: Route,
                              ret: seq<V>)
    requires q != [] && Partial(t, q, limit, d, routes, ret) && Target(t, q, d, route).Nowhere?
    ensures Partial(t, q, limit, d, routes + {route}, ret)
  {
    forall v ensures Covered(t, q, d, routes + {route}, v) <==> Covered(t, q, d, routes, v) {
    }
  }

  /** When the loop over the children stops early, nothing was owed any more. */
  lemma RoutesSkipped<V(!new)>(t: Trie<V>, q: seq<Key>, limit: nat, d: nat, routes: set<Route>, all: set<Route>,
                               ret: seq<V>)
    requires q != [] && Partial(t, q, limit, d, routes, ret)
    requires |ret| >= NestedLimit(limit, |ret|)
    ensures Partial(t, q, limit, d, all, ret)
  {
    hide Underfilled;
    if Underfilled(t, limit, ret) {
      UnderfilledHasRoom(t, limit, ret);
    }
    NestedLimitIsEnough(t, q, d, limit, ret);
  }

  lemma SearchEnds<V(!new)>(t: Trie<V>, q: seq<Key>, limit: nat, n: nat, d: nat, ret: seq<V>)
    requires q != [] && Finished(t, q, limit, n, ret) && n <= d + 1
    requires n == d + 1 || |ret| >= limit
    ensures Searched(t, q, limit, d, ret)
  {
    if n > 0 {
      forall i | 0 <= i < |ret| ensures Found(t, q, d, ret[i]) {
        FoundMonotone(t, q, n - 1, d, ret[i]);
      }
      NestedLimitIsEnough(t, q, n - 1, limit, ret);
      FewerEdits(t, q, limit, d, n - 1);
      hide Room, RunsOut, Underfilled;
      if Underfilled(t, limit, ret) {
        UnderfilledHasRoom(t, limit, ret);
      }
      forall v | n == d + 1 && Found(t, q, d, v)
        ensures Ample(t, limit, |q| + d) ==> v in ret
        ensures Underfilled(t, limit, ret) ==> v in ret
        ensures limit < HALF_RANGE ==> ret != []
      {
        FinishedCovers(t, q, limit, n, ret, v);
      }
    }
  }

  /** No value was inserted more than m times. */
  ghost predicate InsertedAtMost<V(!new)>(inserts: seq<(seq<Key>, ElementRank, V)>, m: nat) {
    forall v :: multiset(InsertedBelow(inserts, []))[v] <= m
  }

  /** A search of a trie built by insertions, said without the trie. No value is returned that was not
      inserted within d edits; with room for every entry every such value is returned, none before one
      that needs fewer edits; with less room, below 2^63, the first result is still a best one, and if no
      value was inserted more than m times, m at least 2, nothing is missing unless the results fill the
      m-th part of the limit; and a limit that runs out returns nothing at all. */
  lemma SearchedMeansInserted<V(!new)>(inserts: seq<(seq<Key>, ElementRank, V)>, q: seq<Key>, limit: nat, d: nat,
                                       ret: seq<V>)
    requires Searched(InsertAll(inserts), q, limit, d, ret)
    ensures forall v :: v in ret ==> InsertedWithin(inserts, q, d, v)
    ensures q != [] ==> Distinct(ret)
    ensures Room(|inserts|, limit, |q| + d) ==> forall v :: InsertedWithin(inserts, q, d, v) ==> v in ret
    ensures Room(|inserts|, limit, |q| + d) && q != [] ==>
              forall i, j, e: nat :: 0 <= i < j < |ret| && InsertedWithin(inserts, q, e, ret[j]) ==>
                InsertedWithin(inserts, q, e, ret[i])
    ensures 0 < limit < HALF_RANGE ==> forall v, e: nat :: e <= d && InsertedWithin(inserts, q, e, v) ==>
              ret != [] && InsertedWithin(inserts, q, e, ret[0])
    ensures RunsOut(limit, |q|, d) ==> ret == []
    ensures forall m: nat ::
              m >= 2 && InsertedAtMost(inserts, m) && limit < HALF_RANGE && m * |Elements(ret)| < limit ==>
                forall v :: InsertedWithin(inserts, q, d, v) ==> v in ret
  {
    hide Room, RunsOut, Elements;
    var t := InsertAll(inserts);
    forall m: nat | m >= 2 && InsertedAtMost(inserts, m) && limit < HALF_RANGE && m * |Elements(ret)| < limit
      ensures Underfilled(t, limit, ret)
    {
      forall v ensures Count(t, v) <= m {
        CountIsInserted(inserts, [], v);
      }
      assert UnderfilledBy(t, limit, ret, m);
    }
    InsertAllSize(inserts);
    forall v, e: nat ensures Found(t, q, e, v) <==> InsertedWithin(inserts, q, e, v) {
      FoundIsInserted(inserts, q, e, v);
    }
    forall v, e: nat | e <= d && Found(t, q, e, v) ensures Found(t, q, d, v) {
      FoundMonotone(t, q, e, d, v);
    }
  }
}
