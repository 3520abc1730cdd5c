/** The trie under insertion and search. A trie is a value whose children are values, as in the
    program, where each node holds its children inside its map; the loops below walk and rebuild
    that value. */
module FuzzyTrie {
  import opened EditDistance
  import opened ExactSearch
  import OrderedKeys
  import opened SearchResults
  import opened Sequences
  import opened TrieCounts
  import opened TrieModel
  import opened TrieSearchSpec

  /** Appends to ret what it does not hold yet, until it is full. */
  method Append<V(==)>(ret: seq<V>, input: seq<V>, limit: nat) returns (ret': seq<V>)
    requires |ret| <= limit
    ensures Extends(ret, input, limit, ret') && ret' == Fill(ret, input, limit)
  {
    ret' := ret;
    for n := 0 to |input|
      invariant ret <= ret' && |ret'| <= limit && |ret'| <= |ret| + n
      invariant forall i :: |ret| <= i < |ret'| ==> ret'[i] in input
      invariant forall i, j :: 0 <= i < j < |ret'| && |ret| <= j ==> ret'[i] != ret'[j]
      invariant forall i :: 0 <= i < n ==> input[i] in ret'
      invariant ret' == Fill(ret, input[..n], limit)
    {
      if |ret'| >= limit {
        FillFull(ret, input, n, limit);
        return;
      }
      FillStep(ret, input, n, limit);
      if input[n] !in ret' {
        ret' := ret' + [input[n]];
      }
    }
    assert input[..|input|] == input;
  }

  /** All values at and below a node, its own first. Its own values are not compared with each
      other, so one may repeat. */
  method ValuesAndSubvalues<V(==,!new)>(t: Trie<V>, limit: nat) returns (ret: seq<V>)
    ensures Lists(t, limit, ret) && ret == Listing(t, limit)
    decreases t
  {
    hide Lists, ListsSome, Fill, ListChildren;
    ret := [];
    for i := 0 to |t.values|
      invariant |ret| == i <= limit
      invariant forall j :: 0 <= j < i ==> ret[j] == t.values[j].1
    {
      if |ret| >= limit {
        OwnValuesOnly(t, limit, ret);
        assert ret == OwnValues(t)[..limit];
        return;
      }
      ret := ret + [t.values[i].1];
    }
    var ks := OrderedKeys.Ascending(t.next.Keys);
    OwnValuesFirst(t, limit, ret);
    NoChildListed(t, limit, ks, ret);
    assert Prefix(ks, 0) == {};
    for n := 0 to |ks|
      invariant ListsSome(t, limit, Prefix(ks, n), ret) && |t.values| <= |ret| <= limit
      invariant ret == ListChildren(t, limit, ks, n)
    {
      if |ret| >= limit {
        ListChildrenFull(t, limit, ks, n, |ks|);
        ListingIs(t, limit);
        FullIsEnough(t, limit, Prefix(ks, n), ret);
        return;
      }
      var temp := ValuesAndSubvalues(t.next[ks[n]], limit - |ret|);
      var more := Append(ret, temp, limit);
      ListsOneMore(t, limit, Prefix(ks, n), ks[n], ret, temp, more);
      PrefixNext(ks, n);
      NextChildListed(t, limit, ks, n);
      ret := more;
    }
    ListingIs(t, limit);
    assert Prefix(ks, |ks|) == t.next.Keys;
    AllListed(t, limit, ret);
  }

  /** Approximate prefix search: exact matches first, then with up to maxEditDistance edits. */
  method SearchTrie<V(==,!new)>(t: Trie<V>, keys: seq<Key>, limit: nat, maxEditDistance: nat) returns (ret: seq<V>)
    requires limit < SIZE_RANGE && maxEditDistance + 1 < SIZE_RANGE
    ensures Searched(t, keys, limit, maxEditDistance, ret) && ret == Result(t, keys, limit, maxEditDistance)
    decreases |keys| + maxEditDistance, 1
  {
    hide Searched, Partial, Listing, Rounds, Edited, Taken;
    ret := [];
    if limit == 0 {
      NoRoom(t, keys, maxEditDistance);
      return;
    }
    if keys == [] {
      ret := ValuesAndSubvalues(t, limit);
      EnumerationSearches(t, limit, maxEditDistance, ret);
      return;
    }
    var distance := 0;
    while distance <= maxEditDistance && |ret| < limit
      invariant distance <= maxEditDistance + 1
      invariant Finished(t, keys, limit, distance, ret) && |ret| <= limit
      invariant ret == if distance == 0 then [] else Rounds(t, keys, limit, distance - 1)
    {
      ghost var before := ret;
      RoundBegins(t, keys, limit, distance, ret);
      ghost var routes := {};
      if distance > 0 && |ret| < limit {
        ret := EditRound(t, keys, limit, distance, ret);
        routes := EditRoutes(t.next.Keys);
      }
      if keys[0] in t.next {
        ret := AppendSearch(t.next[keys[0]], keys[1..], distance, limit, ret, t, keys, distance, routes, ExactRoute);
      } else {
        TakenIs(t, keys, limit, distance, ExactRoute, ret);
        RouteMissing(t, keys, limit, distance, routes, ExactRoute, ret);
      }
      RoundIs(t, keys, limit, distance, before);
      distance := distance + 1;
    }
    RoundsEnd(t, keys, limit, distance, maxEditDistance);
    SearchEnds(t, keys, limit, distance, maxEditDistance, ret);
  }

  /** The part of a round that spends an edit: swap, insert, delete and substitute, each followed by
      a search with one edit less. */
  method EditRound<V(==,!new)>(t: Trie<V>, keys: seq<Key>, limit: nat, distance: nat, found: seq<V>)
    returns (ret: seq<V>)
    requires keys != [] && 0 < distance < SIZE_RANGE && limit < SIZE_RANGE
    requires Partial(t, keys, limit, distance, {}, found)
    requires |found| <= limit
    ensures Partial(t, keys, limit, distance, EditRoutes(t.next.Keys), ret)
    ensures |ret| <= limit && ret == Edited(t, keys, limit, distance, found)
    decreases |keys| + distance, 0
  {
    hide Partial, Taken, TakenChildren;
    ret := found;
    TakenIs(t, keys, limit, distance, SwapRoute, found);
    ghost var routes := {SwapRoute};
    assert {} + routes == routes;
    if |keys| >= 2 && keys[1] in t.next && keys[0] in t.next[keys[1]].next {
      var other := t.next[keys[1]].next[keys[0]];
      ret := AppendSearch(other, keys[2..], distance - 1, limit, ret, t, keys, distance, {}, SwapRoute);
    } else {
      RouteMissing(t, keys, limit, distance, {}, SwapRoute, ret);
    }
    ret := SearchChildren(true, t, keys, limit, distance, ret, routes);
    routes := routes + ChildRoutes(true, t.next.Keys);
    ret := AppendSearch(t, keys[1..], distance - 1, limit, ret, t, keys, distance, routes, DeleteRoute);
    ret := SearchChildren(false, t, keys, limit, distance, ret, routes + {DeleteRoute});
  }

  /** The insert case and the substitute case: every child but the exact one, with the whole query
      left when a key is inserted and without its first key when that is substituted. */
  method SearchChildren<V(==,!new)>(inserting: bool, t: Trie<V>, keys: seq<Key>, limit: nat, distance: nat,
                                    found: seq<V>, ghost before: set<Route>)
    returns (ret: seq<V>)
    requires keys != [] && 0 < distance < SIZE_RANGE && limit < SIZE_RANGE
    requires Partial(t, keys, limit, distance, before, found)
    requires |found| <= limit
    ensures Partial(t, keys, limit, distance, before + ChildRoutes(inserting, t.next.Keys), ret)
    ensures ret == TakenChildren(t, keys, limit, distance, inserting, OrderedKeys.Ascending(t.next.Keys), found)
    decreases |keys| + distance - 1, 4
  {
    hide Partial, Taken, TakenChildren, ChildRoutes, ChildRoute, NestedLimit;
    ret := found;
    var ks := OrderedKeys.Ascending(t.next.Keys);
    ghost var routes, all := before, before + ChildRoutes(inserting, t.next.Keys);
    NoChildRoutes(before, inserting, ks);
    assert ks[0..] == ks && Prefix(ks, |ks|) == t.next.Keys;
    for n := 0 to |ks|
      invariant routes == before + ChildRoutes(inserting, Prefix(ks, n))
      invariant Partial(t, keys, limit, distance, routes, ret) && |ret| <= limit
      invariant TakenChildren(t, keys, limit, distance, inserting, ks, found) ==
                TakenChildren(t, keys, limit, distance, inserting, ks[n..], ret)
    {
      TakenChildrenStep(t, keys, limit, distance, inserting, ks, n, ret);
      if ks[n] != keys[0] && |ret| >= NestedLimit(limit, |ret|) {
        RoutesSkipped(t, keys, limit, distance, routes, all, ret);
        return;
      }
      ret := SearchChild(inserting, ks[n], t, keys, limit, distance, ret, routes);
      ChildRoutesNext(before, inserting, ks, n);
      routes := routes + {ChildRoute(inserting, ks[n])};
    }
    TakenChildrenEnd(t, keys, limit, distance, inserting, ks, ret);
  }

  method SearchChild<V(==,!new)>(inserting: bool, k: Key, t: Trie<V>, keys: seq<Key>, limit: nat, distance: nat,
                                 found: seq<V>, ghost routes: set<Route>)
    returns (ret: seq<V>)
    requires k in t.next && keys != [] && 0 < distance < SIZE_RANGE && limit < SIZE_RANGE
    requires Partial(t, keys, limit, distance, routes, found) && |found| <= limit
    ensures Partial(t, keys, limit, distance, routes + {ChildRoute(inserting, k)}, ret)
    ensures ret == Taken(t, keys, limit, distance, ChildRoute(inserting, k), found) && (k == keys[0] ==> ret == found)
    decreases |keys| + distance - 1, 3
  {
    hide Partial, Taken;
    TakenIs(t, keys, limit, distance, ChildRoute(inserting, k), found);
    ret := found;
    ghost var route := ChildRoute(inserting, k);
    ChildTarget(t, keys, distance, inserting, k);
    if k == keys[0] {
      RouteMissing(t, keys, limit, distance, routes, route, ret);
    } else {
      var rest := if inserting then keys else keys[1..];
      ret := AppendSearch(t.next[k], rest, distance - 1, limit, ret, t, keys, distance, routes, route);
    }
  }

  /** Appends what a nested search finds. The ghost arguments say which search this is part of, and
      which of its routes is taken. */
  method AppendSearch<V(==,!new)>(other: Trie<V>, rest: seq<Key>, left: nat, limit: nat, found: seq<V>,
                                  ghost t: Trie<V>, ghost keys: seq<Key>, ghost d: nat, ghost routes: set<Route>,
                                  ghost route: Route)
    returns (ret: seq<V>)
    requires keys != [] && limit < SIZE_RANGE && left + 1 < SIZE_RANGE
    requires Partial(t, keys, limit, d, routes, found) && Target(t, keys, d, route) == Goal(other, rest, left)
    requires |found| <= limit
    ensures Partial(t, keys, limit, d, routes + {route}, ret)
    ensures |ret| <= limit && ret == Taken(t, keys, limit, d, route, found)
    decreases |rest| + left, 2
  {
    hide Partial, Searched, Taken, Result, Fill;
    TakenIs(t, keys, limit, d, route, found);
    var temp := SearchTrie(other, rest, NestedLimit(limit, |found|), left);
    ret := Append(found, temp, limit);
    RouteTaken(t, keys, limit, d, routes, route, found, temp, ret);
  }

  /** The list begins with the values inserted under keys that begin with the query, own values first and
      then child by child, as many of them as the limit allows. */
  ghost predicate BeginsExactly<V>(inserts: seq<(seq<Key>, ElementRank, V)>, q: seq<Key>, limit: nat, ret: seq<V>) {
    var all, n := Enumeration(NodeAt(InsertAll(inserts), q)), |InsertedBelow(inserts, q)|;
    && |all| == n && |ret| >= (if n < limit then n else limit)
    && forall i :: 0 <= i < n && i < limit ==> ret[i] == all[i]
  }

  class FuzzyIndex<V(==,!new)> {
    var root: Trie<V>
    ghost var inserts: seq<(seq<Key>, ElementRank, V)>

    ghost predicate Valid()
      reads this
    {
      root == InsertAll(inserts)
    }

    constructor ()
      ensures Valid() && inserts == []
    {
      root := Trie([], map[]);
      inserts := [];
    }

    /** Walks down the keys, creating what is missing, stores the value, and writes the changed
        nodes back on the way up. */
    method Insert(rank: ElementRank, keys: seq<Key>, v: V)
      requires Valid()
      modifies this
      ensures Valid() && inserts == old(inserts) + [(keys, rank, v)]
      ensures root == InsertAt(old(root), keys, rank, v)
    {
      var t := root;
      var above: seq<Trie<V>> := [];
      for i := 0 to |keys|
        invariant unchanged(this)
        invariant |above| == i && forall j :: 0 <= j < i ==> above[j] == NodeAt(root, keys[..j])
        invariant t == NodeAt(root, keys[..i])
      {
        above := above + [t];
        NodeAtNext(root, keys, i);
        t := if keys[i] in t.next then t.next[keys[i]] else Trie([], map[]);
      }
      assert keys[..|keys|] == keys && keys[|keys|..] == [] && keys[..0] == [] && keys[0..] == keys;
      t := t.(values := Place(t.values, rank, v));
      for i := |keys| downto 0
        invariant unchanged(this)
        invariant t == InsertAt(NodeAt(root, keys[..i]), keys[i..], rank, v)
      {
        NodeAtNext(root, keys, i);
        assert keys[i..][0] == keys[i] && keys[i..][1..] == keys[i + 1..];
        t := above[i].(next := above[i].next[keys[i] := t]);
      }
      root := t;
      inserts := inserts + [(keys, rank, v)];
      LastInsert(old(inserts), inserts, keys, rank, v);
    }

    method Search(keys: seq<Key>, limit: nat, maxEditDistance: nat) returns (ret: seq<V>)
      requires Valid() && limit < SIZE_RANGE && maxEditDistance + 1 < SIZE_RANGE
      ensures |ret| <= limit && (keys != [] ==> Distinct(ret))
      ensures forall v :: v in ret ==> InsertedWithin(inserts, keys, maxEditDistance, v)
      ensures Room(|inserts|, limit, |keys| + maxEditDistance) ==>
                forall v :: InsertedWithin(inserts, keys, maxEditDistance, v) ==> v in ret
      ensures Room(|inserts|, limit, |keys| + maxEditDistance) && keys != [] ==>
                forall i, j, e: nat :: 0 <= i < j < |ret| && InsertedWithin(inserts, keys, e, ret[j]) ==>
                  InsertedWithin(inserts, keys, e, ret[i])
      ensures RunsOut(limit, |keys|, maxEditDistance) ==> ret == []
      ensures ret == Result(InsertAll(inserts), keys, limit, maxEditDistance)
      ensures keys != [] && 0 < limit < HALF_RANGE && Distinct(InsertedBelow(inserts, keys)) ==>
                && BeginsExactly(inserts, keys, limit, ret)
                && (maxEditDistance == 0 ==> |ret| <= |InsertedBelow(inserts, keys)|)
      ensures forall m: nat ::
                keys != [] && m >= 2 && InsertedAtMost(inserts, m) && limit < HALF_RANGE && m * |ret| < limit ==>
                  forall v :: InsertedWithin(inserts, keys, maxEditDistance, v) ==> v in ret
    {
      hide Room, RunsOut, Result, Elements, InsertAll, InsertedBelow, InsertedAtMost, Enumeration;
      ret := SearchTrie(root, keys, limit, maxEditDistance);
      FewerEditsFirst(root, keys, limit, 0, maxEditDistance);
      if keys != [] && 0 < limit < HALF_RANGE && Distinct(InsertedBelow(inserts, keys)) {
        ExactOverInserts(inserts, keys, limit);
      }
      if Distinct(ret) {
        DistinctElements(ret);
      }
      SearchedMeansInserted(inserts, keys, limit, maxEditDistance, ret);
    }
  }
}
