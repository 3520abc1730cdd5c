/** What exactly a search returns, result by result: how lists are filled up, what a subtree is listed as
    under a limit, and how the rounds of the search follow each other. */
module SearchResults {
  import opened EditDistance
  import opened OrderedKeys
  import opened Sequences
  import opened TrieCounts
  import opened TrieModel
  import opened TrieSearchSpec

  // Filling up

  /** ret followed by what of the input is not there yet, up to the limit. */
  ghost function Fill<V>(ret: seq<V>, input: seq<V>, limit: nat): (r: seq<V>)
    ensures ret <= r && (|ret| <= limit ==> |r| <= limit)
  {
    if input == [] then ret
    else
      var r := Fill(ret, input[..|input| - 1], limit);
      if |r| >= limit || input[|input| - 1] in r then r else r + [input[|input| - 1]]
  }

  lemma FillStep<V>(ret: seq<V>, input: seq<V>, n: nat, limit: nat)
    requires n < |input|
    ensures var r := Fill(ret, input[..n], limit);
            Fill(ret, input[..n + 1], limit) == if |r| >= limit || input[n] in r then r else r + [input[n]]
  {
    assert input[..n + 1][..n] == input[..n];
  }

  lemma {:induction false} FillFull<V>(ret: seq<V>, input: seq<V>, n: nat, limit: nat)
    requires n <= |input| && |Fill(ret, input[..n], limit)| >= limit
    ensures Fill(ret, input, limit) == Fill(ret, input[..n], limit)
    decreases |input| - n
  {
    if n < |input| {
      FillStep(ret, input, n, limit);
      FillFull(ret, input, n + 1, limit);
    } else {
      assert input[..n] == input;
    }
  }

  /** Values that are distinct and not there yet are appended as they come. */
  lemma {:induction false} FillDistinct<V>(ret: seq<V>, input: seq<V>, limit: nat)
    requires Distinct(ret + input) && |ret| <= limit
    ensures Fill(ret, input, limit) == if |ret| + |input| <= limit then ret + input else ret + input[..limit - |ret|]
  {
    if input == [] {
      assert ret + input == ret;
    } else {
      var front, last := input[..|input| - 1], input[|input| - 1];
      var all := ret + input;
      assert forall i :: 0 <= i < |ret + front| ==> (ret + front)[i] == all[i];
      assert all[|all| - 1] == last;
      FillDistinct(ret, front, limit);
      if |ret| + |input| <= limit {
        assert last !in ret + front;
        assert ret + front + [last] == ret + input;
      } else {
        assert front[..limit - |ret|] == input[..limit - |ret|];
      }
    }
  }

  // What a subtree is listed as

  /** The values at and below a node under a limit: its own first, then those of the children by key, as
      far as there is room for them and without repeats. */
  ghost function Listing<V>(t: Trie<V>, limit: nat): (r: seq<V>)
    ensures |r| <= limit
    decreases t, 1, 0
  {
    if |t.values| >= limit then OwnValues(t)[..limit]
    else
      var ks := Ascending(t.next.Keys);
      ListChildren(t, limit, ks, |ks|)
  }

  ghost function ListChildren<V>(t: Trie<V>, limit: nat, ks: seq<Key>, n: nat): (r: seq<V>)
    requires n <= |ks| && |t.values| <= limit && forall k :: k in ks ==> k in t.next
    ensures |r| <= limit
    decreases t, 0, n
  {
    if n == 0 then OwnValues(t)
    else
      var before := ListChildren(t, limit, ks, n - 1);
      if |before| >= limit then before
      else
        var child := t.next[ks[n - 1]];
        Fill(before, Listing(child, limit - |before|), limit)
  }

  lemma {:induction false} ListChildrenFull<V>(t: Trie<V>, limit: nat, ks: seq<Key>, i: nat, n: nat)
    requires i <= n <= |ks| && |t.values| <= limit && forall k :: k in ks ==> k in t.next
    requires |ListChildren(t, limit, ks, i)| >= limit
    ensures ListChildren(t, limit, ks, n) == ListChildren(t, limit, ks, i)
    decreases n
  {
    if i < n {
      ListChildrenFull(t, limit, ks, i, n - 1);
    }
  }

  // The search

  lemma TargetIsNearer<V>(t: Trie<V>, q: seq<Key>, d: nat, route: Route)
    requires q != [] && Target(t, q, d, route).Goal?
    ensures |Target(t, q, d, route).q| + Target(t, q, d, route).d < |q| + d
  {
  }

  /** What a search returns: nothing without room, the listing of the node when the query is used up, and
      otherwise the results of the rounds. */
  ghost function Result<V>(t: Trie<V>, q: seq<Key>, limit: nat, d: nat): (r: seq<V>)
    ensures |r| <= limit
    decreases |q| + d, 6, 0
  {
    if limit == 0 then []
    else if q == [] then Listing(t, limit)
    else Rounds(t, q, limit, d)
  }

  /** The results after the rounds for up to n edits; no round is begun without room. */
  ghost function Rounds<V>(t: Trie<V>, q: seq<Key>, limit: nat, n: nat): (r: seq<V>)
    requires q != []
    ensures |r| <= limit
    decreases |q| + n, 5, 0
  {
    var before := if n == 0 then [] else Rounds(t, q, limit, n - 1);
    if |before| >= limit then before
    else Taken(t, q, limit, n, ExactRoute, if n == 0 then before else Edited(t, q, limit, n, before))
  }

  /** A round spends an edit on a swap, on inserting a child's key, on a deletion and on substituting a
      child's key, in this order. */
  ghost function Edited<V>(t: Trie<V>, q: seq<Key>, limit: nat, d: nat, ret: seq<V>): (r: seq<V>)
    requires q != [] && |ret| <= limit
    ensures ret <= r && |r| <= limit
    decreases |q| + d, 4, 0
  {
    var ks := Ascending(t.next.Keys);
    var swapped := Taken(t, q, limit, d, SwapRoute, ret);
    var inserted := TakenChildren(t, q, limit, d, true, ks, swapped);
    var deleted := Taken(t, q, limit, d, DeleteRoute, inserted);
    TakenChildren(t, q, limit, d, false, ks, deleted)
  }

  /** The children but that of the query's own key, by key, until there is too little room. */
  ghost function TakenChildren<V>(t: Trie<V>, q: seq<Key>, limit: nat, d: nat, inserting: bool, ks: seq<Key>,
                                  ret: seq<V>)
    : (r: seq<V>)
    requires q != [] && |ret| <= limit
    ensures ret <= r && |r| <= limit
    decreases |q| + d, 3, |ks|
  {
    if ks == [] then ret
    else if ks[0] == q[0] then TakenChildren(t, q, limit, d, inserting, ks[1..], ret)
    else if |ret| >= NestedLimit(limit, |ret|) then ret
    else TakenChildren(t, q, limit, d, inserting, ks[1..], Taken(t, q, limit, d, ChildRoute(inserting, ks[0]), ret))
  }

  /** One route: what the nested search returns is filled in. */
  ghost function Taken<V>(t: Trie<V>, q: seq<Key>, limit: nat, d: nat, route: Route, ret: seq<V>): (r: seq<V>)
    requires q != [] && |ret| <= limit
    ensures ret <= r && |r| <= limit
    decreases |q| + d, 2, 0
  {
    var goal := Target(t, q, d, route);
    if goal.Nowhere? then ret
    else
      TargetIsNearer(t, q, d, route);
      Fill(ret, Result(goal.t, goal.q, NestedLimit(limit, |ret|), goal.d), limit)
  }

  lemma {:induction false} RoundsFull<V>(t: Trie<V>, q: seq<Key>, limit: nat, i: nat, n: nat)
    requires q != [] && i <= n && |Rounds(t, q, limit, i)| >= limit
    ensures Rounds(t, q, limit, n) == Rounds(t, q, limit, i)
    decreases n
  {
    if i < n {
      RoundsFull(t, q, limit, i, n - 1);
    }
  }

  /** Later rounds only append: the results for fewer edits stand first. */
  lemma {:induction false} FewerEditsFirst<V>(t: Trie<V>, q: seq<Key>, limit: nat, d: nat, e: nat)
    requires d <= e
    ensures Result(t, q, limit, d) <= Result(t, q, limit, e)
    decreases e
  {
    if d < e {
      FewerEditsFirst(t, q, limit, d, e - 1);
    }
  }

  // Steps of the loops

  lemma NoChildListed<V>(t: Trie<V>, limit: nat, ks: seq<Key>, ret: seq<V>)
    requires |ret| == |t.values| <= limit && forall k :: k in ks ==> k in t.next
    requires forall i :: 0 <= i < |ret| ==> ret[i] == t.values[i].1
    ensures ListChildren(t, limit, ks, 0) == ret
  {
  }

  lemma NextChildListed<V>(t: Trie<V>, limit: nat, ks: seq<Key>, n: nat)
    requires n < |ks| && |t.values| <= limit && forall k :: k in ks ==> k in t.next
    ensures var before := ListChildren(t, limit, ks, n);
            ListChildren(t, limit, ks, n + 1) ==
              if |before| >= limit then before else Fill(before, Listing(t.next[ks[n]], limit - |before|), limit)
  {
  }

  lemma ListingIs<V>(t: Trie<V>, limit: nat)
    requires |t.values| <= limit
    ensures var ks := Ascending(t.next.Keys); Listing(t, limit) == ListChildren(t, limit, ks, |ks|)
  {
    var ks := Ascending(t.next.Keys);
    if |t.values| == limit {
      ListChildrenFull(t, limit, ks, 0, |ks|);
    }
  }

  lemma RoundIs<V>(t: Trie<V>, q: seq<Key>, limit: nat, n: nat, before: seq<V>)
    requires q != [] && before == (if n == 0 then [] else Rounds(t, q, limit, n - 1)) && |before| < limit
    ensures Rounds(t, q, limit, n) ==
              Taken(t, q, limit, n, ExactRoute, if n == 0 then before else Edited(t, q, limit, n, before))
  {
  }

  lemma RoundsEnd<V>(t: Trie<V>, q: seq<Key>, limit: nat, n: nat, d: nat)
    requires q != [] && limit > 0 && 0 < n <= d + 1 && (n == d + 1 || |Rounds(t, q, limit, n - 1)| >= limit)
    ensures Rounds(t, q, limit, n - 1) == Rounds(t, q, limit, d)
  {
    if n < d + 1 {
      RoundsFull(t, q, limit, n - 1, d);
    }
  }

  lemma TakenIs<V>(t: Trie<V>, q: seq<Key>, limit: nat, d: nat, route: Route, ret: seq<V>)
    requires q != [] && |ret| <= limit
    ensures var goal := Target(t, q, d, route);
            Taken(t, q, limit, d, route, ret) ==
              if goal.Nowhere? then ret else Fill(ret, Result(goal.t, goal.q, NestedLimit(limit, |ret|), goal.d), limit)
  {
  }

  lemma TakenChildrenStep<V>(t: Trie<V>, q: seq<Key>, limit: nat, d: nat, inserting: bool, ks: seq<Key>, n: nat,
                             ret: seq<V>)
    requires q != [] && |ret| <= limit && n < |ks|
    ensures TakenChildren(t, q, limit, d, inserting, ks[n..], ret) ==
              if ks[n] == q[0] then TakenChildren(t, q, limit, d, inserting, ks[n + 1..], ret)
              else if |ret| >= NestedLimit(limit, |ret|) then ret
              else TakenChildren(t, q, limit, d, inserting, ks[n + 1..],
                                 Taken(t, q, limit, d, ChildRoute(inserting, ks[n]), ret))
  {
    assert ks[n..][0] == ks[n] && ks[n..][1..] == ks[n + 1..];
  }

  lemma TakenChildrenEnd<V>(t: Trie<V>, q: seq<Key>, limit: nat, d: nat, inserting: bool, ks: seq<Key>, ret: seq<V>)
    requires q != [] && |ret| <= limit
    ensures TakenChildren(t, q, limit, d, inserting, ks[|ks|..], ret) == ret
  {
  }
}
