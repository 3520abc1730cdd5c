/** Edit scripts between a query and a stored key, and the recursive matching relation that the
    trie search decides. A script is the declarative side: it reads the query, writes a path, and
    pays one for every swap, insertion, deletion or substitution. */
module EditDistance {
  import opened Sequences

  /** A code point; the trie is keyed by them. */
  type Key = nat

  datatype Edit =
    | Keep(k: Key)
    | Swap(a: Key, b: Key)
    | Insert(k: Key)
    | Delete(k: Key)
    | Substitute(from: Key, to: Key)
  {
    ghost function Reads(): seq<Key> {
      match this
      case Keep(k) => [k]
      case Swap(a, b) => [a, b]
      case Insert(_) => []
      case Delete(k) => [k]
      case Substitute(from, _) => [from]
    }

    ghost function Writes(): seq<Key> {
      match this
      case Keep(k) => [k]
      case Swap(a, b) => [b, a]
      case Insert(k) => [k]
      case Delete(_) => []
      case Substitute(_, to) => [to]
    }

    ghost function Cost(): nat {
      if Keep? then 0 else 1
    }
  }

  ghost function Reads(script: seq<Edit>): seq<Key> {
    if script == [] then [] else script[0].Reads() + Reads(script[1..])
  }

  ghost function Writes(script: seq<Edit>): seq<Key> {
    if script == [] then [] else script[0].Writes() + Writes(script[1..])
  }

  ghost function Cost(script: seq<Edit>): nat {
    if script == [] then 0 else script[0].Cost() + Cost(script[1..])
  }

  /** The script turns the whole query into some prefix of the path, paying at most d. */
  ghost predicate Explains(script: seq<Edit>, query: seq<Key>, path: seq<Key>, d: nat) {
    Reads(script) == query && Writes(script) <= path && Cost(script) <= d
  }

  /** Some prefix of the path lies within d edits of the query. */
  ghost predicate WithinEdits(query: seq<Key>, path: seq<Key>, d: nat) {
    exists script :: Explains(script, query, path, d)
  }

  // One case of the relation per way the first edit can go.

  ghost predicate Exact(q: seq<Key>, p: seq<Key>, d: nat)
    requires q != []
    decreases |q| + |p| + d, 0
  {
    p != [] && p[0] == q[0] && Matches(q[1..], p[1..], d)
  }

  ghost predicate Swapped(q: seq<Key>, p: seq<Key>, d: nat)
    requires q != []
    decreases |q| + |p| + d, 0
  {
    |q| >= 2 && |p| >= 2 && p[0] == q[1] && p[1] == q[0] && Matches(q[2..], p[2..], d)
  }

  ghost predicate Inserted(q: seq<Key>, p: seq<Key>, d: nat)
    requires q != []
    decreases |q| + |p| + d, 0
  {
    p != [] && Matches(q, p[1..], d)
  }

  ghost predicate Deleted(q: seq<Key>, p: seq<Key>, d: nat)
    requires q != []
    decreases |q| + |p| + d, 0
  {
    Matches(q[1..], p, d)
  }

  ghost predicate Substituted(q: seq<Key>, p: seq<Key>, d: nat)
    requires q != []
    decreases |q| + |p| + d, 0
  {
    p != [] && Matches(q[1..], p[1..], d)
  }

  /** The same relation by recursion on the query, one edit at a time. */
  ghost predicate Matches(q: seq<Key>, p: seq<Key>, d: nat)
    decreases |q| + |p| + d, 1
  {
    || q == []
    || Exact(q, p, d)
    || (d > 0 && (Swapped(q, p, d - 1) || Inserted(q, p, d - 1) || Deleted(q, p, d - 1) || Substituted(q, p, d - 1)))
  }

  /** A script's first edit put in front of an explanation of what is left. */
  lemma Prepend(e: Edit, script: seq<Edit>, q: seq<Key>, p: seq<Key>, d: nat)
    requires Explains(script, q, p, d)
    ensures Explains([e] + script, e.Reads() + q, e.Writes() + p, e.Cost() + d)
  {
    assert ([e] + script)[1..] == script;
  }

  lemma {:induction false} MatchesHasScript(q: seq<Key>, p: seq<Key>, d: nat)
    requires Matches(q, p, d)
    ensures WithinEdits(q, p, d)
    decreases |q| + |p| + d, 0
  {
    if q == [] {
      assert Explains([], q, p, d);
    } else if Exact(q, p, d) {
      HeadFirst(Keep(q[0]), q, p, d, q[1..], p[1..], d);
    } else if Swapped(q, p, d - 1) {
      HeadFirst(Swap(q[0], q[1]), q, p, d, q[2..], p[2..], d - 1);
    } else if Inserted(q, p, d - 1) {
      HeadFirst(Insert(p[0]), q, p, d, q, p[1..], d - 1);
    } else if Deleted(q, p, d - 1) {
      HeadFirst(Delete(q[0]), q, p, d, q[1..], p, d - 1);
    } else {
      HeadFirst(Substitute(q[0], p[0]), q, p, d, q[1..], p[1..], d - 1);
    }
  }

  lemma {:induction false} HeadFirst(e: Edit, q: seq<Key>, p: seq<Key>, d: nat, q': seq<Key>, p': seq<Key>, d': nat)
    requires e.Reads() + q' == q && e.Writes() + p' == p && e.Cost() + d' == d
    requires Matches(q', p', d') && |q'| + |p'| + d' < |q| + |p| + d
    ensures WithinEdits(q, p, d)
    decreases |q'| + |p'| + d', 1
  {
    MatchesHasScript(q', p', d');
    var script :| Explains(script, q', p', d');
    Prepend(e, script, q', p', d');
  }

  /** What is left once a script's first edit is done. */
  lemma Peel(script: seq<Edit>, q: seq<Key>, p: seq<Key>, d: nat)
    requires Explains(script, q, p, d) && script != []
    ensures var e := script[0];
            && e.Cost() <= d && e.Reads() <= q && e.Writes() <= p
            && e.Reads() + q[|e.Reads()|..] == q && e.Writes() + p[|e.Writes()|..] == p
            && Explains(script[1..], q[|e.Reads()|..], p[|e.Writes()|..], d - e.Cost())
  {
    var e, rest := script[0], script[1..];
    ConcatParts(e.Reads(), Reads(rest));
    ConcatParts(e.Writes(), Writes(rest));
    assert p[..|Writes(script)|] == Writes(script);
  }

  lemma FirstEdit(e: Edit, q: seq<Key>, p: seq<Key>, d: nat)
    requires Matches(q, p, d)
    ensures Matches(e.Reads() + q, e.Writes() + p, e.Cost() + d)
  {
    var q', p', d' := e.Reads() + q, e.Writes() + p, e.Cost() + d;
    ConcatParts(e.Reads(), q);
    ConcatParts(e.Writes(), p);
    if q' != [] {
      match e
      case Keep(_) => assert Exact(q', p', d');
      case Swap(_, _) => assert Swapped(q', p', d);
      case Insert(_) => assert Inserted(q', p', d);
      case Delete(_) => assert Deleted(q', p', d);
      case Substitute(_, _) => assert Substituted(q', p', d);
    }
  }

  lemma {:induction false} ScriptGivesMatches(script: seq<Edit>, q: seq<Key>, p: seq<Key>, d: nat)
    requires Explains(script, q, p, d)
    ensures Matches(q, p, d)
    decreases |script|
  {
    if script != [] {
      hide Explains, Matches;
      Peel(script, q, p, d);
      var e := script[0];
      var q', p', d' := q[|e.Reads()|..], p[|e.Writes()|..], d - e.Cost();
      ScriptGivesMatches(script[1..], q', p', d');
      FirstEdit(e, q', p', d');
    }
  }

  /** The recursion decides exactly the declarative relation. */
  lemma MatchesIsWithinEdits(q: seq<Key>, p: seq<Key>, d: nat)
    ensures Matches(q, p, d) <==> WithinEdits(q, p, d)
  {
    if Matches(q, p, d) {
      MatchesHasScript(q, p, d);
    }
    if WithinEdits(q, p, d) {
      var script :| Explains(script, q, p, d);
      ScriptGivesMatches(script, q, p, d);
    }
  }

  lemma {:induction false} Monotone(q: seq<Key>, p: seq<Key>, d: nat, d': nat)
    requires Matches(q, p, d) && d <= d'
    ensures Matches(q, p, d')
    decreases |q| + |p| + d
  {
    if q == [] {
    } else if Exact(q, p, d) {
      Monotone(q[1..], p[1..], d, d');
    } else if Swapped(q, p, d - 1) {
      Monotone(q[2..], p[2..], d - 1, d' - 1);
    } else if Inserted(q, p, d - 1) {
      Monotone(q, p[1..], d - 1, d' - 1);
    } else if Deleted(q, p, d - 1) {
      Monotone(q[1..], p, d - 1, d' - 1);
    } else {
      Monotone(q[1..], p[1..], d - 1, d' - 1);
    }
  }

  /** Dropping the first query key costs at most one more edit. */
  lemma {:induction false} DropFirst(q: seq<Key>, p: seq<Key>, d: nat)
    requires q != [] && Matches(q, p, d)
    ensures Matches(q[1..], p, d + 1)
    decreases |q| + |p| + d
  {
    var r := q[1..];
    if r == [] {
    } else if Exact(q, p, d) {
      assert Inserted(r, p, d);
    } else if Swapped(q, p, d - 1) {
      Monotone(q[2..], p[2..], d - 1, d);
      assert p[1..][1..] == p[2..] && r[1..] == q[2..];
      assert q[2..] != [] ==> Inserted(q[2..], p[1..], d);
      assert Exact(r, p, d + 1);
    } else if Inserted(q, p, d - 1) {
      DropFirst(q, p[1..], d - 1);
      assert Inserted(r, p, d);
    } else if Deleted(q, p, d - 1) {
      Monotone(r, p, d - 1, d + 1);
    } else {
      Monotone(r, p[1..], d - 1, d);
      assert Inserted(r, p, d);
    }
  }

  /** Why the search may skip, on insertion and substitution, the child equal to the first query
      key: the same matches are reached by keeping that key. */
  lemma PruningIsComplete(q: seq<Key>, p: seq<Key>, d: nat)
    requires q != []
    ensures Matches(q, p, d) <==>
            || Exact(q, p, d)
            || (d > 0 && (|| Swapped(q, p, d - 1)
                          || (p != [] && p[0] != q[0] && Inserted(q, p, d - 1))
                          || Deleted(q, p, d - 1)
                          || (p != [] && p[0] != q[0] && Substituted(q, p, d - 1))))
  {
    if d > 0 && p != [] && p[0] == q[0] {
      if Inserted(q, p, d - 1) {
        DropFirst(q, p[1..], d - 1);
        assert Exact(q, p, d);
      }
      if Substituted(q, p, d - 1) {
        Monotone(q[1..], p[1..], d - 1, d);
        assert Exact(q, p, d);
      }
    }
  }

  /** Without edits, the query is a prefix of the path. */
  lemma {:induction false} NoEditsIsPrefix(q: seq<Key>, p: seq<Key>)
    ensures WithinEdits(q, p, 0) <==> q <= p
    decreases |q|
  {
    MatchesIsWithinEdits(q, p, 0);
    if q != [] && p != [] {
      NoEditsIsPrefix(q[1..], p[1..]);
      MatchesIsWithinEdits(q[1..], p[1..], 0);
      assert q == [q[0]] + q[1..] && p == [p[0]] + p[1..];
    }
  }

  /** A swap, an insertion, a deletion and a substitution in front cost one edit each, the same character
      in front none. */
  lemma EachEditCostsOne(a: Key, b: Key, q: seq<Key>, p: seq<Key>, d: nat)
    requires WithinEdits(q, p, d)
    ensures WithinEdits([a] + q, [a] + p, d)
    ensures WithinEdits([a, b] + q, [b, a] + p, d + 1)
    ensures WithinEdits(q, [a] + p, d + 1) && WithinEdits([a] + q, p, d + 1) && WithinEdits([a] + q, [b] + p, d + 1)
  {
    var script :| Explains(script, q, p, d);
    Prepend(Keep(a), script, q, p, d);
    Prepend(Swap(a, b), script, q, p, d);
    Prepend(Insert(a), script, q, p, d);
    Prepend(Delete(a), script, q, p, d);
    Prepend(Substitute(a, b), script, q, p, d);
    assert [] + q == q && [] + p == p;
  }
}
