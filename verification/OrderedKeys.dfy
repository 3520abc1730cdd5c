/** The integer keys of a table as a cursor sees them: first, last, and the neighbours of a key. */
module OrderedKeys {

  import opened Options

  ghost predicate IsMax(s: set<nat>, m: nat) {
    m in s && forall k :: k in s ==> k <= m
  }

  lemma {:induction false} HasMax(s: set<nat>) returns (m: nat)
    requires s != {}
    ensures IsMax(s, m)
  {
    m :| m in s;
    var rest := s - {m};
    if rest != {} {
      var n := HasMax(rest);
      m := if n <= m then m else n;
    }
    forall k | k in s ensures k <= m {
      assert k in rest || k !in rest;
    }
  }

  function Max(s: set<nat>): (m: nat)
    requires s != {}
    ensures IsMax(s, m)
  {
    assert exists m :: IsMax(s, m) by { var m := HasMax(s); }
    var m: nat :| m in s && forall k :: k in s ==> k <= m;
    m
  }

  ghost predicate IsMin(s: set<nat>, m: nat) {
    m in s && forall k :: k in s ==> m <= k
  }

  lemma {:induction false} HasMin(s: set<nat>) returns (m: nat)
    requires s != {}
    ensures IsMin(s, m)
  {
    m :| m in s;
    var rest := s - {m};
    if rest != {} {
      var n := HasMin(rest);
      m := if m <= n then m else n;
    }
    forall k | k in s ensures m <= k {
      assert k in rest || k !in rest;
    }
  }

  function Min(s: set<nat>): (m: nat)
    requires s != {}
    ensures IsMin(s, m)
  {
    assert exists m :: IsMin(s, m) by { var m := HasMin(s); }
    var m: nat :| m in s && forall k :: k in s ==> m <= k;
    m
  }

  /** Where a cursor lands on MDB_LAST. */
  function Last(s: set<nat>): (r: Option<nat>)
    ensures r == None <==> s == {}
    ensures r.Some? ==> r.value in s && forall k :: k in s ==> k <= r.value
  {
    if s == {} then None else Some(Max(s))
  }

  /** Where a cursor lands on MDB_FIRST. */
  function First(s: set<nat>): (r: Option<nat>)
    ensures r == None <==> s == {}
    ensures r.Some? ==> r.value in s && forall k :: k in s ==> r.value <= k
  {
    if s == {} then None else Some(Min(s))
  }

  /** Where a cursor at k lands on MDB_PREV. */
  function Before(s: set<nat>, k: nat): (r: Option<nat>)
    ensures r == None <==> forall j :: j in s ==> k <= j
    ensures r.Some? ==> r.value in s && r.value < k && forall j :: j in s && j < k ==> j <= r.value
  {
    var below := set j | j in s && j < k;
    assert forall j :: j in s && j < k ==> j in below;
    Last(below)
  }

  /** Where a cursor at k lands on MDB_NEXT. */
  function After(s: set<nat>, k: nat): (r: Option<nat>)
    ensures r == None <==> forall j :: j in s ==> j <= k
    ensures r.Some? ==> r.value in s && k < r.value && forall j :: j in s && k < j ==> r.value <= j
  {
    var above := set j | j in s && k < j;
    assert forall j :: j in s && k < j ==> j in above;
    First(above)
  }

  /** The keys from lowest to highest. */
  function Ascending(s: set<nat>): (r: seq<nat>)
    ensures forall k :: k in s <==> k in r
    ensures forall i, j :: 0 <= i < j < |r| ==> r[i] < r[j]
  {
    if s == {} then [] else
      var m := Max(s);
      var r := Ascending(s - {m});
      assert forall k :: k in s <==> k == m || k in s - {m};
      r + [m]
  }
}
