/** Olm sessions kept in one ordered table under the combined key `curve25519 NUL session id`, and the
    range scan that finds the sessions of one curve25519 key. */
module OlmSessions {
  import opened ByteStrings
  import opened Options

  const NUL: Byte := 0

  datatype StoredSession = StoredSession(lastMessageTs: nat, pickled: string)

  datatype Record = Record(key: Bytes, session: StoredSession)

  function Combine(curve: Bytes, sessionId: Bytes): Bytes {
    curve + [NUL] + sessionId
  }

  /** Position of the first NUL, or the length if there is none. */
  function FindNul(key: Bytes): (n: nat)
    ensures n <= |key| && NUL !in key[..n] && (n < |key| ==> key[n] == NUL)
  {
    if key == [] || key[0] == NUL then 0
    else
      var n := FindNul(key[1..]);
      assert key[..n + 1] == [key[0]] + key[1..][..n];
      n + 1
  }

  /** The parts of a combined key. Without a separator the whole key is taken for both parts, because
      the position after "not found" wraps to the start. */
  function Split(key: Bytes): (Bytes, Bytes) {
    var n := FindNul(key);
    if n == |key| then (key, key) else (key[..n], key[n + 1..])
  }

  lemma FindNulIs(key: Bytes, n: nat)
    requires n < |key| && key[n] == NUL && NUL !in key[..n]
    ensures FindNul(key) == n
  {
    var m := FindNul(key);
    assert forall k :: 0 <= k < n ==> key[k] == key[..n][k];
    assert forall k :: 0 <= k < m ==> key[k] == key[..m][k];
  }

  /** Splitting undoes combining exactly for keys without a NUL. */
  lemma SplitCombine(curve: Bytes, sessionId: Bytes)
    ensures Split(Combine(curve, sessionId)) == (curve, sessionId) <==> NUL !in curve
  {
    var key := Combine(curve, sessionId);
    if NUL !in curve {
      assert key[..|curve|] == curve;
      FindNulIs(key, |curve|);
    } else {
      var n := FindNul(key);
      var i :| 0 <= i < |curve| && curve[i] == NUL;
      assert forall k :: 0 <= k < n ==> key[k] == key[..n][k];
      assert key[i] == NUL;
    }
  }

  // Order

  lemma {:induction false} PrefixIsNotGreater(curve: Bytes, key: Bytes)
    requires curve <= key
    ensures !Less(key, curve)
  {
    if curve != [] {
      PrefixIsNotGreater(curve[1..], key[1..]);
    }
  }

  /** What lies between a key and an extension of it extends it as well. */
  lemma {:induction false} BetweenExtends(curve: Bytes, key: Bytes, above: Bytes)
    requires !Less(key, curve) && Less(key, above) && curve <= above
    ensures curve <= key && Less(key[|curve|..], above[|curve|..])
  {
    if curve != [] {
      BetweenExtends(curve[1..], key[1..], above[1..]);
      assert key[|curve|..] == key[1..][|curve| - 1..] && above[|curve|..] == above[1..][|curve| - 1..];
    }
  }

  lemma OwnKeyExtends(curve: Bytes, key: Bytes)
    requires Split(key).0 == curve
    ensures curve <= key && NUL !in curve && (key == curve || key[|curve|] == NUL)
  {
  }

  /** The records of one curve key lie side by side from the first key not below it. */
  lemma NoGap(curve: Bytes, key: Bytes, above: Bytes)
    requires !Less(key, curve) && Less(key, above) && Split(above).0 == curve
    ensures Split(key).0 == curve
  {
    OwnKeyExtends(curve, above);
    BetweenExtends(curve, key, above);
    if key == curve {
      assert key[..|key|] == key;
      assert forall k :: 0 <= k < |key| ==> key[k] != NUL;
    } else {
      var rest := key[|curve|..];
      assert rest != [] && above[|curve|..][0] == NUL;
      assert key[|curve|] == NUL && key[..|curve|] == curve;
      FindNulIs(key, |curve|);
    }
  }

  ghost predicate Sorted(table: seq<Record>) {
    forall i, j :: 0 <= i < j < |table| ==> Less(table[i].key, table[j].key)
  }

  /** What a filter over the whole table finds. */
  ghost function Own(table: seq<Record>, curve: Bytes): seq<Record> {
    if table == [] then []
    else
      var last := table[|table| - 1];
      Own(table[..|table| - 1], curve) + if Split(last.key).0 == curve then [last] else []
  }

  lemma OwnStep(table: seq<Record>, i: nat, curve: Bytes)
    requires i < |table|
    ensures Own(table[..i + 1], curve) ==
              if Split(table[i].key).0 == curve then Own(table[..i], curve) + [table[i]] else Own(table[..i], curve)
  {
    assert table[..i + 1][..i] == table[..i];
  }

  lemma OwnNothing(table: seq<Record>, curve: Bytes)
    ensures Own(table[..0], curve) == []
  {
  }

  lemma {:induction false} OwnNone(table: seq<Record>, rest: seq<Record>, curve: Bytes)
    requires forall i :: 0 <= i < |rest| ==> Split(rest[i].key).0 != curve
    ensures Own(table + rest, curve) == Own(table, curve)
  {
    if rest == [] {
      assert table + rest == table;
    } else {
      OwnNone(table, rest[..|rest| - 1], curve);
      assert (table + rest)[..|table + rest| - 1] == table + rest[..|rest| - 1];
    }
  }

  lemma {:induction false} OwnBefore(table: seq<Record>, curve: Bytes)
    requires forall i :: 0 <= i < |table| ==> Split(table[i].key).0 != curve
    ensures Own(table, curve) == []
  {
    OwnNone([], table, curve);
    assert [] + table == table;
  }

  ghost function SessionIds(records: seq<Record>): seq<Bytes> {
    seq(|records|, i requires 0 <= i < |records| => Split(records[i].key).1)
  }

  /** The first record with the largest timestamp. */
  ghost predicate IsLatest(records: seq<Record>, k: int) {
    && 0 <= k < |records|
    && (forall i :: 0 <= i < |records| ==> records[i].session.lastMessageTs <= records[k].session.lastMessageTs)
    && (forall i :: 0 <= i < k ==> records[i].session.lastMessageTs < records[k].session.lastMessageTs)
  }

  lemma LatestStep(records: seq<Record>, k: int, x: Record)
    requires records == [] || IsLatest(records, k)
    ensures records == [] ==> IsLatest(records + [x], 0)
    ensures records != [] ==>
              IsLatest(records + [x],
                       if records[k].session.lastMessageTs < x.session.lastMessageTs then |records| else k)
  {
  }

  lemma InsertedSorted(table: seq<Record>, i: nat, x: Record)
    requires Sorted(table) && i <= |table|
    requires forall j :: 0 <= j < i ==> Less(table[j].key, x.key)
    requires forall j :: i <= j < |table| ==> !Less(table[j].key, x.key)
    requires i < |table| ==> table[i].key != x.key
    ensures Sorted(table[..i] + [x] + table[i..])
    ensures forall j :: 0 <= j < |table| ==> table[j].key != x.key
  {
    forall j | i <= j < |table| ensures Less(x.key, table[j].key) {
      LessIsTotal(x.key, table[i].key);
      if j > i { LessIsTransitive(x.key, table[i].key, table[j].key); }
    }
    LessIsTotal(x.key, x.key);
  }

  lemma InsertedHas(table: seq<Record>, i: nat, x: Record)
    requires i <= |table| && forall j :: 0 <= j < |table| ==> table[j].key != x.key
    ensures Stores(table, table[..i] + [x] + table[i..], x.key, x.session)
  {
    var more := table[..i] + [x] + table[i..];
    assert more[i] == x;
    forall k, s ensures Has(more, k, s) <==> if k == x.key then s == x.session else Has(table, k, s) {
      if j :| 0 <= j < |table| && table[j] == Record(k, s) { assert more[if j < i then j else j + 1] == table[j]; }
      if j :| 0 <= j < |more| && more[j] == Record(k, s) {
        assert j != i ==> table[if j < i then j else j - 1] == more[j];
      }
    }
  }

  lemma ReplacedHas(table: seq<Record>, i: nat, x: Record)
    requires Sorted(table) && i < |table| && table[i].key == x.key
    ensures Sorted(table[i := x])
    ensures Stores(table, table[i := x], x.key, x.session)
  {
    var more := table[i := x];
    assert more[i] == x;
    forall j | 0 <= j < |table| && j != i ensures table[j].key != x.key {
      LessIsTotal(table[j].key, table[i].key);
    }
    forall k, s ensures Has(more, k, s) <==> if k == x.key then s == x.session else Has(table, k, s) {
      if j :| 0 <= j < |table| && table[j] == Record(k, s) { assert j != i ==> more[j] == table[j]; }
      if j :| 0 <= j < |more| && more[j] == Record(k, s) { assert j != i ==> table[j] == more[j]; }
    }
  }

  ghost predicate Has(table: seq<Record>, key: Bytes, session: StoredSession) {
    exists i :: 0 <= i < |table| && table[i] == Record(key, session)
  }

  /** The key has the session afterwards, and every other key what it had before. */
  ghost predicate Stores(before: seq<Record>, after: seq<Record>, key: Bytes, session: StoredSession) {
    forall k, s :: Has(after, k, s) <==> if k == key then s == session else Has(before, k, s)
  }

  // What was saved

  type Saved = map<(Bytes, Bytes), StoredSession>

  /** No curve key has a NUL in it; base64, for one, has none. */
  ghost predicate Plain(saved: Saved) {
    forall p :: p in saved ==> NUL !in p.0
  }

  /** The table has the last save of every pair of curve key and session id, and nothing else. */
  ghost predicate Holds(table: seq<Record>, saved: Saved) {
    forall k, s :: Has(table, k, s) <==> IsSaved(saved, k, s)
  }

  ghost predicate IsSaved(saved: Saved, key: Bytes, session: StoredSession) {
    var p := Split(key);
    key == Combine(p.0, p.1) && p in saved && saved[p] == session
  }

  lemma PlainBefore(saved: Saved, curve: Bytes, id: Bytes, session: StoredSession)
    requires Plain(saved[(curve, id) := session])
    ensures Plain(saved) && NUL !in curve
  {
    var saved' := saved[(curve, id) := session];
    assert (curve, id) in saved';
    assert forall p :: p in saved ==> p in saved';
  }

  lemma SavedOneMore(before: seq<Record>, after: seq<Record>, saved: Saved, curve: Bytes, id: Bytes,
                     session: StoredSession)
    requires Holds(before, saved) && Stores(before, after, Combine(curve, id), session) && NUL !in curve
    ensures Holds(after, saved[(curve, id) := session])
  {
    SplitCombine(curve, id);
    var saved' := saved[(curve, id) := session];
    forall k, s ensures Has(after, k, s) <==> IsSaved(saved', k, s) {
      assert Has(before, k, s) <==> IsSaved(saved, k, s);
    }
  }

  lemma {:induction false} OwnIs(table: seq<Record>, curve: Bytes)
    requires Sorted(table)
    ensures forall r :: r in Own(table, curve) <==> r in table && Split(r.key).0 == curve
    ensures Sorted(Own(table, curve))
  {
    hide Less, Split;
    if table != [] {
      var front, last := table[..|table| - 1], table[|table| - 1];
      OwnIs(front, curve);
      forall r | r in Own(front, curve) ensures Less(r.key, last.key) {
        var i :| 0 <= i < |front| && front[i] == r;
        assert table[i] == r;
      }
      assert table == front + [last];
    }
  }

  /** Under one curve key, the order of the combined keys is that of the session ids. */
  lemma {:induction false} LessBehind(prefix: Bytes, a: Bytes, b: Bytes)
    ensures Less(prefix + a, prefix + b) <==> Less(a, b)
    decreases |prefix|
  {
    if prefix == [] {
      assert prefix + a == a && prefix + b == b;
    } else {
      LessBehind(prefix[1..], a, b);
      assert (prefix + a)[1..] == prefix[1..] + a && (prefix + b)[1..] == prefix[1..] + b;
    }
  }

  /** The records of one curve key are exactly what was saved for it. */
  lemma OwnIsSaved(table: seq<Record>, saved: Saved, curve: Bytes)
    requires Sorted(table) && Holds(table, saved) && Plain(saved)
    ensures forall r :: r in Own(table, curve) ==>
              && r.key == Combine(curve, Split(r.key).1)
              && (curve, Split(r.key).1) in saved && saved[(curve, Split(r.key).1)] == r.session
    ensures forall id :: (curve, id) in saved ==> Record(Combine(curve, id), saved[(curve, id)]) in Own(table, curve)
  {
    hide Less, Split, Sorted, NUL;
    OwnIs(table, curve);
    forall r | r in Own(table, curve) ensures IsSaved(saved, r.key, r.session) {
      var i :| 0 <= i < |table| && table[i] == r;
      assert Has(table, r.key, r.session);
    }
    forall id | (curve, id) in saved ensures Record(Combine(curve, id), saved[(curve, id)]) in table {
      SplitCombine(curve, id);
      assert IsSaved(saved, Combine(curve, id), saved[(curve, id)]);
      assert Has(table, Combine(curve, id), saved[(curve, id)]);
    }
    forall id | (curve, id) in saved ensures Split(Combine(curve, id)).0 == curve {
      SplitCombine(curve, id);
    }
  }

  /** The ids are those saved for the curve key, each once and in byte order. */
  ghost predicate AreSavedIds(saved: Saved, curve: Bytes, ids: seq<Bytes>) {
    && (forall id :: id in ids <==> (curve, id) in saved)
    && (forall i, j :: 0 <= i < j < |ids| ==> Less(ids[i], ids[j]))
  }

  lemma IdsAreSaved(table: seq<Record>, saved: Saved, curve: Bytes)
    requires Sorted(table) && Holds(table, saved) && Plain(saved)
    ensures AreSavedIds(saved, curve, SessionIds(Own(table, curve)))
  {
    hide Less, Split, Own, Holds;
    OwnIs(table, curve);
    OwnIsSaved(table, saved, curve);
    var own, ids := Own(table, curve), SessionIds(Own(table, curve));
    forall id | (curve, id) in saved ensures id in ids {
      SplitCombine(curve, id);
      var i :| 0 <= i < |own| && own[i] == Record(Combine(curve, id), saved[(curve, id)]);
      assert ids[i] == id;
    }
    forall i | 0 <= i < |ids| ensures (curve, ids[i]) in saved && own[i].key == Combine(curve, ids[i]) {
      assert own[i] in own;
    }
    forall i, j | 0 <= i < j < |ids| ensures Less(ids[i], ids[j]) {
      LessBehind(curve + [NUL], ids[i], ids[j]);
    }
  }

  /** The session is one saved for the curve key that was used last, the first by id of those. */
  ghost predicate IsLatestSaved(saved: Saved, curve: Bytes, session: StoredSession) {
    exists id :: (curve, id) in saved && saved[(curve, id)] == session && NoneLater(saved, curve, id, session)
  }

  ghost predicate NoneLater(saved: Saved, curve: Bytes, id: Bytes, session: StoredSession) {
    forall other :: (curve, other) in saved && other != id ==>
      if Less(other, id) then saved[(curve, other)].lastMessageTs < session.lastMessageTs
      else saved[(curve, other)].lastMessageTs <= session.lastMessageTs
  }

  lemma LatestIsSaved(table: seq<Record>, saved: Saved, curve: Bytes, k: nat)
    requires Sorted(table) && Holds(table, saved) && Plain(saved) && IsLatest(Own(table, curve), k)
    ensures IsLatestSaved(saved, curve, Own(table, curve)[k].session)
  {
    hide Less, Split, Own, Holds;
    OwnIs(table, curve);
    OwnIsSaved(table, saved, curve);
    IdsAreSaved(table, saved, curve);
    var own, ids := Own(table, curve), SessionIds(Own(table, curve));
    var id, session := ids[k], own[k].session;
    assert own[k] in own;
    forall other | (curve, other) in saved && other != id
      ensures if Less(other, id) then saved[(curve, other)].lastMessageTs < session.lastMessageTs
              else saved[(curve, other)].lastMessageTs <= session.lastMessageTs
    {
      SplitCombine(curve, other);
      var i :| 0 <= i < |own| && own[i] == Record(Combine(curve, other), saved[(curve, other)]);
      assert ids[i] == other;
      LessIsTotal(other, id);
    }
    assert NoneLater(saved, curve, id, session);
  }

  class OlmSessionTable {
    var table: seq<Record>
    /** The last session saved for each pair of keys. */
    ghost var saved: Saved

    ghost predicate Valid()
      reads this
    {
      Sorted(table) && (Plain(saved) ==> Holds(table, saved))
    }

    constructor ()
      ensures Valid() && table == [] && saved == map[]
    {
      table, saved := [], map[];
    }

    /** Where a cursor lands on MDB_SET_RANGE: the first record whose key is not below the given one. */
    method SetRange(key: Bytes) returns (i: nat)
      requires Valid()
      ensures i <= |table|
      ensures forall j :: 0 <= j < i ==> Less(table[j].key, key)
      ensures forall j :: i <= j < |table| ==> !Less(table[j].key, key)
    {
      i := 0;
      while i < |table| && Less(table[i].key, key)
        invariant i <= |table| && forall j :: 0 <= j < i ==> Less(table[j].key, key)
      {
        i := i + 1;
      }
      forall j | i < j < |table| ensures !Less(table[j].key, key) {
        if Less(table[j].key, key) {
          LessIsTransitive(table[i].key, table[j].key, key);
        }
      }
    }

    /** Stores a session under its combined key, replacing what was there. */
    method SaveOlmSession(curve: Bytes, sessionId: Bytes, session: StoredSession)
      requires Valid()
      modifies this
      ensures Valid()
      ensures Stores(old(table), table, Combine(curve, sessionId), session)
      ensures saved == old(saved)[(curve, sessionId) := session]
    {
      hide Sorted, Less, Stores, Combine, Holds;
      var x := Record(Combine(curve, sessionId), session);
      var i := SetRange(x.key);
      if i < |table| && table[i].key == x.key {
        ReplacedHas(table, i, x);
        table := table[i := x];
      } else {
        InsertedSorted(table, i, x);
        InsertedHas(table, i, x);
        table := table[..i] + [x] + table[i..];
      }
      saved := saved[(curve, sessionId) := session];
      if Plain(saved) {
        PlainBefore(old(saved), curve, sessionId, session);
        SavedOneMore(old(table), table, old(saved), curve, sessionId, session);
      }
    }

    /** The ids of the sessions of a curve key, by a scan that stops at the first foreign record. An
        empty key is no valid place to start from and finds nothing. */
    method GetOlmSessions(curve: Bytes) returns (ids: seq<Bytes>)
      requires Valid()
      ensures curve != [] ==> ids == SessionIds(Own(table, curve))
      ensures curve != [] && Plain(saved) ==> AreSavedIds(saved, curve, ids)
      ensures curve == [] ==> ids == []
    {
      hide Less, Split, Own, NUL, Plain, Holds, AreSavedIds;
      OwnNothing(table, curve);
      if Plain(saved) {
        IdsAreSaved(table, saved, curve);
      }
      ids := [];
      if curve == [] {
        return;
      }
      var i := SetRange(curve);
      NoneBelow(curve, i);
      while i < |table|
        invariant i <= |table| && ids == SessionIds(Own(table[..i], curve))
        invariant forall j :: i <= j < |table| ==> !Less(table[j].key, curve)
      {
        var (storedCurve, id) := Split(table[i].key);
        if storedCurve != curve {
          NoneAbove(curve, i);
          return;
        }
        OwnStep(table, i, curve);
        assert SessionIds(Own(table[..i], curve) + [table[i]]) == SessionIds(Own(table[..i], curve)) + [id];
        ids := ids + [id];
        i := i + 1;
      }
      assert table[..i] == table;
    }

    /** The session of a curve key that was used last. */
    method GetLatestOlmSession(curve: Bytes) returns (r: Option<StoredSession>)
      requires Valid()
      ensures curve != [] ==> (r == None <==> Own(table, curve) == [])
      ensures curve != [] && r.Some? ==>
                exists k :: IsLatest(Own(table, curve), k) && r.value == Own(table, curve)[k].session
      ensures curve != [] && Plain(saved) ==>
                if r.Some? then IsLatestSaved(saved, curve, r.value) else forall id :: (curve, id) !in saved
      ensures curve == [] ==> r == None
    {
      hide Less, Split, Own, NUL, Plain, Holds;
      LatestOfSaved(curve);
      OwnNothing(table, curve);
      r := None;
      if curve == [] {
        return;
      }
      var i := SetRange(curve);
      NoneBelow(curve, i);
      ghost var k := 0;
      while i < |table|
        invariant i <= |table| && (r == None <==> Own(table[..i], curve) == [])
        invariant r.Some? ==> IsLatest(Own(table[..i], curve), k) && r.value == Own(table[..i], curve)[k].session
        invariant forall j :: i <= j < |table| ==> !Less(table[j].key, curve)
      {
        if Split(table[i].key).0 != curve {
          NoneAbove(curve, i);
          return;
        }
        OwnStep(table, i, curve);
        var session := table[i].session;
        LatestStep(Own(table[..i], curve), k, table[i]);
        if r.None? || r.value.lastMessageTs < session.lastMessageTs {
          r := Some(session);
          k := |Own(table[..i], curve)|;
        }
        i := i + 1;
      }
      assert table[..i] == table;
    }

    lemma LatestOfSaved(curve: Bytes)
      requires Valid()
      ensures Plain(saved) ==> (Own(table, curve) == [] <==> forall id :: (curve, id) !in saved)
      ensures Plain(saved) ==>
                forall k :: IsLatest(Own(table, curve), k) ==> IsLatestSaved(saved, curve, Own(table, curve)[k].session)
    {
      hide Less, Split, Own, NUL, Plain, Holds;
      if Plain(saved) {
        OwnIsSaved(table, saved, curve);
        forall r | r in Own(table, curve) ensures (curve, Split(r.key).1) in saved {
        }
        assert Own(table, curve) != [] ==> Own(table, curve)[0] in Own(table, curve);
        forall k | IsLatest(Own(table, curve), k) ensures IsLatestSaved(saved, curve, Own(table, curve)[k].session) {
          LatestIsSaved(table, saved, curve, k);
        }
      }
    }

    lemma NoneBelow(curve: Bytes, i: nat)
      requires i <= |table| && forall j :: 0 <= j < i ==> Less(table[j].key, curve)
      ensures Own(table[..i], curve) == []
    {
      forall j | 0 <= j < i ensures Split(table[..i][j].key).0 != curve {
        if Split(table[j].key).0 == curve {
          OwnKeyExtends(curve, table[j].key);
          PrefixIsNotGreater(curve, table[j].key);
        }
      }
      OwnBefore(table[..i], curve);
    }

    lemma NoneAbove(curve: Bytes, i: nat)
      requires Valid() && i < |table| && !Less(table[i].key, curve) && Split(table[i].key).0 != curve
      ensures Own(table, curve) == Own(table[..i], curve)
    {
      forall j | i < j < |table| ensures Split(table[j].key).0 != curve {
        if Split(table[j].key).0 == curve {
          NoGap(curve, table[i].key, table[j].key);
        }
      }
      OwnNone(table[..i], table[i..], curve);
      assert table[..i] + table[i..] == table;
    }
  }
}
