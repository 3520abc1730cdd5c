/** A sequence of distinct ids kept in a pair of tables: index to id and id to index, at consecutive
    indexes. The timeline keeps two such pairs per room. */
module PairedTables {
  import opened Sequences

  type Id = string

  /** The tables hold exactly these ids, at the indexes from base on. */
  ghost predicate SeqRep(to: map<nat, Id>, back: map<Id, nat>, base: nat, ids: seq<Id>) {
    && Distinct(ids)
    && (forall k :: k in to <==> base <= k < base + |ids|)
    && (forall k :: k in to ==> to[k] == ids[k - base])
    && (forall id :: id in back <==> id in ids)
    && (forall i :: 0 <= i < |ids| ==> ids[i] in back && back[ids[i]] == base + i)
  }

  ghost predicate Inverse(to: map<nat, Id>, back: map<Id, nat>) {
    && (forall k :: k in to ==> to[k] in back && back[to[k]] == k)
    && (forall id :: id in back ==> back[id] in to && to[back[id]] == id)
  }

  ghost predicate GapFree(keys: set<nat>) {
    forall a, b, k :: a in keys && b in keys && a <= k <= b ==> k in keys
  }

  lemma RepIsInverse(to: map<nat, Id>, back: map<Id, nat>, base: nat, ids: seq<Id>)
    requires SeqRep(to, back, base, ids)
    ensures Inverse(to, back) && GapFree(to.Keys)
  {
    forall id | id in back ensures back[id] in to && to[back[id]] == id {
      var i :| 0 <= i < |ids| && ids[i] == id;
    }
  }

  lemma AppendKeepsRep(to: map<nat, Id>, back: map<Id, nat>, base: nat, ids: seq<Id>, id: Id, key: nat)
    requires SeqRep(to, back, base, ids) && id !in ids && (ids != [] ==> key == base + |ids|)
    ensures SeqRep(to[key := id], back[id := key], if ids == [] then key else base, ids + [id])
  {
    assert (ids + [id])[|ids|] == id;
  }

  lemma PrependKeepsRep(to: map<nat, Id>, back: map<Id, nat>, base: nat, ids: seq<Id>, id: Id, key: nat)
    requires SeqRep(to, back, base, ids) && id !in ids && (ids != [] ==> key + 1 == base)
    ensures SeqRep(to[key := id], back[id := key], key, [id] + ids)
  {
    var ids' := [id] + ids;
    forall i, j | 0 <= i < j < |ids'| ensures ids'[i] != ids'[j] {
      assert ids'[j] == ids[j - 1];
      if i > 0 { assert ids'[i] == ids[i - 1]; }
    }
    forall i | 0 <= i < |ids'| ensures ids'[i] in back[id := key] && back[id := key][ids'[i]] == key + i {
      if i > 0 { assert ids'[i] == ids[i - 1]; }
    }
  }

  /** Another id takes the place of the one at position i. */
  lemma ReplaceKeepsRep(to: map<nat, Id>, back: map<Id, nat>, base: nat, ids: seq<Id>, i: nat, id: Id)
    requires SeqRep(to, back, base, ids) && i < |ids| && id !in ids
    ensures SeqRep(to[back[ids[i]] := id], back[id := back[ids[i]]] - {ids[i]}, base, ids[i := id])
  {
    var ids' := ids[i := id];
    assert ids'[i] == id;
    forall other | other in ids' ensures other == id || (other in ids && other != ids[i]) {
      var j :| 0 <= j < |ids'| && ids'[j] == other;
    }
    forall other | other in ids && other != ids[i] ensures other in ids' {
      var j :| 0 <= j < |ids| && ids[j] == other;
      assert ids'[j] == other;
    }
  }

  ghost predicate Between(from: nat, k: nat, until: nat) {
    from <= k < until
  }

  ghost function Range(from: nat, until: nat): set<nat> {
    set k | from <= k < until && Between(from, k, until)
  }

  ghost function IdSet(ids: seq<Id>): set<Id> {
    set id | id in ids
  }

  /** What is left when the ids at the positions from i up to j are deleted. */
  ghost predicate Removed(to: map<nat, Id>, back: map<Id, nat>, to': map<nat, Id>, back': map<Id, nat>,
                          base: nat, ids: seq<Id>, i: nat, j: nat)
  {
    && i <= j <= |ids|
    && to' == to - Range(base + i, base + j) && back' == back - IdSet(ids[i..j])
  }

  /** An id outside the deleted positions is still there. */
  lemma StillThere(to: map<nat, Id>, back: map<Id, nat>, to': map<nat, Id>, back': map<Id, nat>,
                   base: nat, ids: seq<Id>, i: nat, j: nat, n: nat)
    requires SeqRep(to, back, base, ids) && Removed(to, back, to', back', base, ids, i, j)
    requires n < |ids| && !(i <= n < j)
    ensures ids[n] in back' && back'[ids[n]] == base + n && base + n in to' && to'[base + n] == ids[n]
  {
    assert ids[n] !in ids[i..j];
    assert !Between(base + i, base + n, base + j);
    assert to[base + n] == ids[n];
  }

  /** Deleting the neighbour above or below widens the gap by one. */
  lemma RemoveAt(to: map<nat, Id>, back: map<Id, nat>, to': map<nat, Id>, back': map<Id, nat>,
                 base: nat, ids: seq<Id>, i: nat, j: nat, n: nat)
    requires Removed(to, back, to', back', base, ids, i, j)
    requires n < |ids| && (n == j || n + 1 == i)
    ensures Removed(to, back, to' - {base + n}, back' - {ids[n]}, base, ids,
                    if n == j then i else n, if n == j then j + 1 else j)
  {
    hide IdSet, Range;
    RangeGrows(base + i, base + j, base + n);
    if n == j {
      SliceGrows(ids, i, j + 1);
    } else {
      SliceGrows(ids, n, j);
    }
    IdSetOneMore(ids[i..j], ids[n]);
  }

  lemma IdSetOneMore(ids: seq<Id>, id: Id)
    ensures IdSet(ids + [id]) == IdSet(ids) + {id} && IdSet([id] + ids) == IdSet(ids) + {id}
  {
  }

  lemma RangeGrows(from: nat, until: nat, k: nat)
    requires from <= until && (k == until || k + 1 == from)
    ensures Range(if k == until then from else k, if k == until then until + 1 else until) == Range(from, until) + {k}
  {
  }

  lemma DropKeepsRep(to: map<nat, Id>, back: map<Id, nat>, to': map<nat, Id>, back': map<Id, nat>,
                     base: nat, ids: seq<Id>, j: nat)
    requires SeqRep(to, back, base, ids) && Removed(to, back, to', back', base, ids, 0, j)
    ensures SeqRep(to', back', base + j, ids[j..])
  {
    var left := ids[j..];
    DropKeepsKeys(to, back, to', back', base, ids, j);
    forall i | 0 <= i < |left| ensures left[i] in back' && back'[left[i]] == base + j + i {
      StillThere(to, back, to', back', base, ids, 0, j, j + i);
    }
  }

  lemma DropKeepsKeys(to: map<nat, Id>, back: map<Id, nat>, to': map<nat, Id>, back': map<Id, nat>,
                      base: nat, ids: seq<Id>, j: nat)
    requires SeqRep(to, back, base, ids) && Removed(to, back, to', back', base, ids, 0, j)
    ensures forall k :: k in to' <==> base + j <= k < base + |ids|
    ensures forall id :: id in back' <==> id in ids[j..]
  {
    forall k ensures k in to' <==> base + j <= k < base + |ids| {
      assert k in Range(base, base + j) <==> base <= k < base + j;
    }
    var left := ids[j..];
    assert ids == ids[0..j] + left;
    forall id ensures id in back' <==> id in left {
      assert id in ids <==> id in ids[0..j] || id in left;
    }
  }
}
