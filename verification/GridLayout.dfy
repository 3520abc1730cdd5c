/** How search results are grouped by pack and cut into rows. */
module GridLayout {
  import opened Sequences

  /** A search result: an entry of a pack. */
  datatype Hit = Hit(pack: nat, index: nat)

  // Grouping

  /** The hits of one pack, in order. */
  ghost function OfPack(hits: seq<Hit>, pack: nat): seq<Hit> {
    if hits == [] then []
    else OfPack(hits[..|hits| - 1], pack) + if hits[|hits| - 1].pack == pack then [hits[|hits| - 1]] else []
  }

  /** The packs that occur, in the order of their first hit. */
  function FirstPacks(hits: seq<Hit>): seq<nat> {
    if hits == [] then []
    else
      var packs, last := FirstPacks(hits[..|hits| - 1]), hits[|hits| - 1].pack;
      if last in packs then packs else packs + [last]
  }

  /** The hits of the first pack, then those of the second, and so on. */
  ghost function ByPack(hits: seq<Hit>, packs: seq<nat>): seq<Hit> {
    if packs == [] then [] else OfPack(hits, packs[0]) + ByPack(hits, packs[1..])
  }

  /** Results with the hits of each pack together, packs in the order of their first hit and hits of a
      pack in their old order. */
  ghost function Grouped(hits: seq<Hit>): seq<Hit> {
    ByPack(hits, FirstPacks(hits))
  }

  lemma {:induction false} FirstPacksAreDistinct(hits: seq<Hit>)
    ensures Distinct(FirstPacks(hits))
    ensures forall h :: h in hits ==> h.pack in FirstPacks(hits)
    ensures forall p :: p in FirstPacks(hits) ==> exists i :: 0 <= i < |hits| && hits[i].pack == p
  {
    if hits != [] {
      var front := hits[..|hits| - 1];
      FirstPacksAreDistinct(front);
      forall p | p in FirstPacks(hits) ensures exists i :: 0 <= i < |hits| && hits[i].pack == p {
        if p in FirstPacks(front) {
          var i :| 0 <= i < |front| && front[i].pack == p;
          assert hits[i].pack == p;
        } else {
          assert hits[|hits| - 1].pack == p;
        }
      }
    }
  }

  lemma {:induction false} OfPackIsOf(hits: seq<Hit>, pack: nat)
    ensures forall h :: h in OfPack(hits, pack) <==> h in hits && h.pack == pack
  {
    if hits != [] {
      OfPackIsOf(hits[..|hits| - 1], pack);
    }
  }

  /** Grouping loses and invents nothing. */
  lemma {:induction false} ByPackHolds(hits: seq<Hit>, packs: seq<nat>, x: Hit)
    requires Distinct(packs)
    ensures multiset(ByPack(hits, packs))[x] == if x.pack in packs then multiset(hits)[x] else 0
  {
    if packs != [] {
      ByPackHolds(hits, packs[1..], x);
      OfPackCount(hits, packs[0], x);
      assert x.pack in packs <==> x.pack == packs[0] || x.pack in packs[1..];
      assert x.pack == packs[0] ==> x.pack !in packs[1..];
    }
  }

  lemma {:induction false} OfPackCount(hits: seq<Hit>, pack: nat, x: Hit)
    ensures multiset(OfPack(hits, pack))[x] == if x.pack == pack then multiset(hits)[x] else 0
  {
    if hits != [] {
      OfPackCount(hits[..|hits| - 1], pack, x);
      assert hits == hits[..|hits| - 1] + [hits[|hits| - 1]];
    }
  }

  lemma GroupedIsPermutation(hits: seq<Hit>)
    ensures multiset(Grouped(hits)) == multiset(hits)
  {
    FirstPacksAreDistinct(hits);
    forall x ensures multiset(Grouped(hits))[x] == multiset(hits)[x] {
      ByPackHolds(hits, FirstPacks(hits), x);
    }
  }

  function Rank(packs: seq<nat>, pack: nat): (r: nat)
    ensures r <= |packs| && (r < |packs| ==> packs[r] == pack) && pack !in packs[..r]
  {
    if packs == [] || packs[0] == pack then 0
    else
      var r := Rank(packs[1..], pack);
      assert packs[..r + 1] == [packs[0]] + packs[1..][..r];
      r + 1
  }

  /** The ranks never go down along a grouped list, so equal packs stand together. */
  lemma {:induction false} ByPackIsSorted(hits: seq<Hit>, packs: seq<nat>, i: nat, j: nat)
    requires Distinct(packs) && i < j < |ByPack(hits, packs)|
    ensures ByPack(hits, packs)[i].pack in packs
    ensures Rank(packs, ByPack(hits, packs)[i].pack) <= Rank(packs, ByPack(hits, packs)[j].pack)
    decreases |packs|
  {
    hide OfPack;
    var head, tail := OfPack(hits, packs[0]), ByPack(hits, packs[1..]);
    OfPackIsOf(hits, packs[0]);
    if i < |head| {
      assert ByPack(hits, packs)[i] in head;
    } else {
      ByPackIsSorted(hits, packs[1..], i - |head|, j - |head|);
      var a, b := tail[i - |head|].pack, tail[j - |head|].pack;
      ByPackIn(hits, packs[1..], j - |head|);
      assert a in packs[1..] && b in packs[1..];
      assert a != packs[0] && b != packs[0];
    }
  }

  lemma {:induction false} ByPackIn(hits: seq<Hit>, packs: seq<nat>, i: nat)
    requires i < |ByPack(hits, packs)|
    ensures ByPack(hits, packs)[i].pack in packs && ByPack(hits, packs)[i] in hits
    decreases |packs|
  {
    var head := OfPack(hits, packs[0]);
    OfPackIsOf(hits, packs[0]);
    if i < |head| {
      assert ByPack(hits, packs)[i] in head;
    } else {
      ByPackIn(hits, packs[1..], i - |head|);
    }
  }

  /** The hits of a pack keep their order. */
  lemma {:induction false} ByPackKeepsOrder(hits: seq<Hit>, packs: seq<nat>, pack: nat)
    requires Distinct(packs)
    ensures OfPack(ByPack(hits, packs), pack) == if pack in packs then OfPack(hits, pack) else []
    decreases |packs|
  {
    if packs != [] {
      ByPackKeepsOrder(hits, packs[1..], pack);
      OfPackConcat(OfPack(hits, packs[0]), ByPack(hits, packs[1..]), pack);
      OfPackTwice(hits, packs[0], pack);
      assert pack in packs <==> pack == packs[0] || pack in packs[1..];
      assert pack == packs[0] ==> pack !in packs[1..];
    }
  }

  lemma {:induction false} OfPackConcat(a: seq<Hit>, b: seq<Hit>, pack: nat)
    ensures OfPack(a + b, pack) == OfPack(a, pack) + OfPack(b, pack)
  {
    if b == [] {
      assert a + b == a;
    } else {
      OfPackConcat(a, b[..|b| - 1], pack);
      assert (a + b)[..|a + b| - 1] == a + b[..|b| - 1];
    }
  }

  lemma {:induction false} OfPackTwice(hits: seq<Hit>, p: nat, q: nat)
    ensures OfPack(OfPack(hits, p), q) == if p == q then OfPack(hits, p) else []
  {
    if hits != [] {
      OfPackTwice(hits[..|hits| - 1], p, q);
      var last := hits[|hits| - 1];
      OfPackConcat(OfPack(hits[..|hits| - 1], p), if last.pack == p then [last] else [], q);
      assert [last][..0] == [];
    }
  }

  lemma GroupedKeepsOrder(hits: seq<Hit>, pack: nat)
    ensures OfPack(Grouped(hits), pack) == OfPack(hits, pack)
  {
    FirstPacksAreDistinct(hits);
    ByPackKeepsOrder(hits, FirstPacks(hits), pack);
    OfPackIsOf(hits, pack);
    if pack !in FirstPacks(hits) && OfPack(hits, pack) != [] {
      assert OfPack(hits, pack)[0] in OfPack(hits, pack);
    }
  }

  lemma {:induction false} RankAppend(packs: seq<nat>, last: nat, pack: nat)
    ensures Rank(packs + [last], pack) ==
              if pack in packs then Rank(packs, pack) else if pack == last then |packs| else |packs| + 1
    decreases |packs|
  {
    if packs != [] && packs[0] != pack {
      RankAppend(packs[1..], last, pack);
      assert (packs + [last])[1..] == packs[1..] + [last];
    }
  }

  /** A pack ranks before another exactly if its first hit comes before the first of the other. */
  lemma {:induction false} RanksFollowFirstHits(hits: seq<Hit>, p: nat, q: nat)
    requires p in FirstPacks(hits) && q in FirstPacks(hits)
    ensures Rank(FirstPacks(hits), p) < Rank(FirstPacks(hits), q) <==> Rank(PacksOf(hits), p) < Rank(PacksOf(hits), q)
  {
    var front, last := hits[..|hits| - 1], hits[|hits| - 1].pack;
    var packs, of := FirstPacks(front), PacksOf(front);
    FirstPacksAreDistinct(front);
    assert PacksOf(hits) == of + [last];
    assert forall x :: x in of <==> x in packs;
    RankAppend(of, last, p);
    RankAppend(of, last, q);
    RankAppend(packs, last, p);
    RankAppend(packs, last, q);
    if p in packs && q in packs {
      RanksFollowFirstHits(front, p, q);
    }
  }

  /** In grouped results, what stands later belongs to a pack whose first hit was no earlier. */
  lemma GroupedFollowsFirstHits(hits: seq<Hit>, i: nat, j: nat)
    requires i < j < |Grouped(hits)|
    ensures Rank(PacksOf(hits), Grouped(hits)[i].pack) <= Rank(PacksOf(hits), Grouped(hits)[j].pack)
  {
    FirstPacksAreDistinct(hits);
    ByPackIsSorted(hits, FirstPacks(hits), i, j);
    ByPackIn(hits, FirstPacks(hits), j);
    RanksFollowFirstHits(hits, Grouped(hits)[j].pack, Grouped(hits)[i].pack);
  }

  // A stable sort by rank

  /** The position behind everything of at most the given rank, in a list sorted by rank. */
  function Behind(sorted: seq<Hit>, packs: seq<nat>, rank: nat): (n: nat)
    ensures n <= |sorted|
    ensures forall i :: 0 <= i < n ==> Rank(packs, sorted[i].pack) <= rank
    ensures n < |sorted| ==> Rank(packs, sorted[n].pack) > rank
  {
    if sorted == [] || Rank(packs, sorted[0].pack) > rank then 0
    else
      var n := Behind(sorted[1..], packs, rank);
      assert forall i :: 0 < i < |sorted| ==> sorted[i] == sorted[1..][i - 1];
      n + 1
  }

  /** Inserting the next hit behind its equals is what grouping one more hit means. */
  lemma {:induction false} InsertGroups(hits: seq<Hit>, packs: seq<nat>, x: Hit)
    requires Distinct(packs) && x.pack in packs
    ensures var s := ByPack(hits, packs); var n := Behind(s, packs, Rank(packs, x.pack));
            ByPack(hits + [x], packs) == s[..n] + [x] + s[n..]
    decreases |packs|
  {
    BlockEndIsBehind(hits, packs, x.pack);
    InsertAtBlockEnd(hits, packs, x);
  }

  /** Where the block of a pack ends. */
  ghost function BlockEnd(hits: seq<Hit>, packs: seq<nat>, pack: nat): (n: nat)
    requires pack in packs
    ensures n <= |ByPack(hits, packs)|
  {
    |OfPack(hits, packs[0])| + if packs[0] == pack then 0 else BlockEnd(hits, packs[1..], pack)
  }

  lemma {:induction false} InsertAtBlockEnd(hits: seq<Hit>, packs: seq<nat>, x: Hit)
    requires Distinct(packs) && x.pack in packs
    ensures var s, n := ByPack(hits, packs), BlockEnd(hits, packs, x.pack);
            ByPack(hits + [x], packs) == s[..n] + [x] + s[n..]
    decreases |packs|
  {
    hide OfPack;
    var block, rest := OfPack(hits, packs[0]), ByPack(hits, packs[1..]);
    OfPackAppend(hits, x, packs[0]);
    if packs[0] == x.pack {
      NotInBlocks(hits, packs[1..], x);
      ConcatParts(block, rest);
    } else {
      InsertAtBlockEnd(hits, packs[1..], x);
      InsertBehind(block, rest, BlockEnd(hits, packs[1..], x.pack), x);
    }
  }

  lemma InsertBehind(block: seq<Hit>, rest: seq<Hit>, m: nat, x: Hit)
    requires m <= |rest|
    ensures (block + rest)[..|block| + m] + [x] + (block + rest)[|block| + m..] == block + (rest[..m] + [x] + rest[m..])
  {
  }

  lemma OfPackAppend(hits: seq<Hit>, x: Hit, pack: nat)
    ensures OfPack(hits + [x], pack) == if x.pack == pack then OfPack(hits, pack) + [x] else OfPack(hits, pack)
  {
    assert (hits + [x])[..|hits|] == hits;
  }

  lemma {:induction false} NotInBlocks(hits: seq<Hit>, packs: seq<nat>, x: Hit)
    requires x.pack !in packs
    ensures ByPack(hits + [x], packs) == ByPack(hits, packs)
    decreases |packs|
  {
    if packs != [] {
      OfPackAppend(hits, x, packs[0]);
      NotInBlocks(hits, packs[1..], x);
    }
  }

  lemma BlockEndIsBehind(hits: seq<Hit>, packs: seq<nat>, pack: nat)
    requires Distinct(packs) && pack in packs
    ensures Behind(ByPack(hits, packs), packs, Rank(packs, pack)) == BlockEnd(hits, packs, pack)
  {
    BlockRanks(hits, packs, pack);
    BehindIsUnique(ByPack(hits, packs), packs, Rank(packs, pack), BlockEnd(hits, packs, pack));
  }

  /** Everything before position m has at most the given rank, everything from there on a higher one. */
  ghost predicate SplitByRank(s: seq<Hit>, packs: seq<nat>, rank: nat, m: nat) {
    && m <= |s|
    && (forall i :: 0 <= i < m ==> Rank(packs, s[i].pack) <= rank)
    && (forall i :: m <= i < |s| ==> Rank(packs, s[i].pack) > rank)
  }

  lemma BehindIsUnique(s: seq<Hit>, packs: seq<nat>, rank: nat, m: nat)
    requires SplitByRank(s, packs, rank, m)
    ensures Behind(s, packs, rank) == m
  {
    if m < |s| { assert Rank(packs, s[m].pack) > rank; }
  }

  lemma {:induction false} BlockRanks(hits: seq<Hit>, packs: seq<nat>, pack: nat)
    requires Distinct(packs) && pack in packs
    ensures SplitByRank(ByPack(hits, packs), packs, Rank(packs, pack), BlockEnd(hits, packs, pack))
    decreases |packs|
  {
    hide OfPack;
    var s, m, head := ByPack(hits, packs), BlockEnd(hits, packs, pack), OfPack(hits, packs[0]);
    OfPackIsOf(hits, packs[0]);
    forall i | 0 <= i < |head| ensures Rank(packs, s[i].pack) == 0 { assert s[i] in head; }
    if packs[0] == pack {
      forall i | m <= i < |s| ensures Rank(packs, s[i].pack) > 0 {
        ByPackIn(hits, packs[1..], i - |head|);
      }
    } else {
      BlockRanks(hits, packs[1..], pack);
      forall i | |head| <= i < |s|
        ensures Rank(packs, s[i].pack) == 1 + Rank(packs[1..], ByPack(hits, packs[1..])[i - |head|].pack)
      {
        ByPackIn(hits, packs[1..], i - |head|);
      }
    }
  }

  // Rows of search results

  /** The hits from a up to b make one row: one pack, at most `columns` of them, and as many as fit. */
  ghost predicate IsRow(hits: seq<Hit>, columns: nat, a: nat, b: nat) {
    && a < b <= |hits| && b - a <= columns
    && (forall i :: a <= i < b ==> hits[i].pack == hits[a].pack)
    && (b == |hits| || b - a == columns || hits[b].pack != hits[a].pack)
  }

  lemma RowIsUnique(hits: seq<Hit>, columns: nat, a: nat, b: nat, c: nat)
    requires IsRow(hits, columns, a, b) && IsRow(hits, columns, a, c)
    ensures b == c
  {
  }

  ghost function RowEnd(hits: seq<Hit>, rows: seq<nat>, i: nat): nat
    requires i < |rows|
  {
    if i + 1 < |rows| then rows[i + 1] else |hits|
  }

  /** The row starts cut all hits into rows, one after the other. */
  ghost predicate LaidOut(hits: seq<Hit>, columns: nat, rows: seq<nat>) {
    && (rows == [] <==> hits == [])
    && (rows != [] ==> rows[0] == 0)
    && (forall i {:trigger RowEnd(hits, rows, i)} :: 0 <= i < |rows| ==>
          IsRow(hits, columns, rows[i], RowEnd(hits, rows, i)))
  }

  /** Where row n starts; the row behind the last one starts at the end. */
  ghost function RowStart(hits: seq<Hit>, columns: nat, rows: seq<nat>, n: nat): (a: nat)
    requires LaidOut(hits, columns, rows) && n <= |rows|
    ensures a <= |hits| && (n == |rows| ==> a == |hits|)
  {
    if n == |rows| then |hits|
    else
      assert IsRow(hits, columns, rows[n], RowEnd(hits, rows, n));
      rows[n]
  }

  ghost function Flatten<T>(rows: seq<seq<T>>): seq<T> {
    if rows == [] then [] else Flatten(rows[..|rows| - 1]) + rows[|rows| - 1]
  }

  ghost function Served(hits: seq<Hit>, columns: nat, rows: seq<nat>, n: nat): (r: seq<seq<Hit>>)
    requires LaidOut(hits, columns, rows) && n <= |rows|
    ensures |r| == n
  {
    seq(n, i requires 0 <= i < n => RowHits(hits, columns, rows, i))
  }

  ghost function RowHits(hits: seq<Hit>, columns: nat, rows: seq<nat>, i: nat): seq<Hit>
    requires LaidOut(hits, columns, rows) && i < |rows|
  {
    assert IsRow(hits, columns, rows[i], RowEnd(hits, rows, i));
    hits[rows[i]..RowEnd(hits, rows, i)]
  }

  /** Put together, the rows are all hits, none twice. */
  lemma {:induction false} RowsConcatenate(hits: seq<Hit>, columns: nat, rows: seq<nat>, n: nat)
    requires LaidOut(hits, columns, rows) && n <= |rows|
    ensures Flatten(Served(hits, columns, rows, n)) == hits[..RowStart(hits, columns, rows, n)]
  {
    if n > 0 {
      RowsConcatenate(hits, columns, rows, n - 1);
      var all := Served(hits, columns, rows, n);
      assert all[..n - 1] == Served(hits, columns, rows, n - 1);
      assert IsRow(hits, columns, rows[n - 1], RowEnd(hits, rows, n - 1));
    }
  }

  // Sections

  /** Equal packs stand together. */
  ghost predicate Contiguous(packs: seq<nat>) {
    forall i, j, k :: 0 <= i < j < k < |packs| && packs[i] == packs[k] ==> packs[j] == packs[i]
  }

  datatype Section = Section(pack: nat, firstRow: nat)

  /** Each pack that occurs has exactly one section, at its first row, in the order of the rows. */
  ghost predicate AreSections(rowPacks: seq<nat>, sections: seq<Section>) {
    && (forall k :: 0 <= k < |sections| ==>
          sections[k].firstRow < |rowPacks| && rowPacks[sections[k].firstRow] == sections[k].pack)
    && (forall k, row :: 0 <= k < |sections| && 0 <= row < sections[k].firstRow ==> rowPacks[row] != sections[k].pack)
    && (forall j, k :: 0 <= j < k < |sections| ==>
          sections[j].pack != sections[k].pack && sections[j].firstRow < sections[k].firstRow)
    && (forall row :: 0 <= row < |rowPacks| ==> Listed(sections, rowPacks[row]))
  }

  ghost predicate Listed(sections: seq<Section>, pack: nat) {
    exists k :: 0 <= k < |sections| && sections[k].pack == pack
  }

  ghost function PacksOf(hits: seq<Hit>): (r: seq<nat>)
    ensures |r| == |hits| && forall i :: 0 <= i < |hits| ==> r[i] == hits[i].pack
  {
    seq(|hits|, i requires 0 <= i < |hits| => hits[i].pack)
  }

  lemma GroupedIsContiguous(hits: seq<Hit>)
    ensures Contiguous(PacksOf(Grouped(hits)))
  {
    var packs, s := FirstPacks(hits), Grouped(hits);
    FirstPacksAreDistinct(hits);
    forall i, j, k | 0 <= i < j < k < |s| && s[i].pack == s[k].pack ensures s[j].pack == s[i].pack {
      ByPackIsSorted(hits, packs, i, j);
      ByPackIsSorted(hits, packs, j, k);
    }
  }

  function RowPacks(hits: seq<Hit>, columns: nat, rows: seq<nat>): (r: seq<nat>)
    requires LaidOut(hits, columns, rows)
    ensures |r| == |rows|
  {
    seq(|rows|, i requires 0 <= i < |rows| => FirstPackOf(hits, columns, rows, i))
  }

  function FirstPackOf(hits: seq<Hit>, columns: nat, rows: seq<nat>, i: nat): nat
    requires LaidOut(hits, columns, rows) && i < |rows|
  {
    assert IsRow(hits, columns, rows[i], RowEnd(hits, rows, i));
    hits[rows[i]].pack
  }

  lemma {:induction false} RowsAscend(hits: seq<Hit>, columns: nat, rows: seq<nat>, i: nat, j: nat)
    requires LaidOut(hits, columns, rows) && i < j < |rows|
    ensures rows[i] < rows[j] < |hits|
    decreases j
  {
    assert IsRow(hits, columns, rows[j - 1], RowEnd(hits, rows, j - 1));
    assert IsRow(hits, columns, rows[j], RowEnd(hits, rows, j));
    if i < j - 1 {
      RowsAscend(hits, columns, rows, i, j - 1);
    }
  }

  lemma RowPacksAreContiguous(hits: seq<Hit>, columns: nat, rows: seq<nat>)
    requires LaidOut(hits, columns, rows) && Contiguous(PacksOf(hits))
    ensures Contiguous(RowPacks(hits, columns, rows))
  {
    var rp := RowPacks(hits, columns, rows);
    forall i, j, k | 0 <= i < j < k < |rp| && rp[i] == rp[k] ensures rp[j] == rp[i] {
      RowsAscend(hits, columns, rows, i, j);
      RowsAscend(hits, columns, rows, j, k);
      assert PacksOf(hits)[rows[i]] == PacksOf(hits)[rows[k]];
    }
  }

  // Rows of a whole pack

  function RowCount(size: nat, columns: nat): nat
    requires columns > 0
  {
    size / columns + if size % columns != 0 then 1 else 0
  }

  /** Where the given row of a pack ends. */
  function RowBound(size: nat, columns: nat, row: nat): (end: nat)
    ensures end <= size
  {
    if row * columns < size then row * columns else size
  }

  /** Every row of a pack has an entry and the last one reaches the end. */
  lemma RowBounds(size: nat, columns: nat, row: nat)
    requires columns > 0 && row < RowCount(size, columns)
    ensures row * columns < size && RowBound(size, columns, row + 1) - row * columns <= columns
    ensures RowBound(size, columns, row + 1) > row * columns
    ensures row + 1 == RowCount(size, columns) ==> RowBound(size, columns, row + 1) == size
    ensures row + 1 < RowCount(size, columns) ==> RowBound(size, columns, row + 1) == row * columns + columns
  {
    var q, r := size / columns, size % columns;
    assert size == q * columns + r;
    assert (row + 1) * columns == row * columns + columns;
    if row < q {
      assert (row + 1) * columns <= q * columns by { Multiples(row + 1, q, columns); }
    }
  }

  lemma Multiples(a: nat, b: nat, c: nat)
    requires a <= b
    ensures a * c <= b * c
  {
  }

  ghost function PackRow<T>(entries: seq<T>, columns: nat, row: nat): seq<T>
    requires columns > 0 && row < RowCount(|entries|, columns)
  {
    RowBounds(|entries|, columns, row);
    entries[row * columns..RowBound(|entries|, columns, row + 1)]
  }

  /** Put together, the rows of a pack are its entries. */
  lemma {:induction false} PackRowsConcatenate<T>(entries: seq<T>, columns: nat, n: nat)
    requires columns > 0 && n <= RowCount(|entries|, columns)
    ensures Flatten(seq(n, i requires 0 <= i < n => PackRow(entries, columns, i))) ==
              entries[..RowBound(|entries|, columns, n)]
    ensures n == RowCount(|entries|, columns) ==> RowBound(|entries|, columns, n) == |entries|
  {
    var all := seq(n, i requires 0 <= i < n => PackRow(entries, columns, i));
    if n > 0 {
      PackRowsConcatenate(entries, columns, n - 1);
      RowBounds(|entries|, columns, n - 1);
      assert all[..n - 1] == seq(n - 1, i requires 0 <= i < n - 1 => PackRow(entries, columns, i));
      assert all[n - 1] == PackRow(entries, columns, n - 1);
      SliceEnds(entries, RowBound(|entries|, columns, n - 1), RowBound(|entries|, columns, n));
    }
  }

  lemma SliceEnds<T>(s: seq<T>, a: nat, b: nat)
    requires a <= b <= |s|
    ensures s[..a] + s[a..b] == s[..b]
  {
  }
}
