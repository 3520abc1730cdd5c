/** The emoji and sticker grid: packs laid out in rows, or search results grouped by pack. */
module GridModels {
  import opened EditDistance
  import opened FuzzyTrie
  import opened GridLayout
  import opened Options
  import opened SearchResults
  import opened Sequences
  import opened TrieModel

  /** A name as it is searched for: the whole of it and the words in it. */
  datatype Name = Name(whole: seq<Key>, words: seq<seq<Key>>)

  /** An emoji or image; its names are the shortcode and, for an emoji, its Unicode name or, for an
      image, its description. */
  datatype Entry = Entry(text: string, shortcode: Name, description: Name)

  /** A pack holds text emoji or images; which of the two it shows depends on the emoji list alone. */
  datatype Pack = Pack(emojis: seq<Entry>, images: seq<Entry>) {
    function Shown(): seq<Entry> {
      if emojis == [] then images else emojis
    }
  }

  datatype PackDesc = PackDesc(pack: Pack, firstRow: nat)

  // Rows of all packs

  ghost function RowsEnd(d: PackDesc, columns: nat): nat
    requires columns > 0
  {
    d.firstRow + RowCount(|d.pack.Shown()|, columns)
  }

  /** Every pack's rows follow those of the pack before it, each naming its pack. */
  ghost predicate Layout(packs: seq<PackDesc>, rowToPack: seq<nat>, columns: nat)
    requires columns > 0
  {
    && (forall p :: 0 <= p < |packs| ==> Follows(packs, columns, p))
    && |rowToPack| == (if packs == [] then 0 else RowsEnd(packs[|packs| - 1], columns))
    && (forall row :: 0 <= row < |rowToPack| ==> RowIn(packs, columns, rowToPack[row], row))
  }

  ghost predicate Follows(packs: seq<PackDesc>, columns: nat, p: nat)
    requires columns > 0 && p < |packs|
  {
    packs[p].firstRow == if p == 0 then 0 else RowsEnd(packs[p - 1], columns)
  }

  ghost predicate RowIn(packs: seq<PackDesc>, columns: nat, p: nat, row: nat)
    requires columns > 0
  {
    p < |packs| && packs[p].firstRow <= row < RowsEnd(packs[p], columns)
  }

  method LayOut(all: seq<Pack>, columns: nat) returns (packs: seq<PackDesc>, rowToPack: seq<nat>)
    requires columns > 0
    ensures Layout(packs, rowToPack, columns)
    ensures |packs| == |all| && forall p :: 0 <= p < |all| ==> packs[p].pack == all[p]
  {
    packs, rowToPack := [], [];
    for p := 0 to |all|
      invariant |packs| == p && forall q :: 0 <= q < p ==> packs[q].pack == all[q]
      invariant Layout(packs, rowToPack, columns)
    {
      var packRowCount := RowCount(|all[p].Shown()|, columns);
      var newPack := PackDesc(all[p], |rowToPack|);
      ghost var above := rowToPack;
      for i := 0 to packRowCount
        invariant |rowToPack| == |above| + i && rowToPack[..|above|] == above
        invariant forall row :: |above| <= row < |rowToPack| ==> rowToPack[row] == p
      {
        rowToPack := rowToPack + [|packs|];
      }
      LayoutGrows(packs, above, columns, newPack, rowToPack);
      packs := packs + [newPack];
    }
  }

  lemma LayoutGrows(packs: seq<PackDesc>, above: seq<nat>, columns: nat, d: PackDesc, rowToPack: seq<nat>)
    requires columns > 0 && Layout(packs, above, columns) && d.firstRow == |above|
    requires |rowToPack| == RowsEnd(d, columns) && rowToPack[..|above|] == above
    requires forall row :: |above| <= row < |rowToPack| ==> rowToPack[row] == |packs|
    ensures Layout(packs + [d], rowToPack, columns)
  {
    var more := packs + [d];
    assert more[|packs|] == d && forall q :: 0 <= q < |packs| ==> more[q] == packs[q];
    forall p | 0 <= p < |more| ensures Follows(more, columns, p) {
      assert p < |packs| ==> Follows(packs, columns, p);
    }
    forall row | 0 <= row < |rowToPack| ensures RowIn(more, columns, rowToPack[row], row) {
      if row < |above| {
        assert rowToPack[row] == above[row] && RowIn(packs, columns, above[row], row);
      }
    }
  }

  lemma {:induction false} PacksFollow(packs: seq<PackDesc>, rowToPack: seq<nat>, columns: nat, p: nat, q: nat)
    requires columns > 0 && Layout(packs, rowToPack, columns) && p < q <= |packs|
    ensures RowsEnd(packs[p], columns) <= if q < |packs| then packs[q].firstRow else |rowToPack|
    decreases q
  {
    assert q < |packs| ==> Follows(packs, columns, q);
    if p < q - 1 {
      PacksFollow(packs, rowToPack, columns, p, q - 1);
    }
  }

  /** The rows of each pack are consecutive, and put together they show each of its entries once. */
  lemma PackIsServed(packs: seq<PackDesc>, rowToPack: seq<nat>, columns: nat, p: nat)
    requires columns > 0 && Layout(packs, rowToPack, columns) && p < |packs|
    ensures RowsEnd(packs[p], columns) <= |rowToPack|
    ensures forall row :: 0 <= row < |rowToPack| ==> (rowToPack[row] == p <==> RowIn(packs, columns, p, row))
    ensures var entries := packs[p].pack.Shown();
            var count := RowCount(|entries|, columns);
            && Flatten(seq(count, i requires 0 <= i < count => PackRow(entries, columns, i))) == entries
            && forall i :: 0 <= i < count ==>
                 if i + 1 < count then |PackRow(entries, columns, i)| == columns
                 else 0 < |PackRow(entries, columns, i)| <= columns
  {
    PacksFollow(packs, rowToPack, columns, p, |packs|);
    forall row | 0 <= row < |rowToPack| && RowIn(packs, columns, p, row) ensures rowToPack[row] == p {
      RowIsOfOnePack(packs, rowToPack, columns, p, rowToPack[row], row);
    }
    var entries := packs[p].pack.Shown();
    forall i | 0 <= i < RowCount(|entries|, columns)
      ensures if i + 1 < RowCount(|entries|, columns) then |PackRow(entries, columns, i)| == columns
              else 0 < |PackRow(entries, columns, i)| <= columns
    {
      RowBounds(|entries|, columns, i);
    }
    PackRowsConcatenate(entries, columns, RowCount(|entries|, columns));
    assert entries[..|entries|] == entries;
  }

  lemma RowIsOfOnePack(packs: seq<PackDesc>, rowToPack: seq<nat>, columns: nat, p: nat, q: nat, row: nat)
    requires columns > 0 && Layout(packs, rowToPack, columns)
    requires RowIn(packs, columns, p, row) && RowIn(packs, columns, q, row)
    ensures p == q
  {
    if p < q {
      PacksFollow(packs, rowToPack, columns, p, q);
    } else if q < p {
      PacksFollow(packs, rowToPack, columns, q, p);
    }
  }

  lemma LayoutIsContiguous(packs: seq<PackDesc>, rowToPack: seq<nat>, columns: nat)
    requires columns > 0 && Layout(packs, rowToPack, columns)
    ensures Contiguous(rowToPack)
  {
    forall i, j, k | 0 <= i < j < k < |rowToPack| && rowToPack[i] == rowToPack[k]
      ensures rowToPack[j] == rowToPack[i]
    {
      assert RowIn(packs, columns, rowToPack[i], i) && RowIn(packs, columns, rowToPack[k], k);
      RowIsOfOnePack(packs, rowToPack, columns, rowToPack[i], rowToPack[j], j);
    }
  }

  // The search index

  type Insertion = (seq<Key>, ElementRank, Hit)

  /** Every hit names an entry that exists. */
  ghost predicate InRange(packs: seq<PackDesc>, hit: Hit) {
    hit.pack < |packs| && hit.index < |packs[hit.pack].pack.Shown()|
  }

  ghost function EntryOf(packs: seq<PackDesc>, hit: Hit): Entry
    requires InRange(packs, hit)
  {
    packs[hit.pack].pack.Shown()[hit.index]
  }

  /** The keys an entry can be found under. */
  ghost predicate Keyed(name: Name, rank: ElementRank, key: seq<Key>) {
    name.whole != [] && if rank == First then key == name.whole else key in name.words && key != []
  }

  ghost predicate NamedAs(entry: Entry, rank: ElementRank, key: seq<Key>) {
    Keyed(entry.shortcode, rank, key) || Keyed(entry.description, rank, key)
  }

  ghost predicate Named(entry: Entry, key: seq<Key>) {
    NamedAs(entry, First, key) || NamedAs(entry, Second, key)
  }

  /** The hit is an entry one of whose keys has a prefix within d edits of the query. */
  ghost predicate NamedWithin(packs: seq<PackDesc>, q: seq<Key>, d: nat, hit: Hit) {
    InRange(packs, hit) && exists key :: Named(EntryOf(packs, hit), key) && WithinEdits(q, key, d)
  }

  /** Every entry is inserted under its names, first rank, and their words, second rank, and under nothing
      else. */
  ghost predicate Indexed(packs: seq<PackDesc>, inserts: seq<Insertion>) {
    forall key, rank, hit :: (key, rank, hit) in inserts <==>
      InRange(packs, hit) && NamedAs(EntryOf(packs, hit), rank, key)
  }

  /** Searching the index is searching the names. */
  lemma IndexFindsNames(packs: seq<PackDesc>, inserts: seq<Insertion>, q: seq<Key>, d: nat, hit: Hit)
    requires Indexed(packs, inserts)
    ensures InsertedWithin(inserts, q, d, hit) <==> NamedWithin(packs, q, d, hit)
  {
    hide WithinEdits;
    if InsertedWithin(inserts, q, d, hit) {
      var i :| 0 <= i < |inserts| && inserts[i].2 == hit && WithinEdits(q, inserts[i].0, d);
      assert (inserts[i].0, inserts[i].1, hit) in inserts;
    }
    if NamedWithin(packs, q, d, hit) {
      var key :| Named(EntryOf(packs, hit), key) && WithinEdits(q, key, d);
      var rank := if NamedAs(EntryOf(packs, hit), First, key) then First else Second;
      assert (key, rank, hit) in inserts;
      var i :| 0 <= i < |inserts| && inserts[i] == (key, rank, hit);
      assert inserts[i].2 == hit && WithinEdits(q, inserts[i].0, d);
    }
  }

  ghost function WordInserts(words: seq<seq<Key>>, hit: Hit): seq<Insertion> {
    if words == [] then []
    else
      var last := words[|words| - 1];
      WordInserts(words[..|words| - 1], hit) + if last != [] then [(last, Second, hit)] else []
  }

  ghost function NameInserts(name: Name, hit: Hit): seq<Insertion> {
    if name.whole == [] then [] else [(name.whole, First, hit)] + WordInserts(name.words, hit)
  }

  /** The insertions for the first n entries of a pack, each name of each entry once. */
  ghost function EntryInserts(entries: seq<Entry>, p: nat, n: nat): seq<Insertion>
    requires n <= |entries|
  {
    if n == 0 then []
    else
      var e, hit := entries[n - 1], Hit(p, n - 1);
      EntryInserts(entries, p, n - 1) + NameInserts(e.shortcode, hit) + NameInserts(e.description, hit)
  }

  ghost function PackInserts(packs: seq<PackDesc>, p: nat): seq<Insertion>
    requires p <= |packs|
  {
    if p == 0 then []
    else
      var entries := packs[p - 1].pack.Shown();
      PackInserts(packs, p - 1) + EntryInserts(entries, p - 1, |entries|)
  }

  lemma {:induction false} WordInsertsIn(words: seq<seq<Key>>, hit: Hit, x: Insertion)
    ensures x in WordInserts(words, hit) <==> x.0 in words && x.0 != [] && x.1 == Second && x.2 == hit
  {
    if words != [] {
      WordInsertsIn(words[..|words| - 1], hit, x);
      assert words == words[..|words| - 1] + [words[|words| - 1]];
    }
  }

  lemma NameInsertsIn(name: Name, hit: Hit, x: Insertion)
    ensures x in NameInserts(name, hit) <==> x.2 == hit && Keyed(name, x.1, x.0)
  {
    WordInsertsIn(name.words, hit, x);
  }

  lemma {:induction false} EntryInsertsIn(entries: seq<Entry>, p: nat, n: nat, x: Insertion)
    requires n <= |entries|
    ensures x in EntryInserts(entries, p, n) <==>
              x.2.pack == p && x.2.index < n && NamedAs(entries[x.2.index], x.1, x.0)
  {
    hide NameInserts, Keyed;
    if n > 0 {
      EntryInsertsIn(entries, p, n - 1, x);
      NameInsertsIn(entries[n - 1].shortcode, Hit(p, n - 1), x);
      NameInsertsIn(entries[n - 1].description, Hit(p, n - 1), x);
    }
  }

  lemma {:induction false} PackInsertsIn(packs: seq<PackDesc>, p: nat, x: Insertion)
    requires p <= |packs|
    ensures x in PackInserts(packs, p) <==>
              x.2.pack < p && InRange(packs, x.2) && NamedAs(EntryOf(packs, x.2), x.1, x.0)
  {
    hide EntryInserts, NamedAs;
    if p > 0 {
      PackInsertsIn(packs, p - 1, x);
      var entries := packs[p - 1].pack.Shown();
      EntryInsertsIn(entries, p - 1, |entries|, x);
    }
  }

  /** Indexes one name of an entry: the whole under the first rank, its words under the second. */
  method InsertName(index: FuzzyIndex<Hit>, name: Name, hit: Hit)
    requires index.Valid()
    modifies index
    ensures index.Valid() && index.inserts == old(index.inserts) + NameInserts(name, hit)
  {
    hide WordInserts;
    NoWords(hit);
    if name.whole != [] {
      ghost var before := old(index.inserts) + [(name.whole, First, hit)];
      index.Insert(First, name.whole, hit);
      for n := 0 to |name.words|
        invariant index.Valid()
        invariant index.inserts == before + WordInserts(name.words[..n], hit)
      {
        WordInsertsStep(name.words, n, hit);
        Associative(before, WordInserts(name.words[..n], hit), [(name.words[n], Second, hit)]);
        if name.words[n] != [] {
          index.Insert(Second, name.words[n], hit);
        }
      }
      assert name.words[..|name.words|] == name.words;
      Associative(old(index.inserts), [(name.whole, First, hit)], WordInserts(name.words, hit));
    }
  }

  lemma NoWords(hit: Hit)
    ensures WordInserts([], hit) == []
  {
  }

  lemma WordInsertsStep(words: seq<seq<Key>>, n: nat, hit: Hit)
    requires n < |words|
    ensures WordInserts(words[..n + 1], hit) ==
              if words[n] != [] then WordInserts(words[..n], hit) + [(words[n], Second, hit)]
              else WordInserts(words[..n], hit)
  {
    assert words[..n + 1][..n] == words[..n];
  }

  method BuildIndex(packs: seq<PackDesc>) returns (index: FuzzyIndex<Hit>)
    ensures fresh(index) && index.Valid() && Indexed(packs, index.inserts)
    ensures index.inserts == PackInserts(packs, |packs|)
  {
    hide NameInserts, Indexed;
    index := new FuzzyIndex();
    for p := 0 to |packs|
      invariant fresh(index) && index.Valid() && index.inserts == PackInserts(packs, p)
    {
      var entries := packs[p].pack.Shown();
      for n := 0 to |entries|
        invariant fresh(index) && index.Valid()
        invariant index.inserts == PackInserts(packs, p) + EntryInserts(entries, p, n)
      {
        ghost var before, done := PackInserts(packs, p), EntryInserts(entries, p, n);
        ghost var a, b := NameInserts(entries[n].shortcode, Hit(p, n)), NameInserts(entries[n].description, Hit(p, n));
        Associative(before, done, a);
        Associative(before, done + a, b);
        InsertName(index, entries[n].shortcode, Hit(p, n));
        InsertName(index, entries[n].description, Hit(p, n));
      }
    }
    AllIndexed(packs);
  }

  lemma AllIndexed(packs: seq<PackDesc>)
    ensures Indexed(packs, PackInserts(packs, |packs|))
  {
    hide PackInserts, NamedAs;
    var inserts := PackInserts(packs, |packs|);
    forall key, rank, hit ensures (key, rank, hit) in inserts <==>
      InRange(packs, hit) && NamedAs(EntryOf(packs, hit), rank, key)
    {
      PackInsertsIn(packs, |packs|, (key, rank, hit));
    }
  }

  // Search results

  /** The packs in the order in which the results first name them. */
  method FirstPositions(hits: seq<Hit>) returns (packs: seq<nat>)
    ensures packs == FirstPacks(hits)
  {
    packs := [];
    for n := 0 to |hits|
      invariant packs == FirstPacks(hits[..n])
    {
      assert hits[..n + 1][..n] == hits[..n];
      if hits[n].pack !in packs {
        packs := packs + [hits[n].pack];
      }
    }
    assert hits[..|hits|] == hits;
  }

  /** A stable sort by the order in which the packs first occur: each result goes behind those of packs
      that came up no later. */
  method GroupByPack(hits: seq<Hit>) returns (grouped: seq<Hit>)
    ensures grouped == Grouped(hits)
  {
    hide FirstPacks, ByPack;
    var packs := FirstPositions(hits);
    FirstPacksAreDistinct(hits);
    grouped := [];
    NothingGrouped(packs);
    for n := 0 to |hits|
      invariant grouped == ByPack(hits[..n], packs)
    {
      InsertGroups(hits[..n], packs, hits[n]);
      assert hits[..n + 1] == hits[..n] + [hits[n]];
      var i := Behind(grouped, packs, Rank(packs, hits[n].pack));
      grouped := grouped[..i] + [hits[n]] + grouped[i..];
    }
    assert hits[..|hits|] == hits;
  }

  lemma {:induction false} NothingGrouped(packs: seq<nat>)
    ensures ByPack([], packs) == []
    decreases |packs|
  {
    if packs != [] {
      NothingGrouped(packs[1..]);
    }
  }

  /** The row starts of grouped results. */
  method CutIntoRows(hits: seq<Hit>, columns: nat) returns (rows: seq<nat>)
    requires columns > 0
    ensures LaidOut(hits, columns, rows)
  {
    rows := [];
    var lastPack: int := -1;
    var columnIndex := 0;
    for i := 0 to |hits|
      invariant rows == [] <==> i == 0
      invariant rows == [] ==> lastPack == -1
      invariant rows != [] ==> rows[0] == 0 && OpenRow(hits, columns, rows[|rows| - 1], i)
      invariant rows != [] ==> columnIndex == i - rows[|rows| - 1] && lastPack == hits[rows[|rows| - 1]].pack
      invariant forall r :: 0 <= r < |rows| - 1 ==> IsRow(hits, columns, rows[r], rows[r + 1])
    {
      if hits[i].pack != lastPack || columnIndex == columns {
        columnIndex := 0;
        lastPack := hits[i].pack;
        rows := rows + [i];
      }
      columnIndex := columnIndex + 1;
    }
    forall r | 0 <= r < |rows| ensures IsRow(hits, columns, rows[r], RowEnd(hits, rows, r)) {
    }
  }

  /** A row that has come as far as b and may still grow. */
  ghost predicate OpenRow(hits: seq<Hit>, columns: nat, a: nat, b: nat) {
    a < b <= |hits| && b - a <= columns && forall i :: a <= i < b ==> hits[i].pack == hits[a].pack
  }

  /** One section per change of pack from row to row. */
  method SectionsOf(rowPacks: seq<nat>) returns (sections: seq<Section>)
    requires Contiguous(rowPacks)
    ensures AreSections(rowPacks, sections)
  {
    sections := [];
    var packIdx: int := -1;
    for row := 0 to |rowPacks|
      invariant packIdx == if row == 0 then -1 else rowPacks[row - 1]
      invariant AreSections(rowPacks[..row], sections)
    {
      var more := sections;
      if rowPacks[row] != packIdx {
        packIdx := rowPacks[row];
        more := more + [Section(rowPacks[row], row)];
      }
      SectionsGrow(rowPacks, row, sections, more);
      sections := more;
    }
    assert rowPacks[..|rowPacks|] == rowPacks;
  }

  lemma SectionsGrow(rowPacks: seq<nat>, row: nat, sections: seq<Section>, more: seq<Section>)
    requires Contiguous(rowPacks) && row < |rowPacks| && AreSections(rowPacks[..row], sections)
    requires more == if row == 0 || rowPacks[row] != rowPacks[row - 1]
              then sections + [Section(rowPacks[row], row)] else sections
    ensures AreSections(rowPacks[..row + 1], more)
  {
    hide AreSections;
    var before, after := rowPacks[..row], rowPacks[..row + 1];
    if row == 0 || rowPacks[row] != rowPacks[row - 1] {
      assert forall r :: 0 <= r < row ==> rowPacks[r] != rowPacks[row];
      SectionAdded(before, sections, rowPacks[row]);
      assert after == before + [rowPacks[row]];
    } else {
      SectionContinued(before, sections);
      assert after == before + [before[row - 1]];
    }
  }

  lemma SectionAdded(before: seq<nat>, sections: seq<Section>, pack: nat)
    requires AreSections(before, sections) && pack !in before
    ensures AreSections(before + [pack], sections + [Section(pack, |before|)])
  {
    var after, more := before + [pack], sections + [Section(pack, |before|)];
    forall r | 0 <= r < |after| ensures Listed(more, after[r]) {
      if r < |before| {
        assert Listed(sections, before[r]);
        var k :| 0 <= k < |sections| && sections[k].pack == before[r];
        assert more[k] == sections[k];
      } else {
        assert more[|sections|].pack == pack;
      }
    }
  }

  lemma SectionContinued(before: seq<nat>, sections: seq<Section>)
    requires before != [] && AreSections(before, sections)
    ensures AreSections(before + [before[|before| - 1]], sections)
  {
    var after := before + [before[|before| - 1]];
    assert forall r :: 0 <= r < |before| ==> after[r] == before[r];
    assert after[|before|] == before[|before| - 1];
  }

  /** What the search hits show. */
  ghost function EntriesOf(packs: seq<PackDesc>, hits: seq<Hit>): (r: seq<Entry>)
    requires forall h :: h in hits ==> InRange(packs, h)
    ensures |r| == |hits|
  {
    seq(|hits|, i requires 0 <= i < |hits| => EntryOf(packs, hits[i]))
  }

  /** The entries of a row of a pack. */
  method PackRowAt(packs: seq<PackDesc>, rowToPack: seq<nat>, columns: nat, row: nat) returns (r: seq<Entry>)
    requires columns > 0 && row < |rowToPack| && RowIn(packs, columns, rowToPack[row], row)
    ensures ShowsPackRow(packs, rowToPack, columns, row, (rowToPack[row], r))
  {
    var d := packs[rowToPack[row]];
    var entries := d.pack.Shown();
    var offset := row - d.firstRow;
    RowBounds(|entries|, columns, offset);
    r := entries[offset * columns..RowBound(|entries|, columns, offset + 1)];
  }

  /** The entries of the row that starts at the given hit. */
  method CollectRow(packs: seq<PackDesc>, hits: seq<Hit>, columns: nat, firstIndex: nat, ghost next: nat)
    returns (entries: seq<Entry>)
    requires (forall h :: h in hits ==> InRange(packs, h)) && IsRow(hits, columns, firstIndex, next)
    ensures entries == EntriesOf(packs, hits[firstIndex..next])
  {
    var firstEntry := hits[firstIndex];
    assert InRange(packs, firstEntry);
    var shown := packs[firstEntry.pack].pack.Shown();
    entries := [];
    var img := firstIndex;
    while |entries| < columns && img < |hits| && hits[img].pack == firstEntry.pack
      invariant firstIndex <= img <= |hits| && |entries| == img - firstIndex <= columns
      invariant forall i :: firstIndex <= i < img ==> hits[i].pack == firstEntry.pack
      invariant entries == EntriesOf(packs, hits[firstIndex..img])
    {
      assert InRange(packs, hits[img]);
      assert hits[firstIndex..img + 1] == hits[firstIndex..img] + [hits[img]];
      entries := entries + [shown[hits[img].index]];
      img := img + 1;
    }
    assert hits[firstIndex] == firstEntry;
    assert IsRow(hits, columns, firstIndex, img);
    RowIsUnique(hits, columns, firstIndex, next, img);
  }

  /** How many results a search asks for. */
  function ResultLimit(columns: nat): nat {
    columns * columns * 4
  }

  lemma LimitIs(columns: nat)
    requires columns == 3 || columns == 7
    ensures ResultLimit(columns) == if columns == 3 then 36 else 196
  {
  }

  class GridImagePackModel {
    const columns: nat
    const packs: seq<PackDesc>
    const rowToPack: seq<nat>
    const index: FuzzyIndex<Hit>
    var searchString: seq<Key>
    var currentSearchResult: seq<Hit>
    var rowToFirstRowEntryFromSearch: seq<nat>

    ghost predicate Valid()
      reads this, index
    {
      && (columns == 3 || columns == 7)
      && Layout(packs, rowToPack, columns)
      && index.Valid() && Indexed(packs, index.inserts)
      && (forall h :: h in currentSearchResult ==> InRange(packs, h))
      && Contiguous(PacksOf(currentSearchResult))
      && LaidOut(currentSearchResult, columns, rowToFirstRowEntryFromSearch)
    }

    /** Emoji come in categories, images in packs; stickers have three columns and no emoji. */
    constructor (stickers: bool, categories: seq<seq<Entry>>, imagePacks: seq<seq<Entry>>)
      ensures Valid() && fresh(index) && searchString == [] && columns == if stickers then 3 else 7
      ensures var all := AllPacks(stickers, categories, imagePacks);
              |packs| == |all| && forall p :: 0 <= p < |all| ==> packs[p].pack == all[p]
      ensures index.inserts == PackInserts(packs, |packs|)
      ensures var n := if stickers then 0 else |categories|;
              && |packs| == n + |imagePacks|
              && (forall p :: 0 <= p < n ==> packs[p].pack.emojis == categories[p] && packs[p].pack.images == [])
              && (forall p :: 0 <= p < |imagePacks| ==>
                    packs[n + p].pack.images == imagePacks[p] && packs[n + p].pack.emojis == [])
    {
      hide Layout, Indexed, PackInserts, RowsEnd;
      var cols := if stickers then 3 else 7;
      var descs, rows := LayOut(AllPacks(stickers, categories, imagePacks), cols);
      var trie := BuildIndex(descs);
      columns, packs, rowToPack, index := cols, descs, rows, trie;
      searchString, currentSearchResult, rowToFirstRowEntryFromSearch := [], [], [];
    }

    /** Searches for the key. The ghost result is what the index found, best matches first. */
    method SetSearchString(key: seq<Key>) returns (ghost found: seq<Hit>)
      requires Valid()
      modifies this
      ensures Valid() && searchString == key
      ensures key == [] ==> found == [] && currentSearchResult == []
      ensures currentSearchResult == Grouped(found)
      ensures key != [] ==> found == Result(InsertAll(index.inserts), key, if columns == 3 then 36 else 196, 2)
      ensures key != [] ==> SearchResult(packs, key, ResultLimit(columns), found)
      ensures key != [] && 2 * |index.inserts| <= ResultLimit(columns) ==> FullSearchResult(packs, key, found)
    {
      hide Result, InsertAll, Indexed, Layout, ResultLimit;
      currentSearchResult, rowToFirstRowEntryFromSearch, searchString := [], [], key;
      found := [];
      if key != [] {
        LimitIs(columns);
        var tempResults := index.Search(key, ResultLimit(columns), 2);
        FoundByName(packs, index.inserts, key, ResultLimit(columns), tempResults);
        found := tempResults;
        var results := GroupByPack(tempResults);
        GroupedIsContiguous(tempResults);
        GroupedHits(tempResults);
        currentSearchResult := results;
        rowToFirstRowEntryFromSearch := CutIntoRows(results, columns);
      }
    }

    /** Without a search the rows run to the end of the last pack, with one to the last result. */
    method RowCount() returns (n: nat)
      requires Valid()
      ensures searchString == [] ==> n == if packs == [] then 0 else RowsEnd(packs[|packs| - 1], columns)
      ensures searchString != [] ==> n == |rowToFirstRowEntryFromSearch|
      ensures searchString != [] ==>
                Flatten(Served(currentSearchResult, columns, rowToFirstRowEntryFromSearch,
                               |rowToFirstRowEntryFromSearch|)) ==
                currentSearchResult
    {
      n := if searchString == [] then |rowToPack| else |rowToFirstRowEntryFromSearch|;
      if searchString != [] {
        RowsConcatenate(currentSearchResult, columns, rowToFirstRowEntryFromSearch, n);
        assert currentSearchResult[..|currentSearchResult|] == currentSearchResult;
      }
    }

    /** The pack and the entries of a row. */
    method Data(row: int) returns (r: Option<(nat, seq<Entry>)>)
      requires Valid()
      ensures r.None? <==> !(0 <= row < if searchString == [] then |rowToPack| else |rowToFirstRowEntryFromSearch|)
      ensures r.Some? && searchString == [] ==> ShowsPackRow(packs, rowToPack, columns, row, r.value)
      ensures r.Some? && searchString != [] ==>
                ShowsHits(packs, RowHits(currentSearchResult, columns, rowToFirstRowEntryFromSearch, row), r.value)
    {
      var count := RowCount();
      if row >= count || row < 0 {
        return None;
      }
      if searchString == [] {
        var entries := PackRowAt(packs, rowToPack, columns, row);
        return Some((rowToPack[row], entries));
      }
      var firstIndex := rowToFirstRowEntryFromSearch[row];
      ghost var next := RowEnd(currentSearchResult, rowToFirstRowEntryFromSearch, row);
      assert IsRow(currentSearchResult, columns, firstIndex, next);
      var firstEntry := currentSearchResult[firstIndex];
      var entries := CollectRow(packs, currentSearchResult, columns, firstIndex, next);
      r := Some((firstEntry.pack, entries));
    }

    /** The packs that have rows, each with its first one. */
    method Sections() returns (sections: seq<Section>)
      requires Valid()
      ensures AreSections(if searchString == [] then rowToPack
                          else RowPacks(currentSearchResult, columns, rowToFirstRowEntryFromSearch), sections)
    {
      if searchString == [] {
        LayoutIsContiguous(packs, rowToPack, columns);
        sections := SectionsOf(rowToPack);
      } else {
        RowPacksAreContiguous(currentSearchResult, columns, rowToFirstRowEntryFromSearch);
        sections := SectionsOf(RowPacks(currentSearchResult, columns, rowToFirstRowEntryFromSearch));
      }
    }
  }

  function AllPacks(stickers: bool, categories: seq<seq<Entry>>, imagePacks: seq<seq<Entry>>): seq<Pack> {
    (if stickers then [] else seq(|categories|, i requires 0 <= i < |categories| => Pack(categories[i], []))) +
    seq(|imagePacks|, i requires 0 <= i < |imagePacks| => Pack([], imagePacks[i]))
  }

  ghost predicate ShowsPackRow(packs: seq<PackDesc>, rowToPack: seq<nat>, columns: nat, row: nat,
                               shown: (nat, seq<Entry>))
    requires columns > 0 && row < |rowToPack| && RowIn(packs, columns, rowToPack[row], row)
  {
    var d := packs[rowToPack[row]];
    shown == (rowToPack[row], PackRow(d.pack.Shown(), columns, row - d.firstRow))
  }

  ghost predicate ShowsHits(packs: seq<PackDesc>, hits: seq<Hit>, shown: (nat, seq<Entry>))
    requires forall h :: h in hits ==> InRange(packs, h)
  {
    (forall h :: h in hits ==> h.pack == shown.0) && shown.1 == EntriesOf(packs, hits)
  }

  /** No more than the limit, no entry twice, and only entries named like the query. */
  ghost predicate SearchResult(packs: seq<PackDesc>, q: seq<Key>, limit: nat, found: seq<Hit>) {
    |found| <= limit && Distinct(found) && forall h :: h in found ==> NamedWithin(packs, q, 2, h)
  }

  /** All entries named like the query, and none before one that takes fewer edits. */
  ghost predicate FullSearchResult(packs: seq<PackDesc>, q: seq<Key>, found: seq<Hit>) {
    && (forall h :: NamedWithin(packs, q, 2, h) ==> h in found)
    && (forall i, j, e: nat :: 0 <= i < j < |found| && NamedWithin(packs, q, e, found[j]) ==>
          NamedWithin(packs, q, e, found[i]))
  }

  lemma FoundByName(packs: seq<PackDesc>, inserts: seq<Insertion>, q: seq<Key>, limit: nat, found: seq<Hit>)
    requires Indexed(packs, inserts) && |found| <= limit && Distinct(found)
    requires forall v :: v in found ==> InsertedWithin(inserts, q, 2, v)
    requires 2 * |inserts| <= limit ==> forall v :: InsertedWithin(inserts, q, 2, v) ==> v in found
    requires 2 * |inserts| <= limit ==>
               forall i, j, e: nat :: 0 <= i < j < |found| && InsertedWithin(inserts, q, e, found[j]) ==>
                 InsertedWithin(inserts, q, e, found[i])
    ensures SearchResult(packs, q, limit, found)
    ensures 2 * |inserts| <= limit ==> FullSearchResult(packs, q, found)
  {
    hide NamedWithin, InsertedWithin, Indexed;
    forall d: nat, v ensures InsertedWithin(inserts, q, d, v) <==> NamedWithin(packs, q, d, v) {
      IndexFindsNames(packs, inserts, q, d, v);
    }
  }

  lemma GroupedHits(hits: seq<Hit>)
    ensures forall h :: h in Grouped(hits) <==> h in hits
  {
    GroupedIsPermutation(hits);
    forall h ensures h in Grouped(hits) <==> h in hits {
      assert h in multiset(Grouped(hits)) <==> h in multiset(hits);
    }
  }
}
