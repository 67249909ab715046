/** The index reader undoes the index writer. */
module IndexRoundTrip {
  import opened ByteStrings
  import opened Readers
  import opened Sequences
  import opened UpkiIndex
  import opened Wrappers
  import opened IndexSections
  import opened IndexFormat
  import opened FilterWriter
  import opened IndexWriter

  // ----- What a lookup should return -----

  /** `name`, once for every coverage entry that claims the log at the instant. */
  function NamesOfFilter(name: Bytes, coverage: seq<Coverage>, log: Bytes32, timestamp: nat): seq<Bytes> {
    if coverage == [] then [] else
      var c := coverage[|coverage| - 1];
      NamesOfFilter(name, coverage[..|coverage| - 1], log, timestamp)
      + if c.logId == log && c.minTimestamp <= timestamp <= c.maxTimestamp then [name] else []
  }

  /** The filenames of the coverage entries claiming the log at the instant, in
      filter-list order and with multiplicity. */
  function CoveringNames(filters: IndexSpec, log: Bytes32, timestamp: nat): seq<Bytes> {
    if filters == [] then [] else
      var f := filters[|filters| - 1];
      CoveringNames(filters[..|filters| - 1], log, timestamp) + NamesOfFilter(f.filename, f.coverage, log, timestamp)
  }

  predicate Writable(filters: IndexSpec) {
    && |filters| <= 65535
    && forall i | 0 <= i < |filters| :: LegalName(filters[i].filename)
  }

  /** What the count fields of the index can hold. */
  predicate FitsIndex(filters: IndexSpec, ids: seq<Bytes32>) {
    |ids| < 0x1_0000_0000 && forall i | 0 <= i < |ids| :: |EntriesFor(filters, ids[i])| <= 65535
  }

  function Names(filters: IndexSpec): (names: seq<Bytes>)
    ensures |names| == |filters|
  {
    seq(|filters|, i requires 0 <= i < |filters| => filters[i].filename)
  }

  // ----- Slicing concatenations -----

  lemma {:induction false} SliceAfter(front: Bytes, back: Bytes, at: nat, length: nat)
    requires at + length <= |back|
    ensures (front + back)[|front| + at..|front| + at + length] == back[at..at + length]
  {}

  lemma {:induction false} ConcatSplit(parts: seq<Bytes>, i: nat)
    requires i < |parts|
    ensures |Concat(parts[..i])| + |parts[i]| <= |Concat(parts)|
    ensures Concat(parts)[|Concat(parts[..i])|..|Concat(parts[..i])| + |parts[i]|] == parts[i]
  {
    if i > 0 {
      ConcatSplit(parts[1..], i - 1);
      assert parts[..i][1..] == parts[1..][..i - 1];
      SliceAfter(parts[0], Concat(parts[1..]), |Concat(parts[1..][..i - 1])|, |parts[i]|);
    }
  }

  lemma {:induction false} ConcatUniform(parts: seq<Bytes>, size: nat)
    requires forall i | 0 <= i < |parts| :: |parts[i]| == size
    ensures |Concat(parts)| == |parts| * size
  {
    if parts != [] {
      ConcatUniform(parts[1..], size);
    }
  }

  lemma {:induction false} UniformPart(parts: seq<Bytes>, size: nat, i: nat)
    requires i < |parts| && forall k | 0 <= k < |parts| :: |parts[k]| == size
    ensures i * size + size <= |Concat(parts)|
    ensures Concat(parts)[i * size..i * size + size] == parts[i]
  {
    ConcatUniform(parts[..i], size);
    ConcatSplit(parts, i);
  }

  /** The three fields of a fixed-width record inside a packed table. */
  lemma {:induction false} Fields(whole: Bytes, at: nat, a: Bytes, b: Bytes, c: Bytes)
    requires at + |a| + |b| + |c| <= |whole| && whole[at..at + (|a| + |b| + |c|)] == a + b + c
    ensures whole[at..at + |a|] == a
    ensures whole[at + |a|..at + (|a| + |b|)] == b
    ensures whole[at + (|a| + |b|)..at + (|a| + |b| + |c|)] == c
  {
    var part := a + b + c;
    SubSlice(whole, at, part, 0, |a|);
    SubSlice(whole, at, part, |a|, |a| + |b|);
    SubSlice(whole, at, part, |a| + |b|, |a| + |b| + |c|);
    assert part[0..|a|] == a && part[|a|..|a| + |b|] == b && part[|a| + |b|..|a| + |b| + |c|] == c;
  }

  // ----- The filename table -----

  lemma {:induction false} SlotNameOfSlot(name: Bytes, padding: nat)
    requires forall i | 0 <= i < |name| :: name[i] != 0
    ensures SlotName(name + seq(padding, _ => 0)) == name
  {
    var slot := name + seq(padding, _ => 0);
    if name != [] {
      assert slot[1..] == name[1..] + seq(padding, _ => 0);
      SlotNameOfSlot(name[1..], padding);
      assert name == [name[0]] + name[1..];
    } else {
      assert slot == seq(padding, _ => 0);
    }
  }

  lemma {:induction false} NamesRead(filters: IndexSpec)
    requires Writable(filters)
    ensures |Concat(Slots(filters))| == |filters| * FILENAME_SIZE
    ensures NamesOf(Concat(Slots(filters)), |filters|) == Names(filters)
  {
    var parts := Slots(filters);
    ConcatUniform(parts, FILENAME_SIZE);
    forall i | 0 <= i < |filters| ensures NamesOf(Concat(parts), |filters|)[i] == filters[i].filename {
      UniformPart(parts, FILENAME_SIZE, i);
      assert SlotAt(Concat(parts), |filters|, i) == parts[i];
      var name := filters[i].filename;
      LegalNamesStay(name);
      SlotNameOfSlot(name, FILENAME_SIZE - |name|);
    }
  }

  // ----- The directory -----

  lemma {:induction false} SectionsLengthBound(filters: IndexSpec, ids: seq<Bytes32>)
    requires forall i | 0 <= i < |ids| :: |EntriesFor(filters, ids[i])| <= 65535
    ensures SectionsLength(filters, ids) <= 18 * 65535 * |ids|
  {
    if ids != [] {
      SectionsLengthBound(filters, ids[..|ids| - 1]);
    }
  }

  lemma {:induction false} OffsetBound(filters: IndexSpec, ids: seq<Bytes32>, i: nat)
    requires Writable(filters) && FitsIndex(filters, ids) && i <= |ids|
    ensures TablesEnd(filters, ids) <= SectionOffset(filters, ids, i) < TWO63
  {
    SectionsLengthBound(filters, ids[..i]);
  }

  ghost predicate DirReads(filters: IndexSpec, ids: seq<Bytes32>, dir: Bytes, i: nat)
    requires DirShape(dir, |ids|) && i < |ids|
  {
    && LogIdAt(dir, |ids|, i) == ids[i]
    && OffsetAt(dir, |ids|, i) == SectionOffset(filters, ids, i)
    && CountAt(dir, |ids|, i) == |EntriesFor(filters, ids[i])|
  }

  lemma {:induction false} DirFieldsRead(dir: Bytes, n: nat, i: nat, id: Bytes32, offset: nat, count: nat)
    requires DirShape(dir, n) && i < n && offset < TWO63 && count <= 65535
    requires i * LOG_DIR_ENTRY_SIZE + LOG_DIR_ENTRY_SIZE <= |dir|
    requires dir[i * LOG_DIR_ENTRY_SIZE..i * LOG_DIR_ENTRY_SIZE + LOG_DIR_ENTRY_SIZE] == EncodeDirEntry(id, offset, count)
    ensures LogIdAt(dir, n, i) == id && OffsetAt(dir, n, i) == offset && CountAt(dir, n, i) == count
  {
    var at := i * LOG_DIR_ENTRY_SIZE;
    Fields(dir, at, id, PutUint(offset, 8), PutUint(count, 2));
    Pow256Values();
    GetPutSmall(offset, 8);
    GetPutSmall(count, 2);
  }

  lemma {:induction false} DirectoryReads(filters: IndexSpec, ids: seq<Bytes32>, i: nat)
    requires Writable(filters) && FitsIndex(filters, ids) && i < |ids|
    ensures DirShape(Concat(DirEntries(filters, ids)), |ids|)
    ensures DirReads(filters, ids, Concat(DirEntries(filters, ids)), i)
  {
    var parts := DirEntries(filters, ids);
    ConcatUniform(parts, LOG_DIR_ENTRY_SIZE);
    UniformPart(parts, LOG_DIR_ENTRY_SIZE, i);
    OffsetBound(filters, ids, i);
    DirFieldsRead(Concat(parts), |ids|, i, ids[i], SectionOffset(filters, ids, i), |EntriesFor(filters, ids[i])|);
  }

  lemma {:induction false} DirectoryOrdered(filters: IndexSpec, ids: seq<Bytes32>)
    requires Writable(filters) && FitsIndex(filters, ids) && StrictlyAscending(ids)
    ensures DirShape(Concat(DirEntries(filters, ids)), |ids|)
    ensures AdjacentOrdered(Concat(DirEntries(filters, ids)), |ids|)
  {
    var dir := Concat(DirEntries(filters, ids));
    ConcatUniform(DirEntries(filters, ids), LOG_DIR_ENTRY_SIZE);
    forall i | 1 <= i < |ids| ensures Compare(LogIdAt(dir, |ids|, i - 1), LogIdAt(dir, |ids|, i)) < 0 {
      DirectoryReads(filters, ids, i - 1);
      DirectoryReads(filters, ids, i);
    }
  }

  // ----- The sections -----

  lemma {:induction false} SectionSize(entries: seq<Entry>)
    ensures |Section(entries)| == ENTRY_SIZE * |entries|
  {
    ConcatUniform(Mapped(EncodeEntry, entries), ENTRY_SIZE);
  }

  lemma {:induction false} SectionsSize(filters: IndexSpec, ids: seq<Bytes32>, i: nat)
    requires i <= |ids|
    ensures |Concat(Sections(filters, ids)[..i])| == SectionsLength(filters, ids[..i])
  {
    var parts := Sections(filters, ids);
    if i > 0 {
      SectionsSize(filters, ids, i - 1);
      assert parts[..i] == parts[..i - 1] + [parts[i - 1]];
      ConcatSnoc(parts[..i - 1], parts[i - 1]);
      SectionSize(EntriesFor(filters, ids[i - 1]));
      assert ids[..i][..i - 1] == ids[..i - 1];
    }
  }

  lemma {:induction false} OffsetsGrow(filters: IndexSpec, ids: seq<Bytes32>, i: nat, j: nat)
    requires i <= j <= |ids|
    ensures SectionOffset(filters, ids, i) <= SectionOffset(filters, ids, j)
  {
    if i < j {
      OffsetsGrow(filters, ids, i, j - 1);
      assert ids[..j][..j - 1] == ids[..j - 1];
    }
  }

  lemma {:induction false} SpanOf(dir: Bytes, n: nat, i: nat, start: nat, end: nat)
    requires DirShape(dir, n) && i < n
    requires OffsetAt(dir, n, i) == start < TWO63 && start + SectionLength(dir, n, i) == end < TWO63
    ensures SpanAt(dir, n, i) == Span(start, end)
  {
    Int64Small(start);
    Int64Small(end);
  }

  lemma {:induction false} OffsetNext(filters: IndexSpec, ids: seq<Bytes32>, i: nat)
    requires i < |ids|
    ensures SectionOffset(filters, ids, i + 1) == SectionOffset(filters, ids, i) + ENTRY_SIZE * |EntriesFor(filters, ids[i])|
  {
    assert ids[..i + 1][..i] == ids[..i];
  }

  lemma {:induction false} SpanReads(filters: IndexSpec, ids: seq<Bytes32>, i: nat)
    requires Writable(filters) && FitsIndex(filters, ids) && i < |ids|
    ensures DirShape(Concat(DirEntries(filters, ids)), |ids|)
    ensures SpanAt(Concat(DirEntries(filters, ids)), |ids|, i)
         == Span(SectionOffset(filters, ids, i), SectionOffset(filters, ids, i + 1))
  {
    DirectoryReads(filters, ids, i);
    OffsetBound(filters, ids, i);
    OffsetBound(filters, ids, i + 1);
    OffsetNext(filters, ids, i);
    SpanOf(Concat(DirEntries(filters, ids)), |ids|, i, SectionOffset(filters, ids, i), SectionOffset(filters, ids, i + 1));
  }

  lemma {:induction false} SpansAll(dir: Bytes, n: nat, i: nat)
    requires DirShape(dir, n) && i <= n && forall k | 0 <= k < n :: SectionLength(dir, n, k) > 0
    ensures |SpansFrom(dir, n, i)| == n - i
    ensures forall k | 0 <= k < n - i :: SpansFrom(dir, n, i)[k] == SpanAt(dir, n, i + k)
    decreases n - i
  {
    if i < n {
      SpansAll(dir, n, i + 1);
    }
  }

  /** The extent of section `k`. */
  function Extent(filters: IndexSpec, ids: seq<Bytes32>, k: nat): Span
    requires k < |ids|
  {
    Span(SectionOffset(filters, ids, k), SectionOffset(filters, ids, k + 1))
  }

  ghost predicate Consecutive(filters: IndexSpec, ids: seq<Bytes32>, spans: seq<Span>) {
    |spans| == |ids| && forall k | 0 <= k < |ids| :: spans[k] == Extent(filters, ids, k)
  }

  /** The spans of a written directory are its consecutive section extents. */
  lemma {:induction false} WrittenSpans(filters: IndexSpec, ids: seq<Bytes32>)
    requires Writable(filters) && FitsIndex(filters, ids) && LogsOf(ids, filters)
    ensures DirShape(Concat(DirEntries(filters, ids)), |ids|)
    ensures Consecutive(filters, ids, SpansFrom(Concat(DirEntries(filters, ids)), |ids|, 0))
  {
    var dir, n := Concat(DirEntries(filters, ids)), |ids|;
    DirectoryOrdered(filters, ids);
    forall i | 0 <= i < n ensures SectionLength(dir, n, i) > 0 {
      DirectoryReads(filters, ids, i);
      assert ids[i] in ids;
    }
    SpansAll(dir, n, 0);
    forall i | 0 <= i < n
      ensures SpansFrom(dir, n, 0)[i] == Extent(filters, ids, i)
    {
      SpanReads(filters, ids, i);
      assert SpansFrom(dir, n, 0)[i] == SpanAt(dir, n, 0 + i);
    }
  }

  /** Consecutive extents, none of them empty, are sorted without repeats, and any
      sort leaves no neighbours overlapping. */
  lemma {:induction false} ConsecutiveSpans(filters: IndexSpec, ids: seq<Bytes32>, spans: seq<Span>, sort: Sort)
    requires Consecutive(filters, ids, spans) && IsSort(sort)
    requires forall k | 0 <= k < |ids| :: SectionOffset(filters, ids, k) < SectionOffset(filters, ids, k + 1)
    ensures NeighboursApart(sort(spans))
  {
    forall i, j | 0 <= i < j < |spans| ensures spans[i].end <= spans[j].start {
      OffsetsGrow(filters, ids, i + 1, j);
      assert spans[i] == Extent(filters, ids, i) && spans[j] == Extent(filters, ids, j);
    }
    forall i | 0 <= i < |spans| ensures spans[i].start < spans[i].end {
      assert spans[i] == Extent(filters, ids, i);
    }
    ApartInAnyOrder(spans, sort(spans));
  }

  lemma {:induction false} WrittenSectionsValid(filters: IndexSpec, ids: seq<Bytes32>, f: File, sort: Sort)
    requires IsSort(sort)
    requires Writable(filters) && FitsIndex(filters, ids) && LogsOf(ids, filters)
    requires f.data == EncodeIndex(filters, ids)
    ensures DirShape(Concat(DirEntries(filters, ids)), |ids|)
    ensures SectionsValid(Concat(DirEntries(filters, ids)), |ids|, TablesEnd(filters, ids), f, sort)
  {
    var dir, n := Concat(DirEntries(filters, ids)), |ids|;
    WrittenSpans(filters, ids);
    forall k | 0 <= k < n ensures SectionOffset(filters, ids, k) < SectionOffset(filters, ids, k + 1) {
      assert ids[k] in ids && ids[..k + 1][..k] == ids[..k];
    }
    ConsecutiveSpans(filters, ids, SpansFrom(dir, n, 0), sort);
    FileSize(filters, ids);
    forall i | 0 <= i < n ensures SpanInBounds(dir, n, i, TablesEnd(filters, ids), f) {
      SpanReads(filters, ids, i);
      OffsetBound(filters, ids, i);
      OffsetsGrow(filters, ids, i + 1, n);
    }
  }

  lemma {:induction false} FileSize(filters: IndexSpec, ids: seq<Bytes32>)
    requires Writable(filters) && FitsIndex(filters, ids)
    ensures |Header(filters, ids)| == HEADER_SIZE
    ensures |Concat(Slots(filters))| == FILENAME_SIZE * |filters|
    ensures |Concat(DirEntries(filters, ids))| == LOG_DIR_ENTRY_SIZE * |ids|
    ensures |Concat(Sections(filters, ids))| == SectionsLength(filters, ids)
    ensures |EncodeIndex(filters, ids)| == SectionOffset(filters, ids, |ids|)
  {
    ConcatUniform(Slots(filters), FILENAME_SIZE);
    ConcatUniform(DirEntries(filters, ids), LOG_DIR_ENTRY_SIZE);
    SectionsSize(filters, ids, |ids|);
    assert Sections(filters, ids)[..|ids|] == Sections(filters, ids) && ids[..|ids|] == ids;
  }

  // ----- Opening a written index -----

  function WrittenView(filters: IndexSpec, ids: seq<Bytes32>, f: File): View {
    View(Names(filters), Concat(DirEntries(filters, ids)), |ids|, f)
  }

  lemma {:induction false} HeaderReads(filters: IndexSpec, ids: seq<Bytes32>)
    requires Writable(filters) && FitsIndex(filters, ids)
    ensures var h := Header(filters, ids);
            |h| == HEADER_SIZE && h[..8] == MAGIC && NumFilenames(h) == |filters| && NumLogs(h) == |ids|
  {
    var h := Header(filters, ids);
    assert h[8..10] == PutUint(|filters|, 2) && h[10..14] == PutUint(|ids|, 4);
    Pow256Values();
    GetPutSmall(|filters|, 2);
    GetPutSmall(|ids|, 4);
  }

  lemma {:induction false} NamesValid(filters: IndexSpec)
    requires Writable(filters)
    ensures forall i | 0 <= i < |filters| :: ValidFilename(Names(filters)[i])
  {
    forall i | 0 <= i < |filters| ensures ValidFilename(Names(filters)[i]) {
      assert Names(filters)[i] == filters[i].filename;
      LegalIffValid(filters[i].filename);
    }
  }

  lemma {:induction false} TablesOpen(filters: IndexSpec, ids: seq<Bytes32>, f: File, sort: Sort)
    requires IsSort(sort)
    requires Writable(filters) && FitsIndex(filters, ids) && LogsOf(ids, filters)
    requires f.data == EncodeIndex(filters, ids)
    ensures var s, d := Concat(Slots(filters)), Concat(DirEntries(filters, ids));
            && |s| == |filters| * FILENAME_SIZE && DirShape(d, |ids|)
            && OpenTables(f, |filters|, |ids|, s + d, sort) == Good(View(Names(filters), d, |ids|, f))
  {
    var s, d := Concat(Slots(filters)), Concat(DirEntries(filters, ids));
    NamesRead(filters);
    NamesValid(filters);
    DirectoryOrdered(filters, ids);
    WrittenSectionsValid(filters, ids, f, sort);
    OpensTo(f, |filters|, |ids|, s, d, Names(filters), TablesEnd(filters, ids), sort);
  }

  lemma {:induction false} OpensTo(f: File, k: nat, n: nat, s: Bytes, d: Bytes, names: seq<Bytes>, end: nat, sort: Sort)
    requires |s| == k * FILENAME_SIZE && DirShape(d, n) && NamesOf(s, k) == names
    requires forall i | 0 <= i < k :: ValidFilename(names[i])
    requires end == HEADER_SIZE + |s| + |d| && AdjacentOrdered(d, n) && SectionsValid(d, n, end, f, sort)
    ensures OpenTables(f, k, n, s + d, sort) == Good(View(names, d, n, f))
  {
    assert (s + d)[..k * FILENAME_SIZE] == s && (s + d)[k * FILENAME_SIZE..] == d;
  }

  /** The reader accepts what the writer wrote. */
  lemma {:induction false} WrittenOpens(filters: IndexSpec, ids: seq<Bytes32>, f: File, sort: Sort)
    requires IsSort(sort)
    requires Writable(filters) && FitsIndex(filters, ids) && LogsOf(ids, filters)
    requires f.data == EncodeIndex(filters, ids)
    ensures Open(f, sort) == Good(WrittenView(filters, ids, f))
  {
    var h, tables := Header(filters, ids), Concat(Slots(filters)) + Concat(DirEntries(filters, ids));
    FileSize(filters, ids);
    HeaderReads(filters, ids);
    TablesOpen(filters, ids, f, sort);
    FileParts(filters, ids, f, tables);
    OpenReads(f, |filters|, |ids|, h, tables, Concat(Sections(filters, ids)), sort);
  }

  lemma {:induction false} FileParts(filters: IndexSpec, ids: seq<Bytes32>, f: File, tables: Bytes)
    requires f.data == EncodeIndex(filters, ids)
    requires tables == Concat(Slots(filters)) + Concat(DirEntries(filters, ids))
    ensures f.data == Header(filters, ids) + tables + Concat(Sections(filters, ids))
  {}

  lemma {:induction false} OpenReads(f: File, k: nat, n: nat, h: Bytes, tables: Bytes, rest: Bytes, sort: Sort)
    requires |h| == HEADER_SIZE && f.data == h + tables + rest
    requires h[..8] == MAGIC && NumFilenames(h) == k && NumLogs(h) == n
    requires |tables| == k * FILENAME_SIZE + n * LOG_DIR_ENTRY_SIZE
    ensures Open(f, sort) == OpenTables(f, k, n, tables, sort)
  {
    assert f.data[0..HEADER_SIZE] == h;
    assert f.data[HEADER_SIZE..HEADER_SIZE + |tables|] == tables;
  }

  // ----- Looking up in a written index -----

  predicate EntryFits(e: Entry) {
    e.filterIdx <= 65535 && e.min < 0x1_0000_0000_0000_0000 && e.max < 0x1_0000_0000_0000_0000
  }

  lemma {:induction false} EntryReads(entries: seq<Entry>, i: nat)
    requires i < |entries| && EntryFits(entries[i])
    ensures |Section(entries)| == |entries| * ENTRY_SIZE
    ensures EntryOf(Section(entries), |entries|, i) == entries[i]
  {
    var parts := Mapped(EncodeEntry, entries);
    ConcatUniform(parts, ENTRY_SIZE);
    UniformPart(parts, ENTRY_SIZE, i);
    var e := entries[i];
    assert parts[i] == PutUint(e.filterIdx, 2) + PutUint(e.min, 8) + PutUint(e.max, 8);
    Fields(Section(entries), i * ENTRY_SIZE, PutUint(e.filterIdx, 2), PutUint(e.min, 8), PutUint(e.max, 8));
    Pow256Values();
    GetPutSmall(e.filterIdx, 2);
    GetPutSmall(e.min, 8);
    GetPutSmall(e.max, 8);
  }

  lemma {:induction false} EntriesOfFilterFit(coverage: seq<Coverage>, i: nat, log: Bytes32)
    requires i <= 65535
    ensures forall k | 0 <= k < |EntriesOfFilter(coverage, i, log)| ::
              EntryFits(EntriesOfFilter(coverage, i, log)[k])
  {
    if coverage != [] {
      EntriesOfFilterFit(coverage[..|coverage| - 1], i, log);
    }
  }

  lemma {:induction false} EntriesFit(filters: IndexSpec, log: Bytes32)
    requires |filters| <= 65535
    ensures forall k | 0 <= k < |EntriesFor(filters, log)| :: EntryFits(EntriesFor(filters, log)[k])
  {
    if filters != [] {
      var n := |filters| - 1;
      EntriesFit(filters[..n], log);
      EntriesOfFilterFit(filters[n].coverage, n, log);
    }
  }

  lemma {:induction false} SelectConcat(names: seq<Bytes>, a: seq<Entry>, b: seq<Entry>, timestamp: nat)
    requires Select(names, a, timestamp).Good? && Select(names, b, timestamp).Good?
    ensures Select(names, a + b, timestamp)
         == Good(Select(names, a, timestamp).value + Select(names, b, timestamp).value)
  {
    if b == [] {
      assert a + b == a;
      var x := Select(names, a, timestamp).value;
      assert x + [] == x;
    } else {
      var m := |b| - 1;
      var all := a + b;
      assert all[..|all| - 1] == a + b[..m] && all[|all| - 1] == b[m];
      SelectConcat(names, a, b[..m], timestamp);
      var x, y := Select(names, a, timestamp).value, Select(names, b[..m], timestamp).value;
      assert (x + y) + [names[b[m].filterIdx]] == x + (y + [names[b[m].filterIdx]]);
    }
  }

  lemma {:induction false} SelectOfFilter(names: seq<Bytes>, coverage: seq<Coverage>, i: nat, log: Bytes32, timestamp: nat)
    requires i < |names|
    ensures Select(names, EntriesOfFilter(coverage, i, log), timestamp)
         == Good(NamesOfFilter(names[i], coverage, log, timestamp))
  {
    if coverage != [] {
      var m := |coverage| - 1;
      var c := coverage[m];
      SelectOfFilter(names, coverage[..m], i, log, timestamp);
      var one := if c.logId == log then [Entry(i, c.minTimestamp, c.maxTimestamp)] else [];
      if one != [] {
        assert one[..|one| - 1] == [] && Select(names, [], timestamp) == Good([]);
        assert [] + [names[i]] == [names[i]];
        assert Select(names, one, timestamp)
            == Good(if c.minTimestamp <= timestamp <= c.maxTimestamp then [names[i]] else []);
      }
      SelectConcat(names, EntriesOfFilter(coverage[..m], i, log), one, timestamp);
    }
  }

  lemma {:induction false} SelectIsCovering(names: seq<Bytes>, filters: IndexSpec, log: Bytes32, timestamp: nat)
    requires |filters| <= |names| && forall i | 0 <= i < |filters| :: names[i] == filters[i].filename
    ensures Select(names, EntriesFor(filters, log), timestamp) == Good(CoveringNames(filters, log, timestamp))
  {
    if filters != [] {
      var n := |filters| - 1;
      SelectIsCovering(names, filters[..n], log, timestamp);
      SelectOfFilter(names, filters[n].coverage, n, log, timestamp);
      SelectConcat(names, EntriesFor(filters[..n], log), EntriesOfFilter(filters[n].coverage, n, log), timestamp);
    }
  }

  lemma {:induction false} EntriesRead(entries: seq<Entry>)
    requires forall k | 0 <= k < |entries| :: EntryFits(entries[k])
    ensures |Section(entries)| == |entries| * ENTRY_SIZE
    ensures EntriesOf(Section(entries), |entries|) == entries
  {
    SectionSize(entries);
    forall k | 0 <= k < |entries| ensures EntriesOf(Section(entries), |entries|)[k] == entries[k] {
      EntryReads(entries, k);
    }
  }

  lemma {:induction false} SectionPlace(filters: IndexSpec, ids: seq<Bytes32>, i: nat)
    requires Writable(filters) && FitsIndex(filters, ids) && i < |ids|
    ensures var section := Section(EntriesFor(filters, ids[i]));
            var at := SectionOffset(filters, ids, i);
            at + |section| <= |EncodeIndex(filters, ids)| && EncodeIndex(filters, ids)[at..at + |section|] == section
  {
    var parts := Sections(filters, ids);
    var front := Header(filters, ids) + Concat(Slots(filters)) + Concat(DirEntries(filters, ids));
    assert |front| == TablesEnd(filters, ids) by { FileSize(filters, ids); }
    SectionsSize(filters, ids, i);
    assert parts[i] == Section(EntriesFor(filters, ids[i]));
    ConcatSplit(parts, i);
    SliceAfter(front, Concat(parts), |Concat(parts[..i])|, |parts[i]|);
  }

  lemma {:induction false} SectionReads(filters: IndexSpec, ids: seq<Bytes32>, f: File, i: nat)
    requires Writable(filters) && FitsIndex(filters, ids) && i < |ids| && f.data == EncodeIndex(filters, ids)
    ensures var entries := EntriesFor(filters, ids[i]);
            && ReadAt(f, SectionOffset(filters, ids, i), |entries| * ENTRY_SIZE) == Some(Section(entries))
            && EntriesOf(Section(entries), |entries|) == entries
  {
    EntriesFit(filters, ids[i]);
    EntriesRead(EntriesFor(filters, ids[i]));
    SectionPlace(filters, ids, i);
  }

  /** A lookup in a written index returns exactly the filenames of the coverage
      entries that claim the log at the instant. */
  lemma {:induction false} WrittenLookup(filters: IndexSpec, ids: seq<Bytes32>, f: File, id: Bytes32, timestamp: nat)
    requires Writable(filters) && FitsIndex(filters, ids) && LogsOf(ids, filters)
    requires f.data == EncodeIndex(filters, ids)
    ensures WrittenView(filters, ids, f).Valid()
    ensures LookupIn(WrittenView(filters, ids, f), id, timestamp) == Good(CoveringNames(filters, id, timestamp))
  {
    var v := WrittenView(filters, ids, f);
    DirectoryOrdered(filters, ids);
    SelectIsCovering(Names(filters), filters, id, timestamp);
    match Scan(v.logDir, v.numLogs, id, 0)
    case None =>
      if id in ids {
        var i :| 0 <= i < |ids| && ids[i] == id;
        DirectoryReads(filters, ids, i);
      }
    case Some(i) =>
      DirectoryReads(filters, ids, i);
      SectionReads(filters, ids, f, i);
      OffsetBound(filters, ids, i);
      Int64Small(SectionOffset(filters, ids, i));
  }
}
