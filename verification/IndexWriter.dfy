/** Writing an index file, and reading it back. */
module IndexWriter {
  import opened ByteStrings
  import opened Readers
  import opened Sequences
  import opened UpkiIndex
  import opened FilterWriter

  datatype IndexFilter = IndexFilter(filename: Bytes, coverage: seq<Coverage>)

  type IndexSpec = seq<IndexFilter>

  // ----- The entries of one log -----

  /** The entries the filter at position `i` contributes to `log`. */
  function EntriesOfFilter(coverage: seq<Coverage>, i: nat, log: Bytes32): seq<Entry> {
    if coverage == [] then [] else
      var c := coverage[|coverage| - 1];
      EntriesOfFilter(coverage[..|coverage| - 1], i, log)
      + if c.logId == log then [Entry(i, c.minTimestamp, c.maxTimestamp)] else []
  }

  /** The entries of `log` over all filters, in filter-list order. */
  function EntriesFor(filters: IndexSpec, log: Bytes32): seq<Entry> {
    if filters == [] then [] else
      var n := |filters| - 1;
      EntriesFor(filters[..n], log) + EntriesOfFilter(filters[n].coverage, n, log)
  }

  /** The map from logs to their entries, with no empty entry lists. */
  ghost predicate Collected(byLog: map<Bytes32, seq<Entry>>, filters: IndexSpec) {
    && (forall id | id in byLog :: byLog[id] == EntriesFor(filters, id) && byLog[id] != [])
    && (forall id | id !in byLog :: EntriesFor(filters, id) == [])
  }

  /** `Collected`, with the first coverage entries of one more filter. */
  ghost predicate CollectedPart(byLog: map<Bytes32, seq<Entry>>, filters: IndexSpec, coverage: seq<Coverage>, i: nat) {
    && (forall id | id in byLog :: byLog[id] == EntriesFor(filters, id) + EntriesOfFilter(coverage, i, id) && byLog[id] != [])
    && (forall id | id !in byLog :: EntriesFor(filters, id) + EntriesOfFilter(coverage, i, id) == [])
  }

  method CollectEntries(filters: IndexSpec) returns (byLog: map<Bytes32, seq<Entry>>)
    ensures Collected(byLog, filters)
  {
    byLog := map[];
    for i := 0 to |filters|
      invariant Collected(byLog, filters[..i])
    {
      var coverage := filters[i].coverage;
      for j := 0 to |coverage|
        invariant CollectedPart(byLog, filters[..i], coverage[..j], i)
      {
        var c := coverage[j];
        var e := Entry(i, c.minTimestamp, c.maxTimestamp);
        ghost var before := byLog;
        byLog := byLog[c.logId := (if c.logId in byLog then byLog[c.logId] else []) + [e]];
        CollectedOneMore(before, byLog, filters[..i], coverage, i, j);
      }
      assert coverage[..|coverage|] == coverage;
      assert filters[..i + 1][..i] == filters[..i];
    }
    assert filters[..|filters|] == filters;
  }

  lemma {:induction false} CollectedOneMore(before: map<Bytes32, seq<Entry>>, after: map<Bytes32, seq<Entry>>,
                                            filters: IndexSpec, coverage: seq<Coverage>, i: nat, j: nat)
    requires j < |coverage| && CollectedPart(before, filters, coverage[..j], i)
    requires var c := coverage[j];
             after == before[c.logId := (if c.logId in before then before[c.logId] else [])
                                        + [Entry(i, c.minTimestamp, c.maxTimestamp)]]
    ensures CollectedPart(after, filters, coverage[..j + 1], i)
  {
    var c := coverage[j];
    var e := Entry(i, c.minTimestamp, c.maxTimestamp);
    assert coverage[..j + 1][..j] == coverage[..j];
    assert forall id: Bytes32 :: EntriesOfFilter(coverage[..j + 1], i, id)
             == EntriesOfFilter(coverage[..j], i, id) + if c.logId == id then [e] else [];
  }

  // ----- Ordering the logs -----

  predicate StrictlyAscending(ids: seq<Bytes32>) {
    forall i, j | 0 <= i < j < |ids| :: Compare(ids[i], ids[j]) < 0
  }

  function InsertId(id: Bytes32, ids: seq<Bytes32>): (r: seq<Bytes32>)
    requires StrictlyAscending(ids) && id !in ids
    ensures StrictlyAscending(r)
    ensures forall x :: x in r <==> x == id || x in ids
  {
    if ids == [] then [id]
    else if Compare(id, ids[0]) < 0 then
      InsertIdFirst(id, ids);
      [id] + ids
    else
      var r := InsertId(id, ids[1..]);
      InsertIdLater(id, ids, r);
      [ids[0]] + r
  }

  lemma {:induction false} InsertIdFirst(id: Bytes32, ids: seq<Bytes32>)
    requires StrictlyAscending(ids) && ids != [] && Compare(id, ids[0]) < 0
    ensures StrictlyAscending([id] + ids)
  {
    forall j | 0 <= j < |ids| ensures Compare(id, ids[j]) < 0 {
      if j > 0 {
        CompareTransitive(id, ids[0], ids[j]);
      }
    }
  }

  lemma {:induction false} InsertIdLater(id: Bytes32, ids: seq<Bytes32>, r: seq<Bytes32>)
    requires StrictlyAscending(ids) && ids != [] && Compare(id, ids[0]) >= 0 && id != ids[0]
    requires StrictlyAscending(r) && forall x :: x in r <==> x == id || x in ids[1..]
    ensures StrictlyAscending([ids[0]] + r)
    ensures forall x :: x in [ids[0]] + r <==> x == id || x in ids
  {
    CompareEqual(id, ids[0]);
    CompareAntisymmetric(ids[0], id);
    assert ids == [ids[0]] + ids[1..];
    forall j | 0 <= j < |r| ensures Compare(ids[0], r[j]) < 0 {
      assert r[j] in r;
      if r[j] != id {
        var k :| 0 <= k < |ids[1..]| && ids[1..][k] == r[j];
        assert Compare(ids[0], ids[k + 1]) < 0;
      }
    }
  }

  /** slices.SortedFunc over the map's keys. */
  method SortedKeys(keys: set<Bytes32>) returns (ids: seq<Bytes32>)
    ensures StrictlyAscending(ids) && forall id :: id in ids <==> id in keys
  {
    ids := [];
    var left := keys;
    while left != {}
      invariant left <= keys && StrictlyAscending(ids)
      invariant forall id :: id in ids <==> id in keys && id !in left
      decreases left
    {
      var id :| id in left;
      left := left - {id};
      ids := InsertId(id, ids);
    }
  }

  // ----- Serializing -----

  function Slot(name: Bytes): Bytes {
    if |name| <= FILENAME_SIZE then name + seq(FILENAME_SIZE - |name|, _ => 0) else name[..FILENAME_SIZE]
  }

  function EncodeEntry(e: Entry): Bytes {
    PutUint(e.filterIdx, 2) + PutUint(e.min, 8) + PutUint(e.max, 8)
  }

  function Section(entries: seq<Entry>): Bytes {
    Concat(Mapped(EncodeEntry, entries))
  }

  /** The bytes taken by the sections of the first `i` logs. */
  function SectionsLength(filters: IndexSpec, ids: seq<Bytes32>): nat {
    if ids == [] then 0 else
      SectionsLength(filters, ids[..|ids| - 1]) + ENTRY_SIZE * |EntriesFor(filters, ids[|ids| - 1])|
  }

  function TablesEnd(filters: IndexSpec, ids: seq<Bytes32>): nat {
    HEADER_SIZE + FILENAME_SIZE * |filters| + LOG_DIR_ENTRY_SIZE * |ids|
  }

  function EncodeDirEntry(id: Bytes32, offset: nat, count: nat): Bytes {
    id + PutUint(offset, 8) + PutUint(count, 2)
  }

  function SectionOffset(filters: IndexSpec, ids: seq<Bytes32>, i: nat): nat
    requires i <= |ids|
  {
    TablesEnd(filters, ids) + SectionsLength(filters, ids[..i])
  }

  function DirEntry(filters: IndexSpec, ids: seq<Bytes32>, i: nat): Bytes
    requires i < |ids|
  {
    EncodeDirEntry(ids[i], SectionOffset(filters, ids, i), |EntriesFor(filters, ids[i])|)
  }

  function Slots(filters: IndexSpec): seq<Bytes> {
    seq(|filters|, i requires 0 <= i < |filters| => Slot(filters[i].filename))
  }

  function DirEntries(filters: IndexSpec, ids: seq<Bytes32>): seq<Bytes> {
    seq(|ids|, i requires 0 <= i < |ids| => DirEntry(filters, ids, i))
  }

  function Sections(filters: IndexSpec, ids: seq<Bytes32>): seq<Bytes> {
    seq(|ids|, i requires 0 <= i < |ids| => Section(EntriesFor(filters, ids[i])))
  }

  function Header(filters: IndexSpec, ids: seq<Bytes32>): Bytes {
    MAGIC + PutUint(|filters|, 2) + PutUint(|ids|, 4)
  }

  function EncodeIndex(filters: IndexSpec, ids: seq<Bytes32>): Bytes {
    Header(filters, ids) + Concat(Slots(filters)) + Concat(DirEntries(filters, ids)) + Concat(Sections(filters, ids))
  }

  /** `ids` are the logs some filter covers, in directory order. */
  ghost predicate LogsOf(ids: seq<Bytes32>, filters: IndexSpec) {
    StrictlyAscending(ids) && forall id: Bytes32 :: id in ids <==> EntriesFor(filters, id) != []
  }

  /** Builds the index; more than 65535 filters or a filename longer than 32 bytes
      make the source panic. */
  method IndexBytes(filters: IndexSpec) returns (out: Bytes, ghost ids: seq<Bytes32>)
    requires |filters| <= 65535 && forall i | 0 <= i < |filters| :: |filters[i].filename| <= FILENAME_SIZE
    ensures LogsOf(ids, filters) && out == EncodeIndex(filters, ids)
  {
    var byLog := CollectEntries(filters);
    var logIds := SortedKeys(byLog.Keys);
    ids := logIds;
    out := MAGIC + PutUint(|filters|, 2) + PutUint(|logIds|, 4);
    for i := 0 to |filters|
      invariant out == Header(filters, ids) + Concat(Slots(filters)[..i])
    {
      ConcatSnoc(Slots(filters)[..i], Slots(filters)[i]);
      assert Slots(filters)[..i + 1] == Slots(filters)[..i] + [Slots(filters)[i]];
      out := out + Slot(filters[i].filename);
    }
    assert Slots(filters)[..|filters|] == Slots(filters);
    out := AppendDirectory(out, filters, logIds, byLog);
    out := AppendSections(out, filters, logIds, byLog);
  }

  lemma {:induction false} DirectoryStep(filters: IndexSpec, ids: seq<Bytes32>, byLog: map<Bytes32, seq<Entry>>, i: nat)
    requires i < |ids| && Collected(byLog, filters) && forall id | id in ids :: id in byLog
    ensures ids[i] in byLog
    ensures var count := |byLog[ids[i]]|;
            && Concat(DirEntries(filters, ids)[..i + 1])
               == Concat(DirEntries(filters, ids)[..i]) + EncodeDirEntry(ids[i], SectionOffset(filters, ids, i), count)
            && SectionOffset(filters, ids, i + 1) == SectionOffset(filters, ids, i) + ENTRY_SIZE * count
  {
    var parts := DirEntries(filters, ids);
    assert ids[i] in ids;
    ConcatSnoc(parts[..i], parts[i]);
    assert parts[..i + 1] == parts[..i] + [parts[i]];
    assert ids[..i + 1][..i] == ids[..i];
  }

  method AppendDirectory(start: Bytes, filters: IndexSpec, ids: seq<Bytes32>, byLog: map<Bytes32, seq<Entry>>)
    returns (out: Bytes)
    requires Collected(byLog, filters) && forall id | id in ids :: id in byLog
    ensures out == start + Concat(DirEntries(filters, ids))
  {
    var offset := HEADER_SIZE + FILENAME_SIZE * |filters| + LOG_DIR_ENTRY_SIZE * |ids|;
    var dir: Bytes := [];
    for i := 0 to |ids|
      invariant offset == SectionOffset(filters, ids, i)
      invariant dir == Concat(DirEntries(filters, ids)[..i])
    {
      DirectoryStep(filters, ids, byLog, i);
      var count := |byLog[ids[i]]|;
      dir := dir + EncodeDirEntry(ids[i], offset, count);
      offset := offset + ENTRY_SIZE * count;
    }
    assert DirEntries(filters, ids)[..|ids|] == DirEntries(filters, ids);
    out := start + dir;
  }

  lemma {:induction false} SectionsStep(filters: IndexSpec, ids: seq<Bytes32>, byLog: map<Bytes32, seq<Entry>>, i: nat)
    requires i < |ids| && Collected(byLog, filters) && forall id | id in ids :: id in byLog
    ensures ids[i] in byLog
    ensures Concat(Sections(filters, ids)[..i + 1])
         == Concat(Sections(filters, ids)[..i]) + Concat(Mapped(EncodeEntry, byLog[ids[i]]))
  {
    var parts := Sections(filters, ids);
    assert ids[i] in ids;
    ConcatSnoc(parts[..i], parts[i]);
    assert parts[..i + 1] == parts[..i] + [parts[i]];
  }

  method AppendSections(start: Bytes, filters: IndexSpec, ids: seq<Bytes32>, byLog: map<Bytes32, seq<Entry>>)
    returns (out: Bytes)
    requires Collected(byLog, filters) && forall id | id in ids :: id in byLog
    ensures out == start + Concat(Sections(filters, ids))
  {
    var sections: Bytes := [];
    for i := 0 to |ids|
      invariant sections == Concat(Sections(filters, ids)[..i])
    {
      SectionsStep(filters, ids, byLog, i);
      sections := AppendAll(sections, EncodeEntry, byLog[ids[i]]);
    }
    assert Sections(filters, ids)[..|ids|] == Sections(filters, ids);
    out := start + sections;
  }
}
