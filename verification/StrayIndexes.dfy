/** Indexes that pass validation although their entry sections lie outside the
    file and on top of each other: what the overflow left unguarded admits. */
module StrayIndexes {
  import opened ByteStrings
  import opened IndexRoundTrip
  import opened IndexSections
  import opened IndexWriter
  import opened Readers
  import opened Sequences
  import opened UpkiIndex

  /** A directory entry claiming one index entry at offset 2^63 - 1. */
  function StrayEntry(id: Bytes32): Bytes {
    EncodeDirEntry(id, TWO63 - 1, 1)
  }

  function StrayDir(ids: seq<Bytes32>): Bytes {
    Concat(Mapped(StrayEntry, ids))
  }

  function StrayHeader(ids: seq<Bytes32>): Bytes {
    MAGIC + PutUint(0, 2) + PutUint(|ids|, 4)
  }

  /** An index without filters, of 14 + 42 |ids| bytes, that lists the logs `ids`. */
  function StrayFile(ids: seq<Bytes32>): File {
    File(StrayHeader(ids) + StrayDir(ids), true)
  }

  function StrayView(ids: seq<Bytes32>): View {
    View([], StrayDir(ids), |ids|, StrayFile(ids))
  }

  /** How the validation sees a stray section: the end has wrapped around. */
  const STRAY_SPAN := Span(TWO63 - 1, 17 - TWO63)

  lemma {:induction false} StraySize(ids: seq<Bytes32>)
    ensures DirShape(StrayDir(ids), |ids|)
    ensures |StrayFile(ids).data| == HEADER_SIZE + LOG_DIR_ENTRY_SIZE * |ids|
  {
    ConcatUniform(Mapped(StrayEntry, ids), LOG_DIR_ENTRY_SIZE);
  }

  lemma {:induction false} StrayFields(ids: seq<Bytes32>, i: nat)
    requires i < |ids|
    ensures DirShape(StrayDir(ids), |ids|)
    ensures LogIdAt(StrayDir(ids), |ids|, i) == ids[i]
    ensures OffsetAt(StrayDir(ids), |ids|, i) == TWO63 - 1 && CountAt(StrayDir(ids), |ids|, i) == 1
    ensures SpanAt(StrayDir(ids), |ids|, i) == STRAY_SPAN
  {
    StraySize(ids);
    UniformPart(Mapped(StrayEntry, ids), LOG_DIR_ENTRY_SIZE, i);
    DirFieldsRead(StrayDir(ids), |ids|, i, ids[i], TWO63 - 1, 1);
    Int64Small(TWO63 - 1);
    Int64Large(TWO63 - 1 + ENTRY_SIZE);
  }

  lemma {:induction false} StraySpans(ids: seq<Bytes32>, i: nat, s: Span)
    requires i <= |ids|
    ensures DirShape(StrayDir(ids), |ids|)
    ensures s in SpansFrom(StrayDir(ids), |ids|, i) ==> s == STRAY_SPAN
    decreases |ids| - i
  {
    StraySize(ids);
    if i < |ids| {
      StrayFields(ids, i);
      StraySpans(ids, i + 1, s);
    }
  }

  lemma {:induction false} StraySorted(ids: seq<Bytes32>, sort: Sort)
    requires IsSort(sort)
    ensures DirShape(StrayDir(ids), |ids|)
    ensures NeighboursApart(sort(SpansFrom(StrayDir(ids), |ids|, 0)))
  {
    StraySize(ids);
    var spans := SpansFrom(StrayDir(ids), |ids|, 0);
    forall k | 0 <= k < |sort(spans)| ensures sort(spans)[k] == STRAY_SPAN {
      assert sort(spans)[k] in multiset(spans);
      StraySpans(ids, 0, sort(spans)[k]);
    }
  }

  lemma {:induction false} StraySectionsValid(ids: seq<Bytes32>, end: nat, sort: Sort)
    requires end == HEADER_SIZE + LOG_DIR_ENTRY_SIZE * |ids| < TWO63 && IsSort(sort)
    ensures DirShape(StrayDir(ids), |ids|)
    ensures SectionsValid(StrayDir(ids), |ids|, end, StrayFile(ids), sort)
  {
    StraySorted(ids, sort);
    var f := StrayFile(ids);
    forall i | 0 <= i < |ids| ensures SpanInBounds(StrayDir(ids), |ids|, i, end, f) {
      StrayFields(ids, i);
    }
  }

  lemma {:induction false} StrayHeaderReads(ids: seq<Bytes32>)
    requires |ids| < 0x1_0000_0000
    ensures var h := StrayHeader(ids);
            |h| == HEADER_SIZE && h[..8] == MAGIC && NumFilenames(h) == 0 && NumLogs(h) == |ids|
  {
    var h := StrayHeader(ids);
    assert h[8..10] == PutUint(0, 2) && h[10..14] == PutUint(|ids|, 4);
    Pow256Values();
    GetPutSmall(0, 2);
    GetPutSmall(|ids|, 4);
  }

  lemma {:induction false} StrayOrdered(ids: seq<Bytes32>)
    requires StrictlyAscending(ids)
    ensures StrayView(ids).Valid()
  {
    StraySize(ids);
    forall i | 1 <= i < |ids| ensures Compare(LogIdAt(StrayDir(ids), |ids|, i - 1), LogIdAt(StrayDir(ids), |ids|, i)) < 0 {
      StrayFields(ids, i - 1);
      StrayFields(ids, i);
    }
  }

  lemma {:induction false} StrayTablesOpen(ids: seq<Bytes32>, sort: Sort)
    requires |ids| < 0x1_0000_0000 && StrictlyAscending(ids) && IsSort(sort)
    ensures DirShape(StrayDir(ids), |ids|)
    ensures OpenTables(StrayFile(ids), 0, |ids|, [] + StrayDir(ids), sort) == Good(StrayView(ids))
  {
    StraySize(ids);
    StrayOrdered(ids);
    var end := HEADER_SIZE + LOG_DIR_ENTRY_SIZE * |ids|;
    StraySectionsValid(ids, end, sort);
    OpensTo(StrayFile(ids), 0, |ids|, [], StrayDir(ids), [], end, sort);
  }

  lemma {:induction false} StrayOpens(ids: seq<Bytes32>, sort: Sort)
    requires |ids| < 0x1_0000_0000 && StrictlyAscending(ids) && IsSort(sort)
    ensures Open(StrayFile(ids), sort) == Good(StrayView(ids))
  {
    var dir := StrayDir(ids);
    StrayTablesOpen(ids, sort);
    StrayHeaderReads(ids);
    assert [] + dir == dir && StrayHeader(ids) + dir + [] == StrayFile(ids).data;
    OpenReads(StrayFile(ids), 0, |ids|, StrayHeader(ids), dir, [], sort);
  }

  lemma {:induction false} StrayPlaces(ids: seq<Bytes32>)
    ensures DirShape(StrayDir(ids), |ids|)
    ensures ids != [] && |ids| < 0x1_0000_0000 ==>
              !SectionsInside(StrayDir(ids), |ids|, HEADER_SIZE + |StrayDir(ids)|, |StrayFile(ids).data|)
    ensures |ids| > 1 ==> !SectionsDisjoint(StrayDir(ids), |ids|)
  {
    StraySize(ids);
    if ids != [] {
      StrayFields(ids, 0);
    }
    if |ids| > 1 {
      StrayFields(ids, 1);
    }
  }

  /** Every such index is accepted.  The section of a listed log lies outside the
      file, so a lookup of that log fails cleanly; and those of two logs overlap. */
  lemma {:induction false} StrayAccepted(ids: seq<Bytes32>, sort: Sort)
    requires |ids| < 0x1_0000_0000 && StrictlyAscending(ids) && IsSort(sort)
    ensures Open(StrayFile(ids), sort) == Good(StrayView(ids)) && StrayView(ids).Valid()
    ensures ids != [] ==> !SectionsInside(StrayDir(ids), |ids|, HEADER_SIZE + |StrayDir(ids)|, |StrayFile(ids).data|)
    ensures |ids| > 1 ==> !SectionsDisjoint(StrayDir(ids), |ids|)
    ensures forall id, t: nat | id in ids :: LookupIn(StrayView(ids), id, t) == InvalidIndex
  {
    StrayOpens(ids, sort);
    StrayOrdered(ids);
    StrayPlaces(ids);
    forall id, t: nat | id in ids ensures LookupIn(StrayView(ids), id, t) == InvalidIndex {
      StrayLookup(ids, id, t);
    }
  }

  lemma {:induction false} StrayLookup(ids: seq<Bytes32>, id: Bytes32, t: nat)
    requires |ids| < 0x1_0000_0000 && StrayView(ids).Valid() && id in ids
    ensures LookupIn(StrayView(ids), id, t) == InvalidIndex
  {
    var k :| 0 <= k < |ids| && ids[k] == id;
    StrayFields(ids, k);
    var r := Scan(StrayDir(ids), |ids|, id, 0);
    StrayFields(ids, r.value);
    StraySize(ids);
    Int64Small(TWO63 - 1);
  }

  /** The smallest overlap: 98 bytes, two logs, both sections at 2^63 - 1. */
  lemma {:induction false} OverlapAccepted(sort: Sort)
    requires IsSort(sort)
    ensures var ids := [seq(32, _ => 0), seq(32, _ => 1)];
            && Open(StrayFile(ids), sort) == Good(StrayView(ids))
            && |StrayFile(ids).data| == 98 && !SectionsDisjoint(StrayDir(ids), 2)
  {
    var ids: seq<Bytes32> := [seq(32, _ => 0), seq(32, _ => 1)];
    assert ids[0][0] == 0 && ids[1][0] == 1;
    StraySize(ids);
    StrayAccepted(ids, sort);
  }
}
