/** The V4 wire format of a filter file, as a reader of byte strings. */
module FilterFormat {
  import opened Words
  import opened Gf2
  import opened ByteStrings
  import opened Readers
  import opened Clubcard

  /** An inclusive range of timestamps. */
  datatype Interval = Interval(low: nat, high: nat)

  datatype RevocationFilter = RevocationFilter(coverage: map<Bytes32, Interval>, filter: Filter)

  datatype Error = UnsupportedFormat | Deserialize

  datatype Outcome<+T> = Success(value: T) | Failure(error: Error)

  // ----- Tables keyed by 32-byte identifiers -----

  predicate DistinctKeys<V>(entries: seq<(Bytes32, V)>) {
    forall i, j | 0 <= i < j < |entries| :: entries[i].0 != entries[j].0
  }

  function MapOf<V>(entries: seq<(Bytes32, V)>): (m: map<Bytes32, V>)
    ensures forall k :: k in m <==> exists i | 0 <= i < |entries| :: entries[i].0 == k
  {
    if entries == [] then map[] else
      var last := entries[|entries| - 1];
      MapOf(entries[..|entries| - 1])[last.0 := last.1]
  }

  lemma {:induction false} MapOfAt<V>(entries: seq<(Bytes32, V)>, i: nat)
    requires i < |entries| && DistinctKeys(entries)
    ensures entries[i].0 in MapOf(entries) && MapOf(entries)[entries[i].0] == entries[i].1
  {
    if i < |entries| - 1 {
      MapOfAt(entries[..|entries| - 1], i);
    }
  }

  // ----- Coverage -----

  const COVERAGE_ENTRY_SIZE := 48

  function ReadCoverageEntry(s: Bytes): Parsed<(Bytes32, Interval)> {
    var (id, s1) :- ReadBytes(s, 32);
    var (low, s2) :- ReadUint(s1, 8);
    var (high, s3) :- ReadUint(s2, 8);
    Parsed((id, Interval(low, high)), s3)
  }

  function ReadCoverage(guarded: bool, s: Bytes): Parsed<map<Bytes32, Interval>> {
    var (entries, s1) :- ReadCounted(guarded, 2, COVERAGE_ENTRY_SIZE, ReadCoverageEntry, s);
    if DistinctKeys(entries) then Parsed(MapOf(entries), s1) else Malformed
  }

  // ----- Block index -----

  const MIN_INDEX_ENTRY_SIZE := 32 + 4 + 1 + 4 + 4 + 4 + 1 + 2

  function ReadException(s: Bytes): Parsed<Bytes> {
    var (length, s1) :- ReadUint(s, 1);
    ReadBytes(s1, length)
  }

  function ReadBlockMeta(s: Bytes): Parsed<BlockMeta> {
    var (hMod, s1) :- ReadUint(s, 4);
    var (rank, s2) :- ReadUint(s1, 1);
    var (hOff, s3) :- ReadUint(s2, 4);
    var (gMod, s4) :- ReadUint(s3, 4);
    var (gOff, s5) :- ReadUint(s4, 4);
    var (inverted, s6) :- ReadUint(s5, 1);
    if inverted > 1 then Malformed else
      var (exceptions, s7) :- ReadCounted(false, 2, 0, ReadException, s6);
      Parsed(BlockMeta(hOff, hMod, rank, gOff, gMod, (set e | e in exceptions), inverted != 0), s7)
  }

  function ReadIndexEntry(s: Bytes): Parsed<(Bytes32, BlockMeta)> {
    var (id, s1) :- ReadBytes(s, 32);
    var (meta, s2) :- ReadBlockMeta(s1);
    Parsed((id, meta), s2)
  }

  function ReadBlocks(guarded: bool, s: Bytes): Parsed<map<Bytes32, BlockMeta>> {
    var (entries, s1) :- ReadCounted(guarded, 4, MIN_INDEX_ENTRY_SIZE, ReadIndexEntry, s);
    if DistinctKeys(entries) then Parsed(MapOf(entries), s1) else Malformed
  }

  // ----- Columns -----

  function ReadWord(s: Bytes): Parsed<Word> {
    var (n, s1) :- ReadUint(s, 8);
    Parsed(WordOf(n), s1)
  }

  function ReadU64Seq(guarded: bool, s: Bytes): Parsed<Column> {
    ReadCounted(guarded, 4, 8, ReadWord, s)
  }

  function ColumnReader(guarded: bool): Reader<Column> {
    s => ReadU64Seq(guarded, s)
  }

  predicate RanksWithin(blocks: map<Bytes32, BlockMeta>, columns: nat) {
    forall id | id in blocks :: blocks[id].hRank <= columns
  }

  function ReadFilter(guarded: bool, s: Bytes): Parsed<Filter> {
    var (blocks, s1) :- ReadBlocks(guarded, s);
    var (columnCount, s2) :- ReadUint(s1, 1);
    var (x, s3) :- ReadMany(columnCount, ColumnReader(guarded), s2);
    var (y, s4) :- ReadU64Seq(guarded, s3);
    if RanksWithin(blocks, |x|) then Parsed(Filter(x, y, blocks), s4) else Malformed
  }

  // ----- The whole file -----

  function ReadBody(guarded: bool, s: Bytes): Parsed<RevocationFilter> {
    var (coverage, s1) :- ReadCoverage(guarded, s);
    var (filter, s2) :- ReadFilter(guarded, s1);
    Parsed(RevocationFilter(coverage, filter), s2)
  }

  /** What `FromBytes` makes of a file; `guarded` switches its three
      count-against-remaining-input checks. */
  function Parse(guarded: bool, data: Bytes): Outcome<RevocationFilter> {
    if |data| < 2 then Failure(Deserialize)
    else if data[0] != 4 then Failure(UnsupportedFormat)
    else if data[1] != 0 then Failure(Deserialize)
    else match ReadBody(guarded, data[2..])
         case Parsed(f, rest) => if rest == [] then Success(f) else Failure(Deserialize)
         case Malformed => Failure(Deserialize)
  }

  predicate Accepted(data: Bytes) { Parse(true, data).Success? }

  // ----- Laws of the readers -----

  lemma {:induction false} CoverageEntryLaws()
    ensures Extends(ReadCoverageEntry) && Consumes(ReadCoverageEntry, COVERAGE_ENTRY_SIZE)
  {
    forall s: Bytes, t: Bytes ensures ExtendsAt(ReadCoverageEntry, s, t) {
      if ReadCoverageEntry(s).Parsed? {
        ReadBytesExtends(32, s, t);
        var s1 := ReadBytes(s, 32).rest;
        ReadUintExtends(8, s1, t);
        ReadUintExtends(8, ReadUint(s1, 8).rest, t);
      }
    }
    forall s: Bytes ensures ConsumesAt(ReadCoverageEntry, COVERAGE_ENTRY_SIZE, s) {}
  }

  lemma {:induction false} WordLaws()
    ensures Extends(ReadWord) && Consumes(ReadWord, 8)
  {
    forall s: Bytes, t: Bytes ensures ExtendsAt(ReadWord, s, t) {
      if ReadWord(s).Parsed? {
        ReadUintExtends(8, s, t);
      }
    }
    forall s: Bytes ensures ConsumesAt(ReadWord, 8, s) {}
  }

  lemma {:induction false} ExceptionLaws()
    ensures Extends(ReadException) && Consumes(ReadException, 0)
  {
    forall s: Bytes, t: Bytes ensures ExtendsAt(ReadException, s, t) {
      if ReadException(s).Parsed? {
        ReadUintExtends(1, s, t);
        ReadBytesExtends(ReadUint(s, 1).value, ReadUint(s, 1).rest, t);
      }
    }
    forall s: Bytes ensures ConsumesAt(ReadException, 0, s) {}
  }

  lemma {:induction false} BlockMetaExtends(s: Bytes, t: Bytes)
    ensures ExtendsAt(ReadBlockMeta, s, t)
  {
    if ReadBlockMeta(s).Parsed? {
      ReadUintExtends(4, s, t);
      var s1 := ReadUint(s, 4).rest;
      ReadUintExtends(1, s1, t);
      var s2 := ReadUint(s1, 1).rest;
      ReadUintExtends(4, s2, t);
      var s3 := ReadUint(s2, 4).rest;
      ReadUintExtends(4, s3, t);
      var s4 := ReadUint(s3, 4).rest;
      ReadUintExtends(4, s4, t);
      var s5 := ReadUint(s4, 4).rest;
      ReadUintExtends(1, s5, t);
      ExceptionLaws();
      ReadCountedExtends(false, 2, 0, ReadException, ReadUint(s5, 1).rest, t);
    }
  }

  lemma {:induction false} BlockMetaConsumes(s: Bytes)
    ensures ConsumesAt(ReadBlockMeta, 20, s)
  {
    if ReadBlockMeta(s).Parsed? {
      var s1 := ReadUint(s, 4).rest;
      var s2 := ReadUint(s1, 1).rest;
      var s3 := ReadUint(s2, 4).rest;
      var s4 := ReadUint(s3, 4).rest;
      var s5 := ReadUint(s4, 4).rest;
      var s6 := ReadUint(s5, 1).rest;
      var count := ReadUint(s6, 2);
      ExceptionLaws();
      ReadManyConsumes(count.value, ReadException, 0, count.rest);
    }
  }

  lemma {:induction false} IndexEntryLaws()
    ensures Extends(ReadIndexEntry) && Consumes(ReadIndexEntry, MIN_INDEX_ENTRY_SIZE)
  {
    forall s: Bytes, t: Bytes ensures ExtendsAt(ReadIndexEntry, s, t) {
      if ReadIndexEntry(s).Parsed? {
        ReadBytesExtends(32, s, t);
        BlockMetaExtends(ReadBytes(s, 32).rest, t);
      }
    }
    forall s: Bytes ensures ConsumesAt(ReadIndexEntry, MIN_INDEX_ENTRY_SIZE, s) {
      if ReadIndexEntry(s).Parsed? {
        BlockMetaConsumes(ReadBytes(s, 32).rest);
      }
    }
  }

  lemma {:induction false} ColumnExtends(guarded: bool)
    ensures Extends(ColumnReader(guarded))
  {
    WordLaws();
    forall s: Bytes, t: Bytes ensures ExtendsAt(ColumnReader(guarded), s, t) {
      if ReadU64Seq(guarded, s).Parsed? {
        ReadCountedExtends(guarded, 4, 8, ReadWord, s, t);
      }
    }
  }

  lemma {:induction false} BlocksExtend(guarded: bool, s: Bytes, t: Bytes)
    requires ReadBlocks(guarded, s).Parsed?
    ensures ReadBlocks(guarded, s + t) == Parsed(ReadBlocks(guarded, s).value, ReadBlocks(guarded, s).rest + t)
  {
    IndexEntryLaws();
    ReadCountedExtends(guarded, 4, MIN_INDEX_ENTRY_SIZE, ReadIndexEntry, s, t);
  }

  lemma {:induction false} FilterExtends(guarded: bool, s: Bytes, t: Bytes)
    requires ReadFilter(guarded, s).Parsed?
    ensures ReadFilter(guarded, s + t) == Parsed(ReadFilter(guarded, s).value, ReadFilter(guarded, s).rest + t)
  {
    BlocksExtend(guarded, s, t);
    var s1 := ReadBlocks(guarded, s).rest;
    ReadUintExtends(1, s1, t);
    var count := ReadUint(s1, 1);
    ColumnExtends(guarded);
    ReadManyExtends(count.value, ColumnReader(guarded), count.rest, t);
    var s3 := ReadMany(count.value, ColumnReader(guarded), count.rest).rest;
    assert ExtendsAt(ColumnReader(guarded), s3, t);
  }

  lemma {:induction false} BodyExtends(guarded: bool, s: Bytes, t: Bytes)
    requires ReadBody(guarded, s).Parsed?
    ensures ReadBody(guarded, s + t) == Parsed(ReadBody(guarded, s).value, ReadBody(guarded, s).rest + t)
  {
    CoverageEntryLaws();
    ReadCountedExtends(guarded, 2, COVERAGE_ENTRY_SIZE, ReadCoverageEntry, s, t);
    FilterExtends(guarded, ReadCoverage(guarded, s).rest, t);
  }

  lemma {:induction false} AcceptedBody(data: Bytes)
    requires Accepted(data)
    ensures |data| >= 2 && ReadBody(true, data[2..]) == Parsed(Parse(true, data).value, [])
  {}

  lemma {:induction false} BodyPrefixFree(s: Bytes, t: Bytes, v: RevocationFilter, w: RevocationFilter)
    requires ReadBody(true, s) == Parsed(v, []) && ReadBody(true, s + t) == Parsed(w, [])
    ensures t == []
  {
    BodyExtends(true, s, t);
  }

  /** No accepted file is a proper prefix of another. */
  lemma {:induction false} AcceptedPrefixFree(data: Bytes, longer: Bytes)
    requires Accepted(data) && Accepted(longer) && data <= longer
    ensures data == longer
  {
    AcceptedBody(data);
    AcceptedBody(longer);
    var s, t := data[2..], longer[|data|..];
    assert longer[2..] == s + t;
    BodyPrefixFree(s, t, Parse(true, data).value, Parse(true, longer).value);
  }

  lemma {:induction false} ColumnsUnguarded(n: nat, s: Bytes)
    ensures ReadMany(n, ColumnReader(true), s) == ReadMany(n, ColumnReader(false), s)
  {
    WordLaws();
    GuardIsFree(4, 8, ReadWord, s);
    if n > 0 && ColumnReader(false)(s).Parsed? {
      ColumnsUnguarded(n - 1, ColumnReader(false)(s).rest);
    }
  }

  lemma {:induction false} FilterUnguarded(s: Bytes)
    ensures ReadFilter(true, s) == ReadFilter(false, s)
  {
    IndexEntryLaws();
    GuardIsFree(4, MIN_INDEX_ENTRY_SIZE, ReadIndexEntry, s);
    var blocks := ReadBlocks(false, s);
    if blocks.Parsed? && ReadUint(blocks.rest, 1).Parsed? {
      var count := ReadUint(blocks.rest, 1);
      ColumnsUnguarded(count.value, count.rest);
      var x := ReadMany(count.value, ColumnReader(false), count.rest);
      if x.Parsed? {
        WordLaws();
        GuardIsFree(4, 8, ReadWord, x.rest);
      }
    }
  }

  /** The checks made before allocating refuse nothing the reads themselves would
      have accepted, and never change the error either. */
  lemma {:induction false} GuardsRejectNothing(data: Bytes)
    ensures Parse(true, data) == Parse(false, data)
  {
    if |data| >= 2 {
      var s := data[2..];
      CoverageEntryLaws();
      GuardIsFree(2, COVERAGE_ENTRY_SIZE, ReadCoverageEntry, s);
      var coverage := ReadCoverage(false, s);
      if coverage.Parsed? {
        FilterUnguarded(coverage.rest);
      }
    }
  }

  /** In an accepted filter no block's rank exceeds the number of columns. */
  lemma {:induction false} AcceptedRanksWithin(data: Bytes)
    requires Accepted(data)
    ensures var f := Parse(true, data).value.filter; RanksWithin(f.blocks, |f.x|)
  {
    var s1 := ReadCoverage(true, data[2..]).rest;
    assert ReadFilter(true, s1).Parsed?;
  }
}
