/** Reading back what the filter builder writes. */
module RoundTrip {
  import opened Words
  import opened Gf2
  import opened ByteStrings
  import opened Readers
  import opened Sequences
  import opened HashWindows
  import opened Clubcard
  import opened FilterFormat
  import opened Blocks
  import opened FilterWriter

  // ----- What the wire fields can hold -----

  predicate BlockFits(b: Block) {
    && b.approxM < 0x1_0000_0000 && b.hOffset < 0x1_0000_0000
    && b.exactM < 0x1_0000_0000 && b.gOffset < 0x1_0000_0000
    && b.rank < 0x100 && |b.exceptions| < 0x1_0000
    && forall i | 0 <= i < |b.exceptions| :: |b.exceptions[i]| < 0x100
  }

  predicate FitsWire(coverage: seq<Coverage>, blocks: seq<Block>, x: seq<Column>, y: Column) {
    && |coverage| < 0x1_0000 && |blocks| < 0x1_0000_0000 && |x| < 0x100 && |y| < 0x1_0000_0000
    && (forall i | 0 <= i < |blocks| :: BlockFits(blocks[i]))
    && (forall c | 0 <= c < |x| :: |x[c]| < 0x1_0000_0000)
  }

  // ----- What the reader should recover -----

  function EntryOfCoverage(c: Coverage): (Bytes32, Interval) {
    (c.logId, Interval(c.minTimestamp, c.maxTimestamp))
  }

  function MetaOf(b: Block): BlockMeta {
    BlockMeta(b.hOffset, b.approxM, b.rank, b.gOffset, b.exactM, (set e | e in b.exceptions), b.inverted)
  }

  function EntryOfBlock(b: Block): (Bytes32, BlockMeta) {
    (b.id, MetaOf(b))
  }

  // ----- Piece by piece -----

  lemma {:induction false} Assoc(a: Bytes, b: Bytes, c: Bytes)
    ensures (a + b) + c == a + (b + c)
  {}

  lemma {:induction false} CoverageReads(c: Coverage)
    ensures Reads(ReadCoverageEntry, EntryOfCoverage(c), EncodeCoverage(c)) && |EncodeCoverage(c)| == COVERAGE_ENTRY_SIZE
  {
    Pow256Values();
    forall tail: Bytes ensures ReadsAt(ReadCoverageEntry, EntryOfCoverage(c), EncodeCoverage(c), tail) {
      var t2 := PutUint(c.maxTimestamp, 8) + tail;
      var t1 := PutUint(c.minTimestamp, 8) + t2;
      assert EncodeCoverage(c) + tail == c.logId + t1;
      ReadBytesBack(c.logId, t1);
      ReadUintPut(c.minTimestamp, 8, t2);
      ReadUintPut(c.maxTimestamp, 8, tail);
    }
  }

  lemma {:induction false} ExceptionReads(e: Bytes)
    requires |e| < 0x100
    ensures Reads(ReadException, e, EncodeException(e))
  {
    Pow256Values();
    forall tail: Bytes ensures ReadsAt(ReadException, e, EncodeException(e), tail) {
      Assoc(PutUint(|e|, 1), e, tail);
      ReadUintPut(|e|, 1, e + tail);
      ReadBytesBack(e, tail);
    }
  }

  lemma {:induction false} ExceptionsRead(exceptions: seq<Bytes>, tail: Bytes)
    requires |exceptions| < 0x1_0000 && forall i | 0 <= i < |exceptions| :: |exceptions[i]| < 0x100
    ensures ReadCounted(false, 2, 0, ReadException,
                        PutUint(|exceptions|, 2) + Concat(Mapped(EncodeException, exceptions)) + tail)
            == Parsed(exceptions, tail)
  {
    Pow256Values();
    forall i | 0 <= i < |exceptions|
      ensures Reads(ReadException, exceptions[i], Mapped(EncodeException, exceptions)[i])
    {
      ExceptionReads(exceptions[i]);
    }
    ReadCountedBack(false, 2, 0, ReadException, exceptions, Mapped(EncodeException, exceptions), tail);
  }

  /** The fixed fields of a block, ahead of `tail`. */
  function MetaFields(b: Block, tail: Bytes): Bytes {
    PutUint(b.approxM, 4) + (PutUint(b.rank, 1) + (PutUint(b.hOffset, 4)
      + (PutUint(b.exactM, 4) + (PutUint(b.gOffset, 4) + (PutUint(if b.inverted then 1 else 0, 1) + tail)))))
  }

  lemma {:induction false} EncodeBlockSplit(b: Block, tail: Bytes)
    ensures EncodeBlock(b) + tail
         == b.id + MetaFields(b, PutUint(|b.exceptions|, 2) + Concat(Mapped(EncodeException, b.exceptions)) + tail)
  {
    var e := PutUint(|b.exceptions|, 2) + Concat(Mapped(EncodeException, b.exceptions));
    var p1 := b.id + PutUint(b.approxM, 4);
    var p2 := p1 + PutUint(b.rank, 1);
    var p3 := p2 + PutUint(b.hOffset, 4);
    var p4 := p3 + PutUint(b.exactM, 4);
    var p5 := p4 + PutUint(b.gOffset, 4);
    var p6 := p5 + PutUint(if b.inverted then 1 else 0, 1);
    var t6 := e + tail;
    var t5 := PutUint(if b.inverted then 1 else 0, 1) + t6;
    var t4 := PutUint(b.gOffset, 4) + t5;
    var t3 := PutUint(b.exactM, 4) + t4;
    var t2 := PutUint(b.hOffset, 4) + t3;
    var t1 := PutUint(b.rank, 1) + t2;
    Assoc(p6, e, tail);
    Assoc(p5, PutUint(if b.inverted then 1 else 0, 1), t6);
    Assoc(p4, PutUint(b.gOffset, 4), t5);
    Assoc(p3, PutUint(b.exactM, 4), t4);
    Assoc(p2, PutUint(b.hOffset, 4), t3);
    Assoc(p1, PutUint(b.rank, 1), t2);
    Assoc(b.id, PutUint(b.approxM, 4), t1);
  }

  lemma {:induction false} MetaReads(b: Block, tail: Bytes)
    requires BlockFits(b)
    ensures ReadBlockMeta(MetaFields(b, PutUint(|b.exceptions|, 2) + Concat(Mapped(EncodeException, b.exceptions)) + tail))
         == Parsed(MetaOf(b), tail)
  {
    Pow256Values();
    var t6 := PutUint(|b.exceptions|, 2) + Concat(Mapped(EncodeException, b.exceptions)) + tail;
    var flag := if b.inverted then 1 else 0;
    var t5 := PutUint(flag, 1) + t6;
    var t4 := PutUint(b.gOffset, 4) + t5;
    var t3 := PutUint(b.exactM, 4) + t4;
    var t2 := PutUint(b.hOffset, 4) + t3;
    var t1 := PutUint(b.rank, 1) + t2;
    ReadUintPut(b.approxM, 4, t1);
    ReadUintPut(b.rank, 1, t2);
    ReadUintPut(b.hOffset, 4, t3);
    ReadUintPut(b.exactM, 4, t4);
    ReadUintPut(b.gOffset, 4, t5);
    ReadUintPut(flag, 1, t6);
    ExceptionsRead(b.exceptions, tail);
  }

  lemma {:induction false} BlockReads(b: Block)
    requires BlockFits(b)
    ensures Reads(ReadIndexEntry, EntryOfBlock(b), EncodeBlock(b)) && |EncodeBlock(b)| >= MIN_INDEX_ENTRY_SIZE
  {
    forall tail: Bytes ensures ReadsAt(ReadIndexEntry, EntryOfBlock(b), EncodeBlock(b), tail) {
      EncodeBlockSplit(b, tail);
      var rest := MetaFields(b, PutUint(|b.exceptions|, 2) + Concat(Mapped(EncodeException, b.exceptions)) + tail);
      ReadBytesBack(b.id, rest);
      MetaReads(b, tail);
    }
  }

  lemma {:induction false} WordReads(w: Word)
    ensures Reads(ReadWord, w, EncodeWord(w)) && |EncodeWord(w)| == 8
  {
    Pow2IsPow256(8);
    DigitsOfValue(w);
    forall tail: Bytes ensures ReadsAt(ReadWord, w, EncodeWord(w), tail) {
      ReadUintPut(Value(w), 8, tail);
    }
  }

  lemma {:induction false} ColumnReads(guarded: bool, c: Column)
    requires |c| < 0x1_0000_0000
    ensures Reads(ColumnReader(guarded), c, EncodeColumn(c))
  {
    Pow256Values();
    forall i | 0 <= i < |c| ensures Reads(ReadWord, c[i], Mapped(EncodeWord, c)[i]) && |Mapped(EncodeWord, c)[i]| >= 8 {
      WordReads(c[i]);
    }
    forall tail: Bytes ensures ReadsAt(ColumnReader(guarded), c, EncodeColumn(c), tail) {
      ReadCountedBack(guarded, 4, 8, ReadWord, c, Mapped(EncodeWord, c), tail);
    }
  }

  // ----- The sections of the file -----

  lemma {:induction false} CoverageSection(coverage: seq<Coverage>, tail: Bytes)
    requires |coverage| < 0x1_0000
    ensures ReadCoverage(true, PutUint(|coverage|, 2) + Concat(Mapped(EncodeCoverage, coverage)) + tail)
         == var entries := Mapped(EntryOfCoverage, coverage);
            if DistinctKeys(entries) then Parsed(MapOf(entries), tail) else Malformed
  {
    Pow256Values();
    var encs := Mapped(EncodeCoverage, coverage);
    var entries := Mapped(EntryOfCoverage, coverage);
    forall i | 0 <= i < |coverage|
      ensures Reads(ReadCoverageEntry, entries[i], encs[i]) && |encs[i]| >= COVERAGE_ENTRY_SIZE
    {
      CoverageReads(coverage[i]);
    }
    ReadCountedBack(true, 2, COVERAGE_ENTRY_SIZE, ReadCoverageEntry, entries, encs, tail);
  }

  lemma {:induction false} BlocksSection(blocks: seq<Block>, tail: Bytes)
    requires |blocks| < 0x1_0000_0000 && forall i | 0 <= i < |blocks| :: BlockFits(blocks[i])
    ensures ReadBlocks(true, PutUint(|blocks|, 4) + Concat(Mapped(EncodeBlock, blocks)) + tail)
         == var entries := Mapped(EntryOfBlock, blocks);
            if DistinctKeys(entries) then Parsed(MapOf(entries), tail) else Malformed
  {
    Pow256Values();
    var encs := Mapped(EncodeBlock, blocks);
    var entries := Mapped(EntryOfBlock, blocks);
    forall i | 0 <= i < |blocks|
      ensures Reads(ReadIndexEntry, entries[i], encs[i]) && |encs[i]| >= MIN_INDEX_ENTRY_SIZE
    {
      BlockReads(blocks[i]);
    }
    ReadCountedBack(true, 4, MIN_INDEX_ENTRY_SIZE, ReadIndexEntry, entries, encs, tail);
  }

  lemma {:induction false} ColumnsSection(x: seq<Column>, tail: Bytes)
    requires |x| < 0x100 && forall c | 0 <= c < |x| :: |x[c]| < 0x1_0000_0000
    ensures ReadUint(PutUint(|x|, 1) + Concat(Mapped(EncodeColumn, x)) + tail, 1)
         == Parsed(|x|, Concat(Mapped(EncodeColumn, x)) + tail)
    ensures ReadMany(|x|, ColumnReader(true), Concat(Mapped(EncodeColumn, x)) + tail) == Parsed(x, tail)
  {
    Pow256Values();
    var encs := Mapped(EncodeColumn, x);
    forall c | 0 <= c < |x| ensures Reads(ColumnReader(true), x[c], encs[c]) {
      ColumnReads(true, x[c]);
    }
    Assoc(PutUint(|x|, 1), Concat(encs), tail);
    ReadUintPut(|x|, 1, Concat(encs) + tail);
    ReadManyBack(ColumnReader(true), x, encs, tail);
  }

  lemma {:induction false} FilterSection(blocks: seq<Block>, x: seq<Column>, y: Column)
    requires FitsWire([], blocks, x, y)
    ensures ReadFilter(true, (PutUint(|blocks|, 4) + Concat(Mapped(EncodeBlock, blocks)))
                             + (PutUint(|x|, 1) + Concat(Mapped(EncodeColumn, x)) + EncodeColumn(y)))
         == var entries := Mapped(EntryOfBlock, blocks);
            if DistinctKeys(entries) && RanksWithin(MapOf(entries), |x|)
            then Parsed(Filter(x, y, MapOf(entries)), []) else Malformed
  {
    BlocksSection(blocks, PutUint(|x|, 1) + Concat(Mapped(EncodeColumn, x)) + EncodeColumn(y));
    ColumnsSection(x, EncodeColumn(y));
    ColumnReads(true, y);
    assert ReadsAt(ColumnReader(true), y, EncodeColumn(y), []);
    assert EncodeColumn(y) + [] == EncodeColumn(y);
    assert ReadU64Seq(true, EncodeColumn(y)) == Parsed(y, []);
  }

  /** Parsing a written file recovers the coverage, the block entries and the
      columns, and succeeds exactly when no key repeats and every rank is within
      the column count. */
  lemma {:induction false} ParseEncoded(coverage: seq<Coverage>, blocks: seq<Block>, x: seq<Column>, y: Column)
    requires FitsWire(coverage, blocks, x, y)
    ensures var logs, entries := Mapped(EntryOfCoverage, coverage), Mapped(EntryOfBlock, blocks);
            Parse(true, EncodeFile(coverage, blocks, x, y))
            == if DistinctKeys(logs) && DistinctKeys(entries) && RanksWithin(MapOf(entries), |x|)
               then Success(RevocationFilter(MapOf(logs), Filter(x, y, MapOf(entries))))
               else Failure(Deserialize)
  {
    var c := PutUint(|coverage|, 2) + Concat(Mapped(EncodeCoverage, coverage));
    var i := PutUint(|blocks|, 4) + Concat(Mapped(EncodeBlock, blocks));
    var k := PutUint(|x|, 1) + Concat(Mapped(EncodeColumn, x));
    var data := EncodeFile(coverage, blocks, x, y);
    FileSplit(c, i, k, EncodeColumn(y), data);
    CoverageSection(coverage, i + (k + EncodeColumn(y)));
    FilterSection(blocks, x, y);
  }

  lemma {:induction false} FileSplit(c: Bytes, i: Bytes, k: Bytes, y: Bytes, data: Bytes)
    requires data == [4, 0] + c + i + k + y
    ensures |data| >= 2 && data[0] == 4 && data[1] == 0
    ensures data[2..] == c + (i + (k + y))
  {
    Assoc([4, 0] + c + i, k, y);
    Assoc([4, 0] + c, i, k + y);
    Assoc([4, 0], c, i + (k + y));
  }
}
