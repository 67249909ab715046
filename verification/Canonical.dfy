/** Every accepted filter file is one the writer could have written: reading is undone
    by writing, byte for byte.  And where its fields lie. */
module Canonical {
  import opened Words
  import opened Gf2
  import opened ByteStrings
  import opened HashWindows
  import opened Sequences
  import opened Readers
  import opened Clubcard
  import opened FilterFormat
  import opened Blocks
  import opened FilterWriter
  import opened RoundTrip

  // ----- Undoing a reader -----

  /** What `p` reads off `s` is the encoding of something that fits. */
  ghost predicate UnreadsAt<S(!new), T>(p: Reader<T>, view: S -> T, enc: S -> Bytes, fits: S -> bool, s: Bytes) {
    p(s).Parsed? ==> exists a: S :: EncodedBy(p(s).value, p(s).rest, view, enc, fits, s, a)
  }

  predicate EncodedBy<S, T(==)>(value: T, rest: Bytes, view: S -> T, enc: S -> Bytes, fits: S -> bool, s: Bytes, a: S) {
    fits(a) && view(a) == value && s == enc(a) + rest
  }

  ghost predicate Unreads<S(!new), T>(p: Reader<T>, view: S -> T, enc: S -> Bytes, fits: S -> bool) {
    forall s: Bytes :: UnreadsAt(p, view, enc, fits, s)
  }

  lemma {:induction false} UintUnread(s: Bytes, k: nat)
    requires ReadUint(s, k).Parsed?
    ensures ReadUint(s, k).value < Pow256(k) && s == PutUint(ReadUint(s, k).value, k) + ReadUint(s, k).rest
  {
    PutGet(s[..k]);
  }

  lemma {:induction false} BytesUnread(s: Bytes, k: nat)
    requires ReadBytes(s, k).Parsed?
    ensures s == ReadBytes(s, k).value + ReadBytes(s, k).rest
  {}

  lemma {:induction false} MappedFirst<S, T>(f: S -> T, a: S, later: seq<S>)
    ensures Mapped(f, [a] + later) == [f(a)] + Mapped(f, later)
    ensures ([f(a)] + Mapped(f, later))[1..] == Mapped(f, later)
  {}

  lemma {:induction false} ManyUnread<S(!new), T>(n: nat, p: Reader<T>, view: S -> T, enc: S -> Bytes, fits: S -> bool, s: Bytes)
    returns (vs: seq<S>)
    requires Unreads(p, view, enc, fits) && ReadMany(n, p, s).Parsed?
    ensures |vs| == n && forall i | 0 <= i < n :: fits(vs[i])
    ensures Mapped(view, vs) == ReadMany(n, p, s).value && s == Concat(Mapped(enc, vs)) + ReadMany(n, p, s).rest
  {
    vs := [];
    if n > 0 {
      assert UnreadsAt(p, view, enc, fits, s);
      var a: S :| EncodedBy(p(s).value, p(s).rest, view, enc, fits, s, a);
      var later := ManyUnread(n - 1, p, view, enc, fits, p(s).rest);
      vs := [a] + later;
      MappedFirst(view, a, later);
      MappedFirst(enc, a, later);
      Assoc(enc(a), Concat(Mapped(enc, later)), ReadMany(n, p, s).rest);
    }
  }

  lemma {:induction false} CountedUnread<S(!new), T>(guarded: bool, width: nat, minSize: nat, p: Reader<T>,
                                                     view: S -> T, enc: S -> Bytes, fits: S -> bool, s: Bytes)
    returns (vs: seq<S>)
    requires Unreads(p, view, enc, fits) && ReadCounted(guarded, width, minSize, p, s).Parsed?
    ensures |vs| < Pow256(width) && forall i | 0 <= i < |vs| :: fits(vs[i])
    ensures Mapped(view, vs) == ReadCounted(guarded, width, minSize, p, s).value
    ensures s == PutUint(|vs|, width) + Concat(Mapped(enc, vs)) + ReadCounted(guarded, width, minSize, p, s).rest
  {
    UintUnread(s, width);
    var first := ReadUint(s, width);
    vs := ManyUnread(first.value, p, view, enc, fits, first.rest);
    Assoc(PutUint(|vs|, width), Concat(Mapped(enc, vs)), ReadCounted(guarded, width, minSize, p, s).rest);
  }

  // ----- Piece by piece -----

  function Same<T>(x: T): T { x }

  function AnyFits<T>(x: T): bool { true }

  function ShortEnough(e: Bytes): bool { |e| < 0x100 }

  function ColumnFits(c: Column): bool { |c| < 0x1_0000_0000 }

  lemma {:induction false} SameMapped<T>(s: seq<T>)
    ensures Mapped(Same, s) == s
  {}

  lemma {:induction false} CoverageUnread()
    ensures Unreads(ReadCoverageEntry, EntryOfCoverage, EncodeCoverage, AnyFits)
  {
    Pow256Values();
    forall s: Bytes ensures UnreadsAt(ReadCoverageEntry, EntryOfCoverage, EncodeCoverage, AnyFits, s) {
      if ReadCoverageEntry(s).Parsed? {
        var id := ReadBytes(s, 32);
        var low := ReadUint(id.rest, 8);
        var high := ReadUint(low.rest, 8);
        BytesUnread(s, 32);
        UintUnread(id.rest, 8);
        UintUnread(low.rest, 8);
        var c := Coverage(id.value, low.value, high.value);
        Assoc(c.logId + PutUint(low.value, 8), PutUint(high.value, 8), high.rest);
        Assoc(c.logId, PutUint(low.value, 8), PutUint(high.value, 8) + high.rest);
        assert EncodedBy(ReadCoverageEntry(s).value, high.rest, EntryOfCoverage, EncodeCoverage, AnyFits, s, c);
      }
    }
  }

  lemma {:induction false} ExceptionUnread()
    ensures Unreads(ReadException, Same, EncodeException, ShortEnough)
  {
    Pow256Values();
    forall s: Bytes ensures UnreadsAt(ReadException, Same, EncodeException, ShortEnough, s) {
      if ReadException(s).Parsed? {
        var length := ReadUint(s, 1);
        var e := ReadBytes(length.rest, length.value);
        UintUnread(s, 1);
        BytesUnread(length.rest, length.value);
        Assoc(PutUint(length.value, 1), e.value, e.rest);
        assert EncodedBy(e.value, e.rest, Same, EncodeException, ShortEnough, s, e.value);
      }
    }
  }

  lemma {:induction false} WordUnread()
    ensures Unreads<Word, Word>(ReadWord, Same<Word>, EncodeWord, AnyFits<Word>)
  {
    forall s: Bytes ensures UnreadsAt<Word, Word>(ReadWord, Same<Word>, EncodeWord, AnyFits<Word>, s) {
      if ReadWord(s).Parsed? {
        OneWordUnread(s);
        var w := ReadWord(s).value;
        assert EncodedBy<Word, Word>(w, ReadWord(s).rest, Same<Word>, EncodeWord, AnyFits<Word>, s, w);
      }
    }
  }

  lemma {:induction false} OneWordUnread(s: Bytes)
    requires ReadWord(s).Parsed?
    ensures s == EncodeWord(ReadWord(s).value) + ReadWord(s).rest
  {
    Pow2IsPow256(8);
    UintUnread(s, 8);
    ValueOfDigits(ReadUint(s, 8).value, 64);
  }

  lemma {:induction false} ColumnUnread(guarded: bool)
    ensures Unreads<Column, Column>(ColumnReader(guarded), Same, EncodeColumn, ColumnFits)
  {
    Pow256Values();
    WordUnread();
    forall s: Bytes ensures UnreadsAt<Column, Column>(ColumnReader(guarded), Same, EncodeColumn, ColumnFits, s) {
      var r := ReadU64Seq(guarded, s);
      if r.Parsed? {
        var c := CountedUnread<Word, Word>(guarded, 4, 8, ReadWord, Same<Word>, EncodeWord, AnyFits<Word>, s);
        SameMapped<Word>(c);
        assert EncodedBy(r.value, r.rest, Same, EncodeColumn, ColumnFits, s, c);
      }
    }
  }

  /** The block an entry was written from, as far as the entry tells. */
  function BlockOf(id: Bytes32, meta: BlockMeta, exceptions: seq<Bytes>): Block {
    Block(id, meta.inverted, meta.hModulus, meta.hRank, meta.hOffset, [], meta.gModulus, meta.gOffset, [], exceptions)
  }

  lemma {:induction false} MetaUnread(s: Bytes, id: Bytes32) returns (b: Block)
    requires ReadBlockMeta(s).Parsed?
    ensures BlockFits(b) && b.id == id && MetaOf(b) == ReadBlockMeta(s).value
    ensures s == MetaFields(b, PutUint(|b.exceptions|, 2) + Concat(Mapped(EncodeException, b.exceptions)) + ReadBlockMeta(s).rest)
  {
    Pow256Values();
    ExceptionUnread();
    var hMod := ReadUint(s, 4);
    var rank := ReadUint(hMod.rest, 1);
    var hOff := ReadUint(rank.rest, 4);
    var gMod := ReadUint(hOff.rest, 4);
    var gOff := ReadUint(gMod.rest, 4);
    var inverted := ReadUint(gOff.rest, 1);
    UintUnread(s, 4);
    UintUnread(hMod.rest, 1);
    UintUnread(rank.rest, 4);
    UintUnread(hOff.rest, 4);
    UintUnread(gMod.rest, 4);
    UintUnread(gOff.rest, 1);
    var exceptions := CountedUnread(false, 2, 0, ReadException, Same, EncodeException, ShortEnough, inverted.rest);
    SameMapped(exceptions);
    b := BlockOf(id, ReadBlockMeta(s).value, exceptions);
  }

  lemma {:induction false} BlockUnread()
    ensures Unreads(ReadIndexEntry, EntryOfBlock, EncodeBlock, BlockFits)
  {
    forall s: Bytes ensures UnreadsAt(ReadIndexEntry, EntryOfBlock, EncodeBlock, BlockFits, s) {
      if ReadIndexEntry(s).Parsed? {
        var id := ReadBytes(s, 32);
        BytesUnread(s, 32);
        var b := MetaUnread(id.rest, id.value);
        var rest := ReadIndexEntry(s).rest;
        EncodeBlockSplit(b, rest);
        assert EncodedBy(ReadIndexEntry(s).value, rest, EntryOfBlock, EncodeBlock, BlockFits, s, b);
      }
    }
  }

  // ----- The whole file -----

  lemma {:induction false} FilterUnread(s: Bytes) returns (blocks: seq<Block>, x: seq<Column>, y: Column)
    requires ReadFilter(true, s).Parsed? && ReadFilter(true, s).rest == []
    ensures FitsWire([], blocks, x, y)
    ensures s == (PutUint(|blocks|, 4) + Concat(Mapped(EncodeBlock, blocks)))
               + (PutUint(|x|, 1) + Concat(Mapped(EncodeColumn, x)) + EncodeColumn(y))
  {
    Pow256Values();
    BlockUnread();
    ColumnUnread(true);
    blocks := CountedUnread(true, 4, MIN_INDEX_ENTRY_SIZE, ReadIndexEntry, EntryOfBlock, EncodeBlock, BlockFits, s);
    var s1 := ReadBlocks(true, s).rest;
    var count := ReadUint(s1, 1);
    UintUnread(s1, 1);
    x := ManyUnread<Column, Column>(count.value, ColumnReader(true), Same, EncodeColumn, ColumnFits, count.rest);
    var s3 := ReadMany(count.value, ColumnReader(true), count.rest).rest;
    y := LastColumn(s3);
    Assoc(PutUint(|x|, 1), Concat(Mapped(EncodeColumn, x)), s3);
  }

  lemma {:induction false} LastColumn(s: Bytes) returns (y: Column)
    requires ReadU64Seq(true, s).Parsed? && ReadU64Seq(true, s).rest == []
    ensures ColumnFits(y) && s == EncodeColumn(y)
  {
    ColumnUnread(true);
    assert UnreadsAt<Column, Column>(ColumnReader(true), Same, EncodeColumn, ColumnFits, s);
    assert ColumnReader(true)(s) == ReadU64Seq(true, s);
    y :| EncodedBy<Column, Column>(ReadU64Seq(true, s).value, [], Same, EncodeColumn, ColumnFits, s, y);
    assert EncodeColumn(y) + [] == EncodeColumn(y);
  }

  lemma {:induction false} CoverageSectionUnread(s: Bytes) returns (coverage: seq<Coverage>)
    requires ReadCoverage(true, s).Parsed?
    ensures |coverage| < 0x1_0000
    ensures s == PutUint(|coverage|, 2) + Concat(Mapped(EncodeCoverage, coverage)) + ReadCoverage(true, s).rest
  {
    Pow256Values();
    CoverageUnread();
    coverage := CountedUnread(true, 2, COVERAGE_ENTRY_SIZE, ReadCoverageEntry, EntryOfCoverage, EncodeCoverage, AnyFits, s);
  }

  lemma {:induction false} AcceptedParts(data: Bytes)
    requires Accepted(data)
    ensures |data| >= 2 && data[0] == 4 && data[1] == 0 && ReadCoverage(true, data[2..]).Parsed?
    ensures var s1 := ReadCoverage(true, data[2..]).rest; ReadFilter(true, s1).Parsed? && ReadFilter(true, s1).rest == []
  {}

  /** Every accepted file is the encoding of something that fits the wire. */
  lemma {:induction false} AcceptedIsEncoded(data: Bytes)
    returns (coverage: seq<Coverage>, blocks: seq<Block>, x: seq<Column>, y: Column)
    requires Accepted(data)
    ensures FitsWire(coverage, blocks, x, y) && data == EncodeFile(coverage, blocks, x, y)
  {
    AcceptedParts(data);
    coverage := CoverageSectionUnread(data[2..]);
    blocks, x, y := FilterUnread(ReadCoverage(true, data[2..]).rest);
    FileJoins(data, coverage, blocks, x, y);
  }

  lemma {:induction false} SplitTwo(s: Bytes)
    requires |s| >= 2
    ensures s == [s[0], s[1]] + s[2..]
  {}

  lemma {:induction false} FileJoins(data: Bytes, coverage: seq<Coverage>, blocks: seq<Block>, x: seq<Column>, y: Column)
    requires |data| >= 2 && data[0] == 4 && data[1] == 0
    requires data[2..] == PutUint(|coverage|, 2) + Concat(Mapped(EncodeCoverage, coverage))
                          + ((PutUint(|blocks|, 4) + Concat(Mapped(EncodeBlock, blocks)))
                             + (PutUint(|x|, 1) + Concat(Mapped(EncodeColumn, x)) + EncodeColumn(y)))
    ensures data == EncodeFile(coverage, blocks, x, y)
  {
    var c := PutUint(|coverage|, 2) + Concat(Mapped(EncodeCoverage, coverage));
    var i := PutUint(|blocks|, 4) + Concat(Mapped(EncodeBlock, blocks));
    var k := PutUint(|x|, 1) + Concat(Mapped(EncodeColumn, x));
    var file := EncodeFile(coverage, blocks, x, y);
    FileSplit(c, i, k, EncodeColumn(y), file);
    SplitTwo(data);
    SplitTwo(file);
  }

  /** A file the writer could write: no log and no block twice, ranks within the
      columns, everything within its field. */
  ghost predicate Written(data: Bytes, coverage: seq<Coverage>, blocks: seq<Block>, x: seq<Column>, y: Column) {
    && FitsWire(coverage, blocks, x, y) && data == EncodeFile(coverage, blocks, x, y)
    && DistinctKeys(Mapped(EntryOfCoverage, coverage)) && DistinctKeys(Mapped(EntryOfBlock, blocks))
    && RanksWithin(MapOf(Mapped(EntryOfBlock, blocks)), |x|)
  }

  /** The accepted files are exactly the written ones, and parse to what was written. */
  lemma {:induction false} AcceptedIffWritten(data: Bytes)
    ensures Accepted(data) <==> exists coverage, blocks, x, y :: Written(data, coverage, blocks, x, y)
    ensures forall coverage, blocks, x, y | Written(data, coverage, blocks, x, y) ::
              Parse(true, data) == Success(RevocationFilter(MapOf(Mapped(EntryOfCoverage, coverage)),
                                                            Filter(x, y, MapOf(Mapped(EntryOfBlock, blocks)))))
  {
    forall coverage, blocks, x, y | Written(data, coverage, blocks, x, y)
      ensures Parse(true, data) == Success(RevocationFilter(MapOf(Mapped(EntryOfCoverage, coverage)),
                                                            Filter(x, y, MapOf(Mapped(EntryOfBlock, blocks)))))
    {
      ParseEncoded(coverage, blocks, x, y);
    }
    if Accepted(data) {
      var coverage, blocks, x, y := AcceptedIsEncoded(data);
      ParseEncoded(coverage, blocks, x, y);
      assert Written(data, coverage, blocks, x, y);
    }
  }

  // ----- Where the fields lie -----

  lemma {:induction false} TailSlice(s: Bytes, n: nat, a: nat, b: nat)
    requires n + a <= n + b <= |s|
    ensures s[n..][a..b] == s[n + a..n + b]
  {}

  /** A coverage entry: the log, the first and the last instant. */
  function CoverageEntryAt(t: Bytes): (Bytes32, Interval)
    requires |t| >= 48
  {
    (t[0..32], Interval(GetUint(t[32..40]), GetUint(t[40..48])))
  }

  lemma {:induction false} CoverageLayout(s: Bytes)
    ensures ReadCoverageEntry(s).Parsed? <==> |s| >= 48
    ensures |s| >= 48 ==> ReadCoverageEntry(s) == Parsed(CoverageEntryAt(s), s[48..])
  {
    if |s| >= 48 {
      assert s[32..][8..] == s[40..] && s[40..][8..] == s[48..];
      TailSlice(s, 32, 0, 8);
      TailSlice(s, 40, 0, 8);
    }
  }

  /** The numbers and the flag of a block's metadata, and its exceptions behind them. */
  ghost predicate MetaAt(t: Bytes, meta: BlockMeta, rest: Bytes) {
    && |t| >= 20
    && meta.hModulus == GetUint(t[0..4]) && meta.hRank == GetUint(t[4..5]) && meta.hOffset == GetUint(t[5..9])
    && meta.gModulus == GetUint(t[9..13]) && meta.gOffset == GetUint(t[13..17])
    && GetUint(t[17..18]) == (if meta.inverted then 1 else 0)
    && var r := ReadMany(GetUint(t[18..20]), ReadException, t[20..]);
       r.Parsed? && meta.exceptions == (set e | e in r.value) && r.rest == rest
  }

  lemma {:induction false} MetaLayout(s: Bytes)
    requires ReadBlockMeta(s).Parsed?
    ensures MetaAt(s, ReadBlockMeta(s).value, ReadBlockMeta(s).rest)
  {
    assert s[4..][1..] == s[5..] && s[5..][4..] == s[9..] && s[9..][4..] == s[13..];
    assert s[13..][4..] == s[17..] && s[17..][1..] == s[18..] && s[18..][2..] == s[20..];
    TailSlice(s, 4, 0, 1);
    TailSlice(s, 5, 0, 4);
    TailSlice(s, 9, 0, 4);
    TailSlice(s, 13, 0, 4);
    TailSlice(s, 17, 0, 1);
    TailSlice(s, 18, 0, 2);
  }

  /** A block entry is its id and its metadata. */
  lemma {:induction false} BlockLayout(s: Bytes)
    requires ReadIndexEntry(s).Parsed?
    ensures |s| >= 52 && ReadIndexEntry(s).value.0 == s[0..32]
    ensures MetaAt(s[32..], ReadIndexEntry(s).value.1, ReadIndexEntry(s).rest)
  {
    MetaLayout(s[32..]);
  }

  lemma {:induction false} WordsLayout(n: nat, s: Bytes)
    ensures ReadMany<Word>(n, ReadWord, s).Parsed? <==> |s| >= 8 * n
    ensures |s| >= 8 * n ==> forall i, j | 0 <= i < n && 0 <= j < 64 ::
              ReadMany<Word>(n, ReadWord, s).value[i][j] == NatBit(GetUint(s[8 * i..8 * i + 8]), j)
  {
    if n > 0 && |s| >= 8 {
      WordsLayout(n - 1, s[8..]);
      if |s| >= 8 * n {
        forall i, j | 0 <= i < n && 0 <= j < 64
          ensures ReadMany<Word>(n, ReadWord, s).value[i][j] == NatBit(GetUint(s[8 * i..8 * i + 8]), j)
        {
          if i == 0 {
            DigitIsBit(GetUint(s[..8]), 64, j);
          } else {
            TailSlice(s, 8, 8 * (i - 1), 8 * (i - 1) + 8);
          }
        }
      }
    }
  }

  /** A column is its word count and that many words; bit `p` of the column is bit
      `p % 64` of word `p / 64`. */
  lemma {:induction false} ColumnLayout(s: Bytes, p: nat)
    requires ReadU64Seq(true, s).Parsed?
    ensures |s| >= 4 && |ReadU64Seq(true, s).value| == GetUint(s[0..4]) && |s| >= 4 + 8 * GetUint(s[0..4])
    ensures BitAt(ReadU64Seq(true, s).value, p)
       <==> p / 64 < GetUint(s[0..4]) && NatBit(GetUint(s[4 + 8 * (p / 64)..12 + 8 * (p / 64)]), p % 64)
  {
    var n := GetUint(s[0..4]);
    WordsLayout(n, s[4..]);
    if p / 64 < n {
      TailSlice(s, 4, 8 * (p / 64), 8 * (p / 64) + 8);
    }
  }

  /** The coverage map lists its entries, every one in its place, and no others. */
  lemma {:induction false} CoverageMapLayout(s: Bytes, i: nat)
    requires ReadCoverage(true, s).Parsed?
    ensures |s| >= 2 && |ReadCoverage(true, s).value| == GetUint(s[0..2])
    ensures i < GetUint(s[0..2]) ==>
              && |s| >= 2 + 48 * i + 48
              && var e := CoverageEntryAt(s[2 + 48 * i..]);
                 e.0 in ReadCoverage(true, s).value && ReadCoverage(true, s).value[e.0] == e.1
  {
    var n := GetUint(s[0..2]);
    var entries := ReadCounted(true, 2, COVERAGE_ENTRY_SIZE, ReadCoverageEntry, s).value;
    MapSize(entries);
    if i < n {
      ManyCoverage(n, s[2..], i);
      MapOfAt(entries, i);
      assert s[2..][48 * i..] == s[2 + 48 * i..];
    }
  }

  /** The head of an accepted file: version, reserved byte, coverage. */
  lemma {:induction false} HeadLayout(data: Bytes)
    requires Accepted(data)
    ensures |data| >= 2 && data[0] == 4 && data[1] == 0
    ensures ReadCoverage(true, data[2..]).Parsed?
    ensures Parse(true, data).value.coverage == ReadCoverage(true, data[2..]).value
  {}

  lemma {:induction false} ManyCoverage(n: nat, s: Bytes, i: nat)
    requires i < n && ReadMany(n, ReadCoverageEntry, s).Parsed?
    ensures |s| >= 48 * i + 48 && ReadMany(n, ReadCoverageEntry, s).value[i] == CoverageEntryAt(s[48 * i..])
  {
    CoverageLayout(s);
    if i > 0 {
      ManyCoverage(n - 1, s[48..], i - 1);
      assert s[48..][48 * (i - 1)..] == s[48 * i..];
    } else {
      assert s[0..] == s;
    }
  }

  lemma {:induction false} MapSize<V>(entries: seq<(Bytes32, V)>)
    requires DistinctKeys(entries)
    ensures |MapOf(entries)| == |entries|
  {
    if entries != [] {
      var front := entries[..|entries| - 1];
      MapSize(front);
      assert entries[|entries| - 1].0 !in MapOf(front);
    }
  }
}
