/** The filter parser: every step advances a shared cursor over the input.  Each
    method is proved to return what the reader of the same name in FilterFormat
    returns, and to leave the cursor where that reader stops. */
module Parser {
  import opened Words
  import opened Gf2
  import opened ByteStrings
  import opened Readers
  import opened Clubcard
  import opened FilterFormat

  /** `cryptobyte.String`: the input still to be read. */
  class Cursor {
    var s: Bytes

    constructor (data: Bytes)
      ensures s == data
    {
      s := data;
    }

    method TakeUint(k: nat) returns (ok: bool, v: nat)
      modifies this
      ensures ok == ReadUint(old(s), k).Parsed?
      ensures ok ==> ReadUint(old(s), k) == Parsed(v, s)
      ensures !ok ==> s == old(s)
    {
      if |s| < k {
        return false, 0;
      }
      ok, v := true, GetUint(s[..k]);
      s := s[k..];
    }

    method TakeBytes(k: nat) returns (ok: bool, b: Bytes)
      modifies this
      ensures ok == ReadBytes(old(s), k).Parsed?
      ensures ok ==> ReadBytes(old(s), k) == Parsed(b, s)
      ensures !ok ==> s == old(s)
    {
      if |s| < k {
        return false, [];
      }
      ok, b := true, s[..k];
      s := s[k..];
    }
  }

  /** `r` is the outcome of a reader that yields `p`, the cursor now at `rest`. */
  ghost predicate Returns<T>(r: Outcome<T>, rest: Bytes, p: Parsed<T>) {
    match p
    case Parsed(v, s) => r == Success(v) && rest == s
    case Malformed => r == Failure(Deserialize)
  }

  // ----- Reading a counted sequence item by item -----

  /** `whole` is the outcome of reading the items `done` and `n` more from `s`. */
  ghost predicate Continues<T>(whole: Parsed<seq<T>>, done: seq<T>, n: nat, p: Reader<T>, s: Bytes) {
    match ReadMany(n, p, s)
    case Parsed(vs, rest) => whole == Parsed(done + vs, rest)
    case Malformed => whole == Malformed
  }

  lemma {:induction false} ContinuesFromStart<T>(n: nat, p: Reader<T>, s: Bytes)
    ensures Continues(ReadMany(n, p, s), [], n, p, s)
  {
    if ReadMany(n, p, s).Parsed? {
      assert [] + ReadMany(n, p, s).value == ReadMany(n, p, s).value;
    }
  }

  lemma {:induction false} ContinuesPast<T>(whole: Parsed<seq<T>>, done: seq<T>, n: nat, p: Reader<T>, s: Bytes)
    requires n > 0 && Continues(whole, done, n, p, s)
    ensures match p(s)
            case Parsed(v, rest) => Continues(whole, done + [v], n - 1, p, rest)
            case Malformed => whole == Malformed
  {
    if p(s).Parsed? && ReadMany(n - 1, p, p(s).rest).Parsed? {
      var v, vs := p(s).value, ReadMany(n - 1, p, p(s).rest).value;
      assert done + ([v] + vs) == (done + [v]) + vs;
    }
  }

  lemma {:induction false} ContinuesToEnd<T>(whole: Parsed<seq<T>>, done: seq<T>, p: Reader<T>, s: Bytes)
    requires Continues(whole, done, 0, p, s)
    ensures whole == Parsed(done, s)
  {
    assert done + [] == done;
  }

  /** A repeated key among the first items condemns the whole table. */
  lemma {:induction false} RepeatedKey<V>(whole: Parsed<seq<(Bytes32, V)>>, done: seq<(Bytes32, V)>, n: nat,
                       p: Reader<(Bytes32, V)>, s: Bytes)
    requires Continues(whole, done, n, p, s) && !DistinctKeys(done)
    ensures whole.Parsed? ==> !DistinctKeys(whole.value)
  {
    if whole.Parsed? {
      var i, j :| 0 <= i < j < |done| && done[i].0 == done[j].0;
      assert whole.value[i] == done[i] && whole.value[j] == done[j];
    }
  }

  lemma {:induction false} OneMoreKey<V>(done: seq<(Bytes32, V)>, e: (Bytes32, V))
    requires DistinctKeys(done)
    ensures DistinctKeys(done + [e]) <==> e.0 !in MapOf(done)
    ensures MapOf(done + [e]) == MapOf(done)[e.0 := e.1]
  {
    assert (done + [e])[..|done|] == done;
    var all := done + [e];
    if e.0 in MapOf(done) {
      var i :| 0 <= i < |done| && done[i].0 == e.0;
      assert all[i].0 == all[|done|].0;
    }
  }

  // ----- The readers of the parser -----

  method ReadLogId(c: Cursor) returns (r: Outcome<Bytes32>)
    modifies c
    ensures Returns(r, c.s, ReadBytes(old(c.s), 32))
  {
    var ok, id := c.TakeBytes(32);
    if !ok {
      return Failure(Deserialize);
    }
    return Success(id);
  }

  method ReadTimestampInterval(c: Cursor) returns (r: Outcome<Interval>)
    modifies c
    ensures Returns(r, c.s,
                    match ReadUint(old(c.s), 8)
                    case Malformed => Malformed
                    case Parsed(low, s1) =>
                      match ReadUint(s1, 8)
                      case Malformed => Malformed
                      case Parsed(high, s2) => Parsed(Interval(low, high), s2))
  {
    var ok, low := c.TakeUint(8);
    if !ok {
      return Failure(Deserialize);
    }
    var high;
    ok, high := c.TakeUint(8);
    if !ok {
      return Failure(Deserialize);
    }
    return Success(Interval(low, high));
  }

  method ReadOneCoverage(c: Cursor) returns (r: Outcome<(Bytes32, Interval)>)
    modifies c
    ensures Returns(r, c.s, ReadCoverageEntry(old(c.s)))
  {
    var id := ReadLogId(c);
    if id.Failure? {
      return Failure(id.error);
    }
    var iv := ReadTimestampInterval(c);
    if iv.Failure? {
      return Failure(iv.error);
    }
    return Success((id.value, iv.value));
  }

  method ReadCoverageMap(c: Cursor) returns (r: Outcome<map<Bytes32, Interval>>)
    modifies c
    ensures Returns(r, c.s, ReadCoverage(true, old(c.s)))
  {
    var ok, count := c.TakeUint(2);
    if !ok || count * COVERAGE_ENTRY_SIZE > |c.s| {
      return Failure(Deserialize);
    }
    ghost var whole := ReadMany(count, ReadCoverageEntry, c.s);
    ghost var entries: seq<(Bytes32, Interval)> := [];
    ContinuesFromStart(count, ReadCoverageEntry, c.s);
    var cov: map<Bytes32, Interval> := map[];
    ghost var left := count;
    for i := 0 to count
      invariant left == count - i && Continues(whole, entries, left, ReadCoverageEntry, c.s)
      invariant DistinctKeys(entries) && cov == MapOf(entries)
    {
      ContinuesPast(whole, entries, left, ReadCoverageEntry, c.s);
      left := left - 1;
      var e := ReadOneCoverage(c);
      if e.Failure? {
        return Failure(e.error);
      }
      OneMoreKey(entries, e.value);
      entries := entries + [e.value];
      if e.value.0 in cov {
        RepeatedKey(whole, entries, left, ReadCoverageEntry, c.s);
        return Failure(Deserialize);
      }
      cov := cov[e.value.0 := e.value.1];
    }
    ContinuesToEnd(whole, entries, ReadCoverageEntry, c.s);
    return Success(cov);
  }

  method ReadSerial(c: Cursor) returns (r: Outcome<Bytes>)
    modifies c
    ensures Returns(r, c.s, ReadException(old(c.s)))
  {
    var ok, length := c.TakeUint(1);
    if !ok {
      return Failure(Deserialize);
    }
    var serial;
    ok, serial := c.TakeBytes(length);
    if !ok {
      return Failure(Deserialize);
    }
    return Success(serial);
  }

  method ReadExceptions(c: Cursor, count: nat) returns (r: Outcome<set<Bytes>>)
    modifies c
    ensures Returns(r, c.s,
                    match ReadMany(count, ReadException, old(c.s))
                    case Malformed => Malformed
                    case Parsed(list, rest) => Parsed((set e | e in list), rest))
  {
    ghost var whole := ReadMany(count, ReadException, c.s);
    ghost var list: seq<Bytes> := [];
    ContinuesFromStart(count, ReadException, c.s);
    var exceptions: set<Bytes> := {};
    ghost var left := count;
    for i := 0 to count
      invariant left == count - i && Continues(whole, list, left, ReadException, c.s)
      invariant exceptions == set e | e in list
    {
      ContinuesPast(whole, list, left, ReadException, c.s);
      left := left - 1;
      var serial := ReadSerial(c);
      if serial.Failure? {
        return Failure(serial.error);
      }
      list := list + [serial.value];
      exceptions := exceptions + {serial.value};
    }
    ContinuesToEnd(whole, list, ReadException, c.s);
    return Success(exceptions);
  }

  method ReadMeta(c: Cursor) returns (r: Outcome<BlockMeta>)
    modifies c
    ensures Returns(r, c.s, ReadBlockMeta(old(c.s)))
  {
    var ok, hMod := c.TakeUint(4);
    if !ok { return Failure(Deserialize); }
    var rank, hOff, gMod, gOff, inverted, count;
    ok, rank := c.TakeUint(1);
    if !ok { return Failure(Deserialize); }
    ok, hOff := c.TakeUint(4);
    if !ok { return Failure(Deserialize); }
    ok, gMod := c.TakeUint(4);
    if !ok { return Failure(Deserialize); }
    ok, gOff := c.TakeUint(4);
    if !ok { return Failure(Deserialize); }
    ok, inverted := c.TakeUint(1);
    if !ok { return Failure(Deserialize); }
    if inverted > 1 {
      return Failure(Deserialize);
    }
    ok, count := c.TakeUint(2);
    if !ok { return Failure(Deserialize); }
    var exceptions := ReadExceptions(c, count);
    if exceptions.Failure? {
      return Failure(exceptions.error);
    }
    return Success(BlockMeta(hOff, hMod, rank, gOff, gMod, exceptions.value, inverted != 0));
  }

  method ReadOneBlock(c: Cursor) returns (r: Outcome<(Bytes32, BlockMeta)>)
    modifies c
    ensures Returns(r, c.s, ReadIndexEntry(old(c.s)))
  {
    var ok, id := c.TakeBytes(32);
    if !ok {
      return Failure(Deserialize);
    }
    var meta := ReadMeta(c);
    if meta.Failure? {
      return Failure(meta.error);
    }
    return Success((id, meta.value));
  }

  method ReadBlockTable(c: Cursor) returns (r: Outcome<map<Bytes32, BlockMeta>>)
    modifies c
    ensures Returns(r, c.s, ReadBlocks(true, old(c.s)))
  {
    var ok, count := c.TakeUint(4);
    if !ok || count * MIN_INDEX_ENTRY_SIZE > |c.s| {
      return Failure(Deserialize);
    }
    ghost var whole := ReadMany(count, ReadIndexEntry, c.s);
    ghost var entries: seq<(Bytes32, BlockMeta)> := [];
    ContinuesFromStart(count, ReadIndexEntry, c.s);
    var blocks: map<Bytes32, BlockMeta> := map[];
    ghost var left := count;
    for i := 0 to count
      invariant left == count - i && Continues(whole, entries, left, ReadIndexEntry, c.s)
      invariant DistinctKeys(entries) && blocks == MapOf(entries)
    {
      ContinuesPast(whole, entries, left, ReadIndexEntry, c.s);
      left := left - 1;
      var e := ReadOneBlock(c);
      if e.Failure? {
        return Failure(e.error);
      }
      OneMoreKey(entries, e.value);
      entries := entries + [e.value];
      if e.value.0 in blocks {
        RepeatedKey(whole, entries, left, ReadIndexEntry, c.s);
        return Failure(Deserialize);
      }
      blocks := blocks[e.value.0 := e.value.1];
    }
    ContinuesToEnd(whole, entries, ReadIndexEntry, c.s);
    return Success(blocks);
  }

  method ReadOneWord(c: Cursor) returns (r: Outcome<Word>)
    modifies c
    ensures Returns(r, c.s, ReadWord(old(c.s)))
  {
    var ok, n := c.TakeUint(8);
    if !ok {
      return Failure(Deserialize);
    }
    return Success(WordOf(n));
  }

  method ReadColumn(c: Cursor) returns (r: Outcome<Column>)
    modifies c
    ensures Returns(r, c.s, ReadU64Seq(true, old(c.s)))
  {
    var ok, count := c.TakeUint(4);
    if !ok || count * 8 > |c.s| {
      return Failure(Deserialize);
    }
    ghost var whole := ReadMany(count, ReadWord, c.s);
    ContinuesFromStart(count, ReadWord, c.s);
    var items := new Word[count](_ => ZeroWord());
    assert items[..0] == [];
    ghost var left := count;
    for i := 0 to count
      invariant left == count - i && Continues(whole, items[..i], left, ReadWord, c.s)
    {
      ghost var done := items[..i];
      ContinuesPast(whole, done, left, ReadWord, c.s);
      left := left - 1;
      var w := ReadOneWord(c);
      if w.Failure? {
        return Failure(w.error);
      }
      items[i] := w.value;
      assert items[..i + 1] == done + [w.value];
    }
    ContinuesToEnd(whole, items[..count], ReadWord, c.s);
    assert items[..count] == items[..];
    return Success(items[..]);
  }

  /** The rank check that keeps later queries inside the column table. */
  method ValidateBlocks(f: Filter) returns (ok: bool)
    ensures ok == RanksWithin(f.blocks, |f.x|)
  {
    var ids := f.blocks.Keys;
    while ids != {}
      invariant ids <= f.blocks.Keys
      invariant forall id | id in f.blocks && id !in ids :: f.blocks[id].hRank <= |f.x|
      decreases ids
    {
      var id :| id in ids;
      if f.blocks[id].hRank > |f.x| {
        return false;
      }
      ids := ids - {id};
    }
    return true;
  }

  method ReadFilterPart(c: Cursor) returns (r: Outcome<Filter>)
    modifies c
    ensures Returns(r, c.s, ReadFilter(true, old(c.s)))
  {
    var blocks := ReadBlockTable(c);
    if blocks.Failure? {
      return Failure(blocks.error);
    }
    var ok, columnCount := c.TakeUint(1);
    if !ok {
      return Failure(Deserialize);
    }
    var x := ReadColumns(c, columnCount);
    if x.Failure? {
      return Failure(x.error);
    }
    var y := ReadColumn(c);
    if y.Failure? {
      return Failure(y.error);
    }
    var f := Filter(x.value, y.value, blocks.value);
    var valid := ValidateBlocks(f);
    if !valid {
      return Failure(Deserialize);
    }
    return Success(f);
  }

  method ReadColumns(c: Cursor, count: nat) returns (r: Outcome<seq<Column>>)
    modifies c
    ensures Returns(r, c.s, ReadMany(count, ColumnReader(true), old(c.s)))
  {
    ghost var whole := ReadMany(count, ColumnReader(true), c.s);
    ContinuesFromStart(count, ColumnReader(true), c.s);
    var x: seq<Column> := [];
    ghost var left := count;
    for i := 0 to count
      invariant left == count - i && Continues(whole, x, left, ColumnReader(true), c.s)
    {
      ContinuesPast(whole, x, left, ColumnReader(true), c.s);
      ColumnReaderReads(c.s);
      left := left - 1;
      var col := ReadColumn(c);
      if col.Failure? {
        return Failure(col.error);
      }
      x := x + [col.value];
    }
    ContinuesToEnd(whole, x, ColumnReader(true), c.s);
    return Success(x);
  }

  lemma {:induction false} ColumnReaderReads(s: Bytes)
    ensures ColumnReader(true)(s) == ReadU64Seq(true, s)
  {}

  /** Parses a serialized filter file. */
  method FromBytes(data: Bytes) returns (r: Outcome<RevocationFilter>)
    ensures r == Parse(true, data)
    ensures r == Failure(UnsupportedFormat) <==> |data| >= 2 && data[0] != 4
    ensures r.Success? ==> |data| >= 2 && data[0] == 4 && data[1] == 0
  {
    var c := new Cursor(data);
    var ok, version := c.TakeUint(1);
    if !ok {
      return Failure(Deserialize);
    }
    var reserved;
    ok, reserved := c.TakeUint(1);
    OneByte(data);
    if !ok {
      return Failure(Deserialize);
    }
    OneByte(data[1..]);
    if version != 4 {
      return Failure(UnsupportedFormat);
    }
    if reserved != 0 {
      return Failure(Deserialize);
    }
    assert c.s == data[2..];
    var cov := ReadCoverageMap(c);
    if cov.Failure? {
      return Failure(cov.error);
    }
    var f := ReadFilterPart(c);
    if f.Failure? {
      return Failure(f.error);
    }
    if c.s != [] {
      return Failure(Deserialize);
    }
    return Success(RevocationFilter(cov.value, f.value));
  }

  lemma {:induction false} OneByte(s: Bytes)
    requires s != []
    ensures ReadUint(s, 1) == Parsed(s[0], s[1..])
  {
    assert s[..1] == [s[0]];
    assert GetUint([s[0]]) == 256 * GetUint([]) + s[0];
  }
}
