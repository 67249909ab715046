/** The revocation index: a validated packed directory, binary search over it,
    and entry sections read on demand. */
module UpkiIndex {
  import opened ByteStrings
  import opened Wrappers

  /** "upkiidx1" */
  const MAGIC: Bytes := [117, 112, 107, 105, 105, 100, 120, 49]
  const FILENAME_SIZE := 32
  const HEADER_SIZE := 14
  const LOG_DIR_ENTRY_SIZE := 42
  const ENTRY_SIZE := 18

  /** A file of fixed content; `sized` says whether the reader reports its size. */
  datatype File = File(data: Bytes, sized: bool)

  /** `readFullAt`: all `n` bytes from `offset`, or an error.  An empty read past
      the end counts as full. */
  function ReadAt(f: File, offset: int, n: nat): (r: Option<Bytes>)
    ensures r.Some? ==> |r.value| == n
  {
    if offset < 0 then None
    else if offset + n <= |f.data| then Some(f.data[offset..offset + n])
    else if n == 0 then Some([])
    else None
  }

  // ----- Signed 64-bit arithmetic -----

  const TWO63 := 0x8000_0000_0000_0000

  /** Conversion of any integer to `int64`, wrapping around. */
  function Int64(x: int): int {
    (x + TWO63) % (2 * TWO63) - TWO63
  }

  // ----- The packed directory -----

  predicate DirShape(dir: Bytes, n: nat) {
    |dir| == n * LOG_DIR_ENTRY_SIZE
  }

  function DirField(dir: Bytes, n: nat, i: nat, lo: nat, hi: nat): (s: Bytes)
    requires DirShape(dir, n) && i < n && lo <= hi <= LOG_DIR_ENTRY_SIZE
    ensures |s| == hi - lo
  {
    dir[i * LOG_DIR_ENTRY_SIZE + lo..i * LOG_DIR_ENTRY_SIZE + hi]
  }

  function LogIdAt(dir: Bytes, n: nat, i: nat): Bytes32
    requires DirShape(dir, n) && i < n
  {
    DirField(dir, n, i, 0, 32)
  }

  function OffsetAt(dir: Bytes, n: nat, i: nat): nat
    requires DirShape(dir, n) && i < n
  {
    GetUint(DirField(dir, n, i, 32, 40))
  }

  function CountAt(dir: Bytes, n: nat, i: nat): nat
    requires DirShape(dir, n) && i < n
  {
    GetUint(DirField(dir, n, i, 40, 42))
  }

  // ----- Directory order -----

  predicate AdjacentOrdered(dir: Bytes, n: nat)
    requires DirShape(dir, n)
  {
    forall i | 1 <= i < n :: Compare(LogIdAt(dir, n, i - 1), LogIdAt(dir, n, i)) < 0
  }

  method ValidateLogDirOrder(dir: Bytes, n: nat) returns (ok: bool)
    requires DirShape(dir, n)
    ensures ok == AdjacentOrdered(dir, n)
  {
    var i := 1;
    while i < n
      invariant 1 <= i
      invariant forall k | 1 <= k < i && k < n :: Compare(LogIdAt(dir, n, k - 1), LogIdAt(dir, n, k)) < 0
    {
      if Compare(LogIdAt(dir, n, i - 1), LogIdAt(dir, n, i)) >= 0 {
        return false;
      }
      i := i + 1;
    }
    return true;
  }

  /** Neighbours in order means all pairs in order. */
  lemma {:induction false} OrderLifts(dir: Bytes, n: nat, i: nat, j: nat)
    requires DirShape(dir, n) && AdjacentOrdered(dir, n) && i < j < n
    ensures Compare(LogIdAt(dir, n, i), LogIdAt(dir, n, j)) < 0
  {
    assert Compare(LogIdAt(dir, n, j - 1), LogIdAt(dir, n, j)) < 0;
    if i < j - 1 {
      OrderLifts(dir, n, i, j - 1);
      CompareTransitive(LogIdAt(dir, n, i), LogIdAt(dir, n, j - 1), LogIdAt(dir, n, j));
    }
  }

  // ----- Finding a log -----

  /** Linear search from entry `i` on. */
  function Scan(dir: Bytes, n: nat, id: Bytes32, i: nat): (r: Option<nat>)
    requires DirShape(dir, n) && i <= n
    ensures r.Some? ==> i <= r.value < n && LogIdAt(dir, n, r.value) == id
    ensures r.None? ==> forall k | i <= k < n :: LogIdAt(dir, n, k) != id
    decreases n - i
  {
    if i == n then None else if LogIdAt(dir, n, i) == id then Some(i) else Scan(dir, n, id, i + 1)
  }

  /** Binary search; on an ordered directory it agrees with the linear scan. */
  method FindLog(dir: Bytes, n: nat, id: Bytes32) returns (dirOffset: nat, ok: bool)
    requires DirShape(dir, n) && AdjacentOrdered(dir, n)
    ensures ok == Scan(dir, n, id, 0).Some?
    ensures dirOffset == if ok then Scan(dir, n, id, 0).value * LOG_DIR_ENTRY_SIZE else 0
  {
    var lo, hi := 0, n;
    while lo < hi
      invariant 0 <= lo <= hi <= n
      invariant forall k | 0 <= k < lo :: Compare(LogIdAt(dir, n, k), id) < 0
      invariant forall k | hi <= k < n :: Compare(LogIdAt(dir, n, k), id) > 0
    {
      var mid := (lo + hi) / 2;
      var c := Compare(LogIdAt(dir, n, mid), id);
      if c < 0 {
        AllBelow(dir, n, id, mid);
        lo := mid + 1;
      } else if c > 0 {
        AllAbove(dir, n, id, mid);
        hi := mid;
      } else {
        FoundIsScan(dir, n, id, mid);
        return mid * LOG_DIR_ENTRY_SIZE, true;
      }
    }
    AbsentIsScan(dir, n, id, lo);
    return 0, false;
  }

  lemma {:induction false} AllBelow(dir: Bytes, n: nat, id: Bytes32, mid: nat)
    requires DirShape(dir, n) && AdjacentOrdered(dir, n) && mid < n && Compare(LogIdAt(dir, n, mid), id) < 0
    ensures forall k | 0 <= k <= mid :: Compare(LogIdAt(dir, n, k), id) < 0
  {
    forall k | 0 <= k < mid ensures Compare(LogIdAt(dir, n, k), id) < 0 {
      OrderLifts(dir, n, k, mid);
      CompareTransitive(LogIdAt(dir, n, k), LogIdAt(dir, n, mid), id);
    }
  }

  lemma {:induction false} AllAbove(dir: Bytes, n: nat, id: Bytes32, mid: nat)
    requires DirShape(dir, n) && AdjacentOrdered(dir, n) && mid < n && Compare(LogIdAt(dir, n, mid), id) > 0
    ensures forall k | mid <= k < n :: Compare(LogIdAt(dir, n, k), id) > 0
  {
    CompareAntisymmetric(id, LogIdAt(dir, n, mid));
    forall k | mid < k < n ensures Compare(LogIdAt(dir, n, k), id) > 0 {
      OrderLifts(dir, n, mid, k);
      CompareTransitive(id, LogIdAt(dir, n, mid), LogIdAt(dir, n, k));
      CompareAntisymmetric(id, LogIdAt(dir, n, k));
    }
  }

  lemma {:induction false} FoundIsScan(dir: Bytes, n: nat, id: Bytes32, mid: nat)
    requires DirShape(dir, n) && AdjacentOrdered(dir, n) && mid < n && Compare(LogIdAt(dir, n, mid), id) == 0
    ensures Scan(dir, n, id, 0) == Some(mid)
  {
    CompareEqual(LogIdAt(dir, n, mid), id);
    var r := Scan(dir, n, id, 0);
    if r.value != mid {
      var i, j := if r.value < mid then r.value else mid, if r.value < mid then mid else r.value;
      OrderLifts(dir, n, i, j);
      CompareEqual(id, id);
    }
  }

  lemma {:induction false} AbsentIsScan(dir: Bytes, n: nat, id: Bytes32, m: nat)
    requires DirShape(dir, n) && m <= n
    requires forall k | 0 <= k < m :: Compare(LogIdAt(dir, n, k), id) < 0
    requires forall k | m <= k < n :: Compare(LogIdAt(dir, n, k), id) > 0
    ensures Scan(dir, n, id, 0) == None
  {
    CompareEqual(id, id);
  }

  // ----- Entry sections -----

  datatype Span = Span(start: int, end: int)

  function SectionLength(dir: Bytes, n: nat, i: nat): nat
    requires DirShape(dir, n) && i < n
  {
    CountAt(dir, n, i) * ENTRY_SIZE
  }

  /** The section's extent as the validation computes it, in `int64`. */
  function SpanAt(dir: Bytes, n: nat, i: nat): Span
    requires DirShape(dir, n) && i < n
  {
    var start := Int64(OffsetAt(dir, n, i));
    Span(start, Int64(start + SectionLength(dir, n, i)))
  }

  predicate SpanInBounds(dir: Bytes, n: nat, i: nat, tablesEnd: nat, f: File)
    requires DirShape(dir, n) && i < n
  {
    SpanAt(dir, n, i).start >= tablesEnd && (f.sized ==> SpanAt(dir, n, i).end <= |f.data|)
  }

  /** The nonempty sections among entries `i` and up. */
  function SpansFrom(dir: Bytes, n: nat, i: nat): seq<Span>
    requires DirShape(dir, n) && i <= n
    decreases n - i
  {
    if i == n then []
    else (if SectionLength(dir, n, i) > 0 then [SpanAt(dir, n, i)] else []) + SpansFrom(dir, n, i + 1)
  }

  predicate Ascending(spans: seq<Span>) {
    forall i, j | 0 <= i < j < |spans| :: spans[i].start <= spans[j].start
  }

  type Sort = seq<Span> -> seq<Span>

  /** slices.SortFunc promises no order among spans of equal start, so all that is
      known of it is that it is some function that sorts. */
  ghost predicate IsSort(sort: Sort) {
    forall spans: seq<Span> :: multiset(sort(spans)) == multiset(spans) && Ascending(sort(spans))
  }

  predicate NeighboursApart(spans: seq<Span>) {
    forall i | 1 <= i < |spans| :: spans[i].start >= spans[i - 1].end
  }

  predicate SectionsValid(dir: Bytes, n: nat, tablesEnd: nat, f: File, sort: Sort)
    requires DirShape(dir, n)
  {
    && (forall i | 0 <= i < n :: SpanInBounds(dir, n, i, tablesEnd, f))
    && NeighboursApart(sort(SpansFrom(dir, n, 0)))
  }

  method ValidateEntrySections(f: File, dir: Bytes, n: nat, tablesEnd: nat, sort: Sort) returns (ok: bool)
    requires DirShape(dir, n)
    ensures ok == SectionsValid(dir, n, tablesEnd, f, sort)
  {
    var spans: seq<Span> := [];
    for i := 0 to n
      invariant forall k | 0 <= k < i :: SpanInBounds(dir, n, k, tablesEnd, f)
      invariant spans + SpansFrom(dir, n, i) == SpansFrom(dir, n, 0)
    {
      var entryOffset := Int64(OffsetAt(dir, n, i));
      var sectionLen := SectionLength(dir, n, i);
      if entryOffset < tablesEnd {
        assert !SpanInBounds(dir, n, i, tablesEnd, f);
        return false;
      }
      if f.sized && Int64(entryOffset + sectionLen) > |f.data| {
        assert !SpanInBounds(dir, n, i, tablesEnd, f);
        return false;
      }
      assert SpanInBounds(dir, n, i, tablesEnd, f);
      ghost var before := spans;
      if sectionLen > 0 {
        spans := spans + [Span(entryOffset, Int64(entryOffset + sectionLen))];
      }
      SpansStep(dir, n, i, before, spans);
    }
    assert spans + [] == spans;
    ok := CheckNeighbours(sort(spans));
  }

  method CheckNeighbours(sorted: seq<Span>) returns (ok: bool)
    ensures ok == NeighboursApart(sorted)
  {
    var i := 1;
    while i < |sorted|
      invariant 1 <= i
      invariant forall k | 1 <= k < i && k < |sorted| :: sorted[k].start >= sorted[k - 1].end
    {
      if sorted[i].start < sorted[i - 1].end {
        return false;
      }
      i := i + 1;
    }
    return true;
  }

  lemma {:induction false} SpansStep(dir: Bytes, n: nat, i: nat, before: seq<Span>, after: seq<Span>)
    requires DirShape(dir, n) && i < n
    requires after == if SectionLength(dir, n, i) > 0 then before + [SpanAt(dir, n, i)] else before
    ensures after + SpansFrom(dir, n, i + 1) == before + SpansFrom(dir, n, i)
  {}

  // ----- Filenames -----

  predicate AllowedChar(c: Byte) {
    65 <= c <= 90 || 97 <= c <= 122 || 48 <= c <= 57 || c == 45 || c == 46 || c == 95
  }

  predicate ValidFilename(name: Bytes) {
    name != [] && name != [46] && name != [46, 46] && forall i | 0 <= i < |name| :: AllowedChar(name[i])
  }

  method ValidateFilterFilename(name: Bytes) returns (ok: bool)
    ensures ok == ValidFilename(name)
  {
    if |name| == 0 || name == [46] || name == [46, 46] {
      return false;
    }
    for i := 0 to |name|
      invariant forall k | 0 <= k < i :: AllowedChar(name[k])
    {
      if !AllowedChar(name[i]) {
        return false;
      }
    }
    return true;
  }

  /** The slot up to its first zero byte. */
  function SlotName(slot: Bytes): Bytes {
    if slot == [] || slot[0] == 0 then [] else [slot[0]] + SlotName(slot[1..])
  }

  function SlotAt(table: Bytes, n: nat, i: nat): Bytes
    requires |table| == n * FILENAME_SIZE && i < n
  {
    table[i * FILENAME_SIZE..(i + 1) * FILENAME_SIZE]
  }

  function NamesOf(table: Bytes, n: nat): (names: seq<Bytes>)
    requires |table| == n * FILENAME_SIZE
    ensures |names| == n
  {
    seq(n, i requires 0 <= i < n => SlotName(SlotAt(table, n, i)))
  }

  // ----- Opening -----

  /** What an opened index holds in memory, and the file behind it. */
  datatype View = View(filenames: seq<Bytes>, logDir: Bytes, numLogs: nat, file: File) {
    predicate Valid() {
      DirShape(logDir, numLogs) && AdjacentOrdered(logDir, numLogs)
    }
  }

  datatype IndexResult<+T> = Good(value: T) | InvalidIndex

  function NumFilenames(header: Bytes): nat
    requires |header| == HEADER_SIZE
  {
    GetUint(header[8..10])
  }

  function NumLogs(header: Bytes): nat
    requires |header| == HEADER_SIZE
  {
    GetUint(header[10..14])
  }

  function Open(f: File, sort: Sort): (r: IndexResult<View>)
    ensures r.Good? ==> r.value.Valid()
  {
    match ReadAt(f, 0, HEADER_SIZE)
    case None => InvalidIndex
    case Some(header) =>
      if header[..8] != MAGIC then InvalidIndex else
        var k, n := NumFilenames(header), NumLogs(header);
        match ReadAt(f, HEADER_SIZE, k * FILENAME_SIZE + n * LOG_DIR_ENTRY_SIZE)
        case None => InvalidIndex
        case Some(tables) => OpenTables(f, k, n, tables, sort)
  }

  function OpenTables(f: File, k: nat, n: nat, tables: Bytes, sort: Sort): (r: IndexResult<View>)
    requires |tables| == k * FILENAME_SIZE + n * LOG_DIR_ENTRY_SIZE
    ensures r.Good? ==> r.value.Valid()
  {
    var names, dir := NamesOf(tables[..k * FILENAME_SIZE], k), tables[k * FILENAME_SIZE..];
    if && (forall i | 0 <= i < k :: ValidFilename(names[i]))
       && AdjacentOrdered(dir, n)
       && SectionsValid(dir, n, HEADER_SIZE + |tables|, f, sort)
    then Good(View(names, dir, n, f)) else InvalidIndex
  }

  method NewIndexFromReader(f: File, sort: Sort) returns (r: IndexResult<View>)
    ensures r == Open(f, sort)
  {
    var got := ReadAt(f, 0, HEADER_SIZE);
    if got.None? {
      return InvalidIndex;
    }
    var header := got.value;
    if header[..8] != MAGIC {
      return InvalidIndex;
    }
    var numFilenames, numLogs := NumFilenames(header), NumLogs(header);
    var filenamesLen := numFilenames * FILENAME_SIZE;
    var tablesLen := filenamesLen + numLogs * LOG_DIR_ENTRY_SIZE;
    var got2 := ReadAt(f, HEADER_SIZE, tablesLen);
    if got2.None? {
      return InvalidIndex;
    }
    var tables := got2.value;
    r := ValidateTables(f, numFilenames, numLogs, tables, sort);
  }

  method ValidateTables(f: File, k: nat, n: nat, tables: Bytes, sort: Sort) returns (r: IndexResult<View>)
    requires |tables| == k * FILENAME_SIZE + n * LOG_DIR_ENTRY_SIZE
    ensures r == OpenTables(f, k, n, tables, sort)
  {
    var filenamesBuf, logDir := tables[..k * FILENAME_SIZE], tables[k * FILENAME_SIZE..];
    var filenames: seq<Bytes> := [];
    for i := 0 to k
      invariant filenames == NamesOf(filenamesBuf, k)[..i]
      invariant forall j | 0 <= j < i :: ValidFilename(NamesOf(filenamesBuf, k)[j])
    {
      var name := SlotName(SlotAt(filenamesBuf, k, i));
      assert name == NamesOf(filenamesBuf, k)[i];
      var ok := ValidateFilterFilename(name);
      if !ok {
        return InvalidIndex;
      }
      filenames := filenames + [name];
    }
    assert filenames == NamesOf(filenamesBuf, k);
    var ordered := ValidateLogDirOrder(logDir, n);
    if !ordered {
      return InvalidIndex;
    }
    var apart := ValidateEntrySections(f, logDir, n, HEADER_SIZE + |tables|, sort);
    if !apart {
      return InvalidIndex;
    }
    return Good(View(filenames, logDir, n, f));
  }

  // ----- Lookup -----

  datatype Entry = Entry(filterIdx: nat, min: nat, max: nat)

  function EntryOf(buf: Bytes, n: nat, i: nat): Entry
    requires |buf| == n * ENTRY_SIZE && i < n
  {
    var off := i * ENTRY_SIZE;
    Entry(GetUint(buf[off..off + 2]), GetUint(buf[off + 2..off + 10]), GetUint(buf[off + 10..off + 18]))
  }

  function EntriesOf(buf: Bytes, n: nat): (entries: seq<Entry>)
    requires |buf| == n * ENTRY_SIZE
    ensures |entries| == n
  {
    seq(n, i requires 0 <= i < n => EntryOf(buf, n, i))
  }

  /** The names of the filters whose entries contain the instant, in order; any
      filter index out of range spoils the whole section. */
  function Select(filenames: seq<Bytes>, entries: seq<Entry>, timestamp: nat): IndexResult<seq<Bytes>> {
    if entries == [] then Good([])
    else
      var last := entries[|entries| - 1];
      match Select(filenames, entries[..|entries| - 1], timestamp)
      case InvalidIndex => InvalidIndex
      case Good(names) =>
        if last.filterIdx >= |filenames| then InvalidIndex
        else if last.min <= timestamp <= last.max then Good(names + [filenames[last.filterIdx]])
        else Good(names)
  }

  function LookupIn(v: View, id: Bytes32, timestamp: nat): IndexResult<seq<Bytes>>
    requires v.Valid()
  {
    match Scan(v.logDir, v.numLogs, id, 0)
    case None => Good([])
    case Some(i) =>
      var count := CountAt(v.logDir, v.numLogs, i);
      match ReadAt(v.file, Int64(OffsetAt(v.logDir, v.numLogs, i)), count * ENTRY_SIZE)
      case None => InvalidIndex
      case Some(buf) => Select(v.filenames, EntriesOf(buf, count), timestamp)
  }

  lemma {:induction false} SelectStops(filenames: seq<Bytes>, entries: seq<Entry>, n: nat, timestamp: nat)
    requires n <= |entries| && Select(filenames, entries[..n], timestamp) == InvalidIndex
    ensures Select(filenames, entries, timestamp) == InvalidIndex
    decreases |entries| - n
  {
    if n < |entries| {
      assert entries[..n + 1][..n] == entries[..n];
      SelectStops(filenames, entries, n + 1, timestamp);
    } else {
      assert entries[..n] == entries;
    }
  }

  method Lookup(v: View, id: Bytes32, timestamp: nat) returns (r: IndexResult<seq<Bytes>>)
    requires v.Valid()
    ensures r == LookupIn(v, id, timestamp)
  {
    var dirOffset, ok := FindLog(v.logDir, v.numLogs, id);
    if !ok {
      return Good([]);
    }
    ghost var i := Scan(v.logDir, v.numLogs, id, 0).value;
    var entryOffset := GetUint(v.logDir[dirOffset + 32..dirOffset + 40]);
    var count := GetUint(v.logDir[dirOffset + 40..dirOffset + 42]);
    assert entryOffset == OffsetAt(v.logDir, v.numLogs, i) && count == CountAt(v.logDir, v.numLogs, i);
    var got := ReadAt(v.file, Int64(entryOffset), count * ENTRY_SIZE);
    if got.None? {
      return InvalidIndex;
    }
    r := SelectEntries(v.filenames, got.value, count, timestamp);
  }

  /** The entry loop of `Lookup`. */
  method SelectEntries(names: seq<Bytes>, buf: Bytes, count: nat, timestamp: nat) returns (r: IndexResult<seq<Bytes>>)
    requires |buf| == count * ENTRY_SIZE
    ensures r == Select(names, EntriesOf(buf, count), timestamp)
  {
    ghost var entries := EntriesOf(buf, count);
    var filenames: seq<Bytes> := [];
    for k := 0 to count
      invariant Select(names, entries[..k], timestamp) == Good(filenames)
    {
      assert entries[..k + 1][..k] == entries[..k];
      var e := EntryOf(buf, count, k);
      assert entries[k] == e;
      if e.filterIdx >= |names| {
        SelectStops(names, entries, k + 1, timestamp);
        return InvalidIndex;
      }
      if e.min > timestamp || timestamp > e.max {
        continue;
      }
      filenames := filenames + [names[e.filterIdx]];
    }
    assert entries[..count] == entries;
    return Good(filenames);
  }

  // ----- Ownership of the underlying reader -----

  /** The reader's own `io.Closer`. */
  class Closer {
    var closes: nat

    constructor ()
      ensures closes == 0
    {
      closes := 0;
    }

    method Close()
      modifies this
      ensures closes == old(closes) + 1
    {
      closes := closes + 1;
    }
  }

  class Index {
    const view: View
    var closer: Closer?

    constructor (view: View, closer: Closer?)
      ensures this.view == view && this.closer == closer
    {
      this.view := view;
      this.closer := closer;
    }

    /** Releases the closer, once: a second call finds none. */
    method Close()
      modifies this, closer
      ensures closer == null
      ensures old(closer) != null ==> old(closer).closes == old(if closer == null then 0 else closer.closes) + 1
    {
      if closer == null {
        return;
      }
      closer.Close();
      closer := null;
    }
  }
}
