/** The index format in terms of the file's own bytes: which files open, to what, and
    what a lookup finds. */
module IndexFormat {
  import opened ByteStrings
  import opened UpkiIndex
  import opened IndexSections
  import opened Wrappers

  // ----- Filenames -----

  /** The bytes of an ASCII text. */
  function Ascii(text: string): (s: Bytes)
    requires forall i | 0 <= i < |text| :: text[i] as int < 128
    ensures |s| == |text|
  {
    seq(|text|, i requires 0 <= i < |text| => text[i] as int)
  }

  const CAPITALS := "ABCDEFGHIJKLMNOPQRSTUVWXYZ"
  const LETTERS := "abcdefghijklmnopqrstuvwxyz"
  const FIGURES := "0123456789"
  const MARKS := "-._"

  predicate Spelled(c: Byte, text: string) {
    exists i | 0 <= i < |text| :: text[i] as int == c
  }

  predicate InAlphabet(c: Byte) {
    Spelled(c, CAPITALS) || Spelled(c, LETTERS) || Spelled(c, FIGURES) || Spelled(c, MARKS)
  }

  /** What the index format allows as the name of a filter file. */
  predicate LegalName(name: Bytes) {
    && 1 <= |name| <= 32 && name != Ascii(".") && name != Ascii("..")
    && forall i | 0 <= i < |name| :: InAlphabet(name[i])
  }

  lemma {:induction false} CapitalsAt(i: nat)
    requires i < 26
    ensures |CAPITALS| == 26 && CAPITALS[i] as int == 65 + i
  {}

  lemma {:induction false} LettersAt(i: nat)
    requires i < 26
    ensures |LETTERS| == 26 && LETTERS[i] as int == 97 + i
  {}

  lemma {:induction false} FiguresAt(i: nat)
    requires i < 10
    ensures |FIGURES| == 10 && FIGURES[i] as int == 48 + i
  {}

  lemma {:induction false} AlphabetAllowed(c: Byte)
    ensures AllowedChar(c) <==> InAlphabet(c)
  {
    if 65 <= c <= 90 {
      CapitalsAt(c - 65);
    }
    if 97 <= c <= 122 {
      LettersAt(c - 97);
    }
    if 48 <= c <= 57 {
      FiguresAt(c - 48);
    }
    assert MARKS[0] as int == 45 && MARKS[1] as int == 46 && MARKS[2] as int == 95;
    if i :| 0 <= i < |CAPITALS| && CAPITALS[i] as int == c {
      CapitalsAt(i);
    }
    if i :| 0 <= i < |LETTERS| && LETTERS[i] as int == c {
      LettersAt(i);
    }
    if i :| 0 <= i < |FIGURES| && FIGURES[i] as int == c {
      FiguresAt(i);
    }
  }

  /** The source's checks admit exactly the legal names. */
  lemma {:induction false} LegalIffValid(name: Bytes)
    ensures LegalName(name) <==> ValidFilename(name) && |name| <= 32
  {
    assert Ascii(".") == [46] && Ascii("..") == [46, 46];
    forall c: Byte ensures AllowedChar(c) <==> InAlphabet(c) {
      AlphabetAllowed(c);
    }
  }

  /** In particular no legal name can leave the cache directory. */
  lemma {:induction false} LegalNamesStay(name: Bytes)
    requires LegalName(name)
    ensures forall i | 0 <= i < |name| :: name[i] != 0 && name[i] != '/' as int && name[i] != '\\' as int
  {
    LegalIffValid(name);
  }

  /** The name a slot holds: its bytes up to the first zero byte, or all of them. */
  predicate NameInSlot(name: Bytes, slot: Bytes) {
    && |name| <= |slot| && slot[..|name|] == name && 0 !in name
    && (|name| < |slot| ==> slot[|name|] == 0)
  }

  lemma {:induction false} SlotNameInSlot(slot: Bytes)
    ensures NameInSlot(SlotName(slot), slot)
  {
    if slot != [] && slot[0] != 0 {
      SlotNameInSlot(slot[1..]);
      assert slot == [slot[0]] + slot[1..];
    }
  }

  lemma {:induction false} OneNameInSlot(a: Bytes, b: Bytes, slot: Bytes)
    requires NameInSlot(a, slot) && NameInSlot(b, slot)
    ensures a == b
  {
    forall i | 0 <= i < |a| ensures slot[i] != 0 {
      assert slot[..|a|][i] == a[i] && a[i] in a;
    }
    forall i | 0 <= i < |b| ensures slot[i] != 0 {
      assert slot[..|b|][i] == b[i] && b[i] in b;
    }
  }

  // ----- Tables and sections -----

  /** The header's two counts. */
  function Filters(data: Bytes): nat
    requires |data| >= 14
  {
    GetUint(data[8..10])
  }

  function Logs(data: Bytes): nat
    requires |data| >= 14
  {
    GetUint(data[10..14])
  }

  predicate HasTables(data: Bytes) {
    |data| >= 14 && 14 + 32 * Filters(data) + 42 * Logs(data) <= |data|
  }

  function NameTable(data: Bytes): (t: Bytes)
    requires HasTables(data)
    ensures |t| == 32 * Filters(data)
  {
    data[14..14 + 32 * Filters(data)]
  }

  function Directory(data: Bytes): (d: Bytes)
    requires HasTables(data)
    ensures |d| == 42 * Logs(data)
  {
    data[14 + 32 * Filters(data)..14 + 32 * Filters(data) + 42 * Logs(data)]
  }

  function Id(dir: Bytes, i: nat): (id: Bytes)
    requires 42 * i + 42 <= |dir|
    ensures |id| == 32
  {
    dir[42 * i..42 * i + 32]
  }

  function Offset(dir: Bytes, i: nat): nat
    requires 42 * i + 42 <= |dir|
  {
    GetUint(dir[42 * i + 32..42 * i + 40])
  }

  function Entries(dir: Bytes, i: nat): nat
    requires 42 * i + 42 <= |dir|
  {
    GetUint(dir[42 * i + 40..42 * i + 42])
  }

  function End(dir: Bytes, i: nat): nat
    requires 42 * i + 42 <= |dir|
  {
    Offset(dir, i) + 18 * Entries(dir, i)
  }

  ghost predicate HoldsLegalName(slot: Bytes) {
    exists name :: NameInSlot(name, slot) && LegalName(name)
  }

  function NameSlot(table: Bytes, i: nat): Bytes
    requires 32 * i + 32 <= |table|
  {
    table[32 * i..32 * i + 32]
  }

  ghost predicate NamesLegal(table: Bytes, k: nat)
    requires |table| == 32 * k
  {
    forall i: nat | i < k :: HoldsLegalName(NameSlot(table, i))
  }

  predicate LogsAscend(dir: Bytes, n: nat)
    requires |dir| == 42 * n
  {
    forall i: nat | 1 <= i < n :: Before(Id(dir, i - 1), Id(dir, i))
  }

  /** Every section, empty or not, starts behind the tables and, if the size is known,
      ends within the file. */
  predicate SectionsLie(dir: Bytes, n: nat, tablesEnd: nat, f: File)
    requires |dir| == 42 * n
  {
    forall i: nat | i < n :: tablesEnd <= Offset(dir, i) < TWO63 && (f.sized ==> End(dir, i) <= |f.data|)
  }

  predicate SectionsApart(dir: Bytes, n: nat)
    requires |dir| == 42 * n
  {
    forall i: nat, j: nat | i < j < n && Entries(dir, i) > 0 && Entries(dir, j) > 0 ::
      End(dir, i) <= Offset(dir, j) || End(dir, j) <= Offset(dir, i)
  }

  /** What the source takes for granted: no section runs across the largest int64. */
  predicate NoneStraddles(dir: Bytes, n: nat)
    requires |dir| == 42 * n
  {
    forall i: nat | i < n :: Offset(dir, i) < TWO63 ==> End(dir, i) < TWO63
  }

  ghost predicate TablesWellFormed(f: File, k: nat, n: nat, names: Bytes, dir: Bytes)
    requires |names| == 32 * k && |dir| == 42 * n
  {
    NamesLegal(names, k) && LogsAscend(dir, n) && SectionsLie(dir, n, 14 + 32 * k + 42 * n, f) && SectionsApart(dir, n)
  }

  /** The index format. */
  ghost predicate WellFormed(f: File) {
    && |f.data| >= 8 && f.data[..8] == Ascii("upkiidx1")
    && HasTables(f.data)
    && TablesWellFormed(f, Filters(f.data), Logs(f.data), NameTable(f.data), Directory(f.data))
  }

  // ----- Which files open -----

  lemma {:induction false} OneSlot(table: Bytes, k: nat, i: nat)
    requires |table| == 32 * k && i < k
    ensures NameInSlot(NamesOf(table, k)[i], NameSlot(table, i))
    ensures HoldsLegalName(NameSlot(table, i)) <==> ValidFilename(NamesOf(table, k)[i])
  {
    var slot := NameSlot(table, i);
    assert SlotAt(table, k, i) == slot;
    SlotNameInSlot(slot);
    LegalIffValid(SlotName(slot));
    if name :| NameInSlot(name, slot) && LegalName(name) {
      OneNameInSlot(name, SlotName(slot), slot);
    }
  }

  lemma {:induction false} NamesMatch(table: Bytes, k: nat)
    requires |table| == 32 * k
    ensures NamesLegal(table, k) <==> forall i | 0 <= i < k :: ValidFilename(NamesOf(table, k)[i])
    ensures forall i: nat | i < k :: NameInSlot(NamesOf(table, k)[i], NameSlot(table, i))
  {
    forall i: nat | i < k
      ensures NameInSlot(NamesOf(table, k)[i], NameSlot(table, i))
      ensures HoldsLegalName(NameSlot(table, i)) <==> ValidFilename(NamesOf(table, k)[i])
    {
      OneSlot(table, k, i);
    }
  }

  lemma {:induction false} OrderMatches(dir: Bytes, n: nat)
    requires |dir| == 42 * n
    ensures LogsAscend(dir, n) <==> AdjacentOrdered(dir, n)
  {
    forall i: nat | 1 <= i < n
      ensures Before(Id(dir, i - 1), Id(dir, i)) <==> Compare(LogIdAt(dir, n, i - 1), LogIdAt(dir, n, i)) < 0
    {
      CompareIsLexicographic(Id(dir, i - 1), Id(dir, i));
    }
  }

  lemma {:induction false} FieldsMatch(dir: Bytes, n: nat, i: nat)
    requires |dir| == 42 * n && i < n
    ensures LogIdAt(dir, n, i) == Id(dir, i)
    ensures OffsetAt(dir, n, i) == Offset(dir, i) < 2 * TWO63 && CountAt(dir, n, i) == Entries(dir, i) < 0x1_0000
    ensures SectionLength(dir, n, i) == 18 * Entries(dir, i) && SectionEnd(dir, n, i) == End(dir, i)
  {
    Pow256Values();
  }

  /** The bounds of one section, when it does not run across the largest int64. */
  lemma {:induction false} BoundsMatch(dir: Bytes, n: nat, i: nat, tablesEnd: nat, f: File)
    requires |dir| == 42 * n && i < n && (Offset(dir, i) < TWO63 ==> End(dir, i) < TWO63)
    ensures SpanInBounds(dir, n, i, tablesEnd, f)
       <==> tablesEnd <= Offset(dir, i) < TWO63 && (f.sized ==> End(dir, i) <= |f.data|)
    ensures Offset(dir, i) < TWO63 ==> SpanAt(dir, n, i) == Span(Offset(dir, i), End(dir, i))
  {
    FieldsMatch(dir, n, i);
    if Offset(dir, i) < TWO63 {
      Int64Small(Offset(dir, i));
      Int64Small(End(dir, i));
    } else {
      Int64Large(Offset(dir, i));
    }
  }

  predicate Ascends(ks: seq<nat>) {
    forall a, b | 0 <= a < b < |ks| :: ks[a] < ks[b]
  }

  /** The entries with a nonempty section, from entry `from` on. */
  function Sources(dir: Bytes, n: nat, from: nat): seq<nat>
    requires DirShape(dir, n) && from <= n
    decreases n - from
  {
    if from == n then []
    else (if SectionLength(dir, n, from) > 0 then [from] else []) + Sources(dir, n, from + 1)
  }

  lemma {:induction false} SourcesAscend(dir: Bytes, n: nat, from: nat)
    requires DirShape(dir, n) && from <= n
    ensures Ascends(Sources(dir, n, from))
    ensures forall p | 0 <= p < |Sources(dir, n, from)| ::
              from <= Sources(dir, n, from)[p] < n && SectionLength(dir, n, Sources(dir, n, from)[p]) > 0
    decreases n - from
  {
    if from < n {
      SourcesAscend(dir, n, from + 1);
      var later := Sources(dir, n, from + 1);
      FirstAscends(from, later);
      assert Sources(dir, n, from) == if SectionLength(dir, n, from) > 0 then [from] + later else later;
    }
  }

  lemma {:induction false} FirstAscends(k: nat, ks: seq<nat>)
    requires Ascends(ks) && forall p | 0 <= p < |ks| :: k < ks[p]
    ensures Ascends([k] + ks)
  {}

  lemma {:induction false} SpansOfSources(dir: Bytes, n: nat, from: nat)
    requires DirShape(dir, n) && from <= n
    ensures |SpansFrom(dir, n, from)| == |Sources(dir, n, from)|
    ensures forall p | 0 <= p < |Sources(dir, n, from)| ::
              Sources(dir, n, from)[p] < n && SpansFrom(dir, n, from)[p] == SpanAt(dir, n, Sources(dir, n, from)[p])
    decreases n - from
  {
    if from < n {
      SpansOfSources(dir, n, from + 1);
    }
  }

  /** Sections that are apart pass the neighbour check, whatever the sort. */
  lemma {:induction false} ApartPasses(dir: Bytes, n: nat, sort: Sort)
    requires |dir| == 42 * n && IsSort(sort) && SectionsApart(dir, n)
    requires forall i: nat | i < n :: Offset(dir, i) < TWO63 && End(dir, i) < TWO63
    ensures NeighboursApart(sort(SpansFrom(dir, n, 0)))
  {
    var spans, sources := SpansFrom(dir, n, 0), Sources(dir, n, 0);
    SourcesAscend(dir, n, 0);
    SpansOfSources(dir, n, 0);
    forall p, q | 0 <= p < q < |spans| ensures spans[p].end <= spans[q].start || spans[q].end <= spans[p].start {
      var i, j := sources[p], sources[q];
      FieldsMatch(dir, n, i);
      FieldsMatch(dir, n, j);
      BoundsMatch(dir, n, i, 0, File([], false));
      BoundsMatch(dir, n, j, 0, File([], false));
    }
    forall p | 0 <= p < |spans| ensures spans[p].start < spans[p].end {
      var i := sources[p];
      FieldsMatch(dir, n, i);
      BoundsMatch(dir, n, i, 0, File([], false));
    }
    ApartInAnyOrder(spans, sort(spans));
  }

  /** The source's section checks, in the format's terms. */
  lemma {:induction false} SectionsMatch(dir: Bytes, n: nat, tablesEnd: nat, f: File, sort: Sort)
    requires |dir| == 42 * n && IsSort(sort) && NoneStraddles(dir, n)
    ensures SectionsValid(dir, n, tablesEnd, f, sort) <==> SectionsLie(dir, n, tablesEnd, f) && SectionsApart(dir, n)
  {
    forall i: nat | i < n
      ensures SpanInBounds(dir, n, i, tablesEnd, f)
         <==> tablesEnd <= Offset(dir, i) < TWO63 && (f.sized ==> End(dir, i) <= |f.data|)
    {
      BoundsMatch(dir, n, i, tablesEnd, f);
    }
    if SectionsLie(dir, n, tablesEnd, f) && SectionsApart(dir, n) {
      ApartPasses(dir, n, sort);
    }
    if SectionsValid(dir, n, tablesEnd, f, sort) {
      ValidApart(dir, n, tablesEnd, f, sort);
    }
  }

  lemma {:induction false} ValidApart(dir: Bytes, n: nat, tablesEnd: nat, f: File, sort: Sort)
    requires |dir| == 42 * n && IsSort(sort) && NoneStraddles(dir, n) && SectionsValid(dir, n, tablesEnd, f, sort)
    ensures SectionsApart(dir, n)
  {
    forall i: nat | i < n
      ensures SectionLength(dir, n, i) == 18 * Entries(dir, i) && SectionEnd(dir, n, i) == End(dir, i) < TWO63
      ensures OffsetAt(dir, n, i) == Offset(dir, i)
    {
      assert SpanInBounds(dir, n, i, tablesEnd, f);
      FieldsMatch(dir, n, i);
      BoundsMatch(dir, n, i, tablesEnd, f);
    }
    DisjointIffOverflowsLast(dir, n, tablesEnd, f, sort);
  }

  /** Opening the tables, in their own terms. */
  lemma {:induction false} TablesChecked(f: File, k: nat, n: nat, names: Bytes, dir: Bytes, sort: Sort)
    requires |names| == 32 * k && |dir| == 42 * n
    ensures OpenTables(f, k, n, names + dir, sort)
         == if && (forall i | 0 <= i < k :: ValidFilename(NamesOf(names, k)[i]))
               && AdjacentOrdered(dir, n) && SectionsValid(dir, n, 14 + 32 * k + 42 * n, f, sort)
            then Good(View(NamesOf(names, k), dir, n, f)) else InvalidIndex
  {
    assert (names + dir)[..k * 32] == names && (names + dir)[k * 32..] == dir;
  }

  lemma {:induction false} TablesMatch(f: File, k: nat, n: nat, names: Bytes, dir: Bytes, sort: Sort)
    requires |names| == 32 * k && |dir| == 42 * n && IsSort(sort) && NoneStraddles(dir, n)
    ensures OpenTables(f, k, n, names + dir, sort).Good? <==> TablesWellFormed(f, k, n, names, dir)
  {
    TablesChecked(f, k, n, names, dir, sort);
    NamesMatch(names, k);
    OrderMatches(dir, n);
    SectionsMatch(dir, n, 14 + 32 * k + 42 * n, f, sort);
  }

  /** The header and the tables as the source reads them. */
  lemma {:induction false} OpenReadsTables(f: File, sort: Sort)
    ensures Open(f, sort)
         == if |f.data| >= 8 && f.data[..8] == Ascii("upkiidx1") && HasTables(f.data)
            then OpenTables(f, Filters(f.data), Logs(f.data), NameTable(f.data) + Directory(f.data), sort)
            else InvalidIndex
  {
    assert Ascii("upkiidx1") == MAGIC;
    if |f.data| >= 14 {
      var header := f.data[0..14];
      assert header[..8] == f.data[..8] && header[8..10] == f.data[8..10] && header[10..14] == f.data[10..14];
      if HasTables(f.data) {
        var size := 32 * Filters(f.data) + 42 * Logs(f.data);
        assert f.data[14..14 + size] == NameTable(f.data) + Directory(f.data);
      }
    }
  }

  /** Opening accepts exactly the well-formed indexes, apart from those with a section
      that runs across the largest int64, whatever the sort. */
  lemma {:induction false} OpensIffWellFormed(f: File, sort: Sort)
    requires IsSort(sort) && (HasTables(f.data) ==> NoneStraddles(Directory(f.data), Logs(f.data)))
    ensures Open(f, sort).Good? <==> WellFormed(f)
  {
    OpenReadsTables(f, sort);
    if HasTables(f.data) {
      TablesMatch(f, Filters(f.data), Logs(f.data), NameTable(f.data), Directory(f.data), sort);
    }
  }

  /** The view holds what the tables say, checked. */
  ghost predicate Holds(v: View, f: File, k: nat, n: nat, names: Bytes, dir: Bytes)
    requires |names| == 32 * k && |dir| == 42 * n
  {
    && v.file == f && v.logDir == dir && v.numLogs == n && |v.filenames| == k
    && (forall i: nat | i < k :: NameInSlot(v.filenames[i], NameSlot(names, i)) && LegalName(v.filenames[i]))
    && LogsAscend(dir, n)
    && (forall i: nat | i < n :: 14 + 32 * k + 42 * n <= Offset(dir, i) < TWO63)
  }

  lemma {:induction false} TablesHeld(f: File, k: nat, n: nat, names: Bytes, dir: Bytes, sort: Sort)
    requires |names| == 32 * k && |dir| == 42 * n && OpenTables(f, k, n, names + dir, sort).Good?
    ensures Holds(OpenTables(f, k, n, names + dir, sort).value, f, k, n, names, dir)
  {
    TablesChecked(f, k, n, names, dir, sort);
    NamesMatch(names, k);
    OrderMatches(dir, n);
    forall i: nat | i < k ensures LegalName(NamesOf(names, k)[i]) {
      LegalIffValid(NamesOf(names, k)[i]);
      OneSlot(names, k, i);
    }
    forall i: nat | i < n ensures 14 + 32 * k + 42 * n <= Offset(dir, i) < TWO63 {
      assert SpanInBounds(dir, n, i, 14 + 32 * k + 42 * n, f);
      AcceptedStart(dir, n, i, 14 + 32 * k + 42 * n, f);
      FieldsMatch(dir, n, i);
    }
  }

  /** Any file that opens starts with the magic text and has legal names, ascending
      logs and sections behind the tables; the view holds what the file says. */
  lemma {:induction false} OpenedView(f: File, sort: Sort)
    requires Open(f, sort).Good?
    ensures |f.data| >= 8 && f.data[..8] == Ascii("upkiidx1") && HasTables(f.data)
    ensures Holds(Open(f, sort).value, f, Filters(f.data), Logs(f.data), NameTable(f.data), Directory(f.data))
  {
    OpenReadsTables(f, sort);
    TablesHeld(f, Filters(f.data), Logs(f.data), NameTable(f.data), Directory(f.data), sort);
  }

  // ----- What a lookup finds -----

  /** The section of `count` entries at `offset` can be read in full. */
  predicate Readable(f: File, offset: nat, count: nat) {
    offset < TWO63 && (count == 0 || offset + 18 * count <= |f.data|)
  }

  /** Entry `k` of the section at `offset`: filter index, first and last instant. */
  function FilterIndex(data: Bytes, offset: nat, k: nat): nat
    requires offset + 18 * k + 18 <= |data|
  {
    GetUint(data[offset + 18 * k..offset + 18 * k + 2])
  }

  predicate Contains(data: Bytes, offset: nat, k: nat, instant: nat)
    requires offset + 18 * k + 18 <= |data|
  {
    GetUint(data[offset + 18 * k + 2..offset + 18 * k + 10]) <= instant
      <= GetUint(data[offset + 18 * k + 10..offset + 18 * k + 18])
  }

  /** The section cannot be read, or names a filter that does not exist. */
  predicate Broken(v: View, offset: nat, count: nat) {
    || !Readable(v.file, offset, count)
    || exists k: nat | k < count :: FilterIndex(v.file.data, offset, k) >= |v.filenames|
  }

  /** `names` are those of exactly the entries that contain the instant, in order. */
  ghost predicate Matches(names: seq<Bytes>, v: View, offset: nat, count: nat, instant: nat)
    requires !Broken(v, offset, count)
  {
    exists ks: seq<nat> :: MatchesAt(names, v, offset, count, instant, ks)
  }

  ghost predicate MatchesAt(names: seq<Bytes>, v: View, offset: nat, count: nat, instant: nat, ks: seq<nat>)
    requires !Broken(v, offset, count)
  {
    && Ascends(ks) && |names| == |ks|
    && (forall k: nat :: k in ks <==> k < count && Contains(v.file.data, offset, k, instant))
    && (forall a | 0 <= a < |ks| :: ks[a] < count && names[a] == v.filenames[FilterIndex(v.file.data, offset, ks[a])])
  }

  /** The entries `Select` picks. */
  ghost predicate Picks(ks: seq<nat>, filenames: seq<Bytes>, entries: seq<Entry>, instant: nat, names: seq<Bytes>) {
    && Ascends(ks) && |names| == |ks|
    && (forall k: nat :: k in ks <==> k < |entries| && entries[k].min <= instant <= entries[k].max)
    && (forall a | 0 <= a < |ks| :: ks[a] < |entries| && entries[ks[a]].filterIdx < |filenames|
                                 && names[a] == filenames[entries[ks[a]].filterIdx])
  }

  lemma {:induction false} PickNext(ks: seq<nat>, filenames: seq<Bytes>, entries: seq<Entry>, instant: nat, names: seq<Bytes>)
    requires entries != [] && Picks(ks, filenames, entries[..|entries| - 1], instant, names)
    requires entries[|entries| - 1].filterIdx < |filenames|
    ensures var n := |entries| - 1;
            if entries[n].min <= instant <= entries[n].max
            then Picks(ks + [n], filenames, entries, instant, names + [filenames[entries[n].filterIdx]])
            else Picks(ks, filenames, entries, instant, names)
  {
    var n, front := |entries| - 1, entries[..|entries| - 1];
    assert forall k | 0 <= k < n :: front[k] == entries[k];
    forall a | 0 <= a < |ks| ensures ks[a] < n {
      assert ks[a] in ks;
    }
    var hit := entries[n].min <= instant <= entries[n].max;
    forall k: nat ensures k in (if hit then ks + [n] else ks) <==> k < |entries| && entries[k].min <= instant <= entries[k].max {
      assert k in ks <==> k < n && front[k].min <= instant <= front[k].max;
    }
  }

  lemma {:induction false} SelectInvalid(filenames: seq<Bytes>, entries: seq<Entry>, instant: nat)
    ensures Select(filenames, entries, instant).InvalidIndex?
       <==> exists k | 0 <= k < |entries| :: entries[k].filterIdx >= |filenames|
  {
    if entries != [] {
      var front := entries[..|entries| - 1];
      SelectInvalid(filenames, front, instant);
      if k :| 0 <= k < |front| && front[k].filterIdx >= |filenames| {
        assert entries[k].filterIdx >= |filenames|;
      }
      if k :| 0 <= k < |entries| && entries[k].filterIdx >= |filenames| {
        assert k < |front| ==> front[k].filterIdx >= |filenames|;
      }
    }
  }

  lemma {:induction false} SelectPicks(filenames: seq<Bytes>, entries: seq<Entry>, instant: nat) returns (ks: seq<nat>)
    requires Select(filenames, entries, instant).Good?
    ensures Picks(ks, filenames, entries, instant, Select(filenames, entries, instant).value)
  {
    ks := [];
    if entries != [] {
      var n, front := |entries| - 1, entries[..|entries| - 1];
      ks := SelectPicks(filenames, front, instant);
      PickNext(ks, filenames, entries, instant, Select(filenames, front, instant).value);
      if entries[n].min <= instant <= entries[n].max {
        ks := ks + [n];
      }
    }
  }

  lemma {:induction false} EntryMatches(data: Bytes, offset: nat, count: nat, k: nat)
    requires offset + 18 * count <= |data| && k < count
    ensures var e := EntriesOf(data[offset..offset + 18 * count], count)[k];
            && e.filterIdx == FilterIndex(data, offset, k)
            && forall instant: nat :: e.min <= instant <= e.max <==> Contains(data, offset, k, instant)
  {
    var buf, at := data[offset..offset + 18 * count], 18 * k;
    SubSlice(data, offset, buf, at, at + 2);
    SubSlice(data, offset, buf, at + 2, at + 10);
    SubSlice(data, offset, buf, at + 10, at + 18);
  }

  lemma {:induction false} SectionMatches(v: View, offset: nat, count: nat, instant: nat)
    requires count > 0 && Readable(v.file, offset, count)
    ensures var r := Select(v.filenames, EntriesOf(v.file.data[offset..offset + 18 * count], count), instant);
            && (r.InvalidIndex? <==> Broken(v, offset, count))
            && (r.Good? ==> Matches(r.value, v, offset, count, instant))
  {
    var data := v.file.data;
    var entries := EntriesOf(data[offset..offset + 18 * count], count);
    forall k: nat | k < count
      ensures entries[k].filterIdx == FilterIndex(data, offset, k)
      ensures entries[k].min <= instant <= entries[k].max <==> Contains(data, offset, k, instant)
    {
      EntryMatches(data, offset, count, k);
    }
    SelectInvalid(v.filenames, entries, instant);
    var r := Select(v.filenames, entries, instant);
    if k: nat :| k < count && FilterIndex(data, offset, k) >= |v.filenames| {
      assert entries[k].filterIdx >= |v.filenames|;
    }
    if r.Good? {
      var ks := SelectPicks(v.filenames, entries, instant);
      assert MatchesAt(r.value, v, offset, count, instant, ks);
    }
  }

  /** A lookup is invalid if and only if the log is listed and its section cannot be
      read in full or names a filter that does not exist, in any entry and whatever
      the instant.  Otherwise it gives the names of exactly the entries that contain
      the instant, in order and with multiplicity, and none for a log not listed. */
  lemma {:induction false} LookupExact(v: View, id: Bytes32, instant: nat)
    requires v.Valid()
    ensures LookupIn(v, id, instant).InvalidIndex?
       <==> exists i: nat | i < v.numLogs :: Id(v.logDir, i) == id && Broken(v, Offset(v.logDir, i), Entries(v.logDir, i))
    ensures LookupIn(v, id, instant).Good? ==>
              var names := LookupIn(v, id, instant).value;
              && ((forall i: nat | i < v.numLogs :: Id(v.logDir, i) != id) ==> names == [])
              && (forall i: nat | i < v.numLogs && Id(v.logDir, i) == id ::
                    && !Broken(v, Offset(v.logDir, i), Entries(v.logDir, i))
                    && Matches(names, v, Offset(v.logDir, i), Entries(v.logDir, i), instant))
  {
    var r := Scan(v.logDir, v.numLogs, id, 0);
    forall i: nat | i < v.numLogs ensures Id(v.logDir, i) == id <==> r == Some(i) {
      FieldsMatch(v.logDir, v.numLogs, i);
      if Id(v.logDir, i) == id {
        CompareEqual(LogIdAt(v.logDir, v.numLogs, i), id);
        FoundIsScan(v.logDir, v.numLogs, id, i);
      }
    }
    if r.Some? {
      ListedLookup(v, id, instant, r.value);
    }
  }

  /** What a section, once located, gives. */
  function SectionResult(v: View, offset: nat, count: nat, instant: nat): IndexResult<seq<Bytes>> {
    if count == 0 && offset < TWO63 then Good([])
    else if !Readable(v.file, offset, count) then InvalidIndex
    else Select(v.filenames, EntriesOf(v.file.data[offset..offset + 18 * count], count), instant)
  }

  lemma {:induction false} SectionReadAt(v: View, offset: nat, count: nat, instant: nat)
    requires offset < 2 * TWO63
    ensures SectionResult(v, offset, count, instant)
         == match ReadAt(v.file, Int64(offset), count * ENTRY_SIZE)
            case None => InvalidIndex
            case Some(buf) => Select(v.filenames, EntriesOf(buf, count), instant)
  {
    if offset < TWO63 {
      Int64Small(offset);
    } else {
      Int64Large(offset);
    }
  }

  lemma {:induction false} SectionGives(v: View, offset: nat, count: nat, instant: nat)
    ensures var r := SectionResult(v, offset, count, instant);
            && (r.InvalidIndex? <==> Broken(v, offset, count))
            && (r.Good? ==> Matches(r.value, v, offset, count, instant))
  {
    if count == 0 && offset < TWO63 {
      EmptySection(v, offset, instant);
    } else if Readable(v.file, offset, count) {
      SectionMatches(v, offset, count, instant);
    }
  }

  lemma {:induction false} ListedLookup(v: View, id: Bytes32, instant: nat, i: nat)
    requires v.Valid() && i < v.numLogs && Scan(v.logDir, v.numLogs, id, 0) == Some(i)
    ensures var offset, count, r := Offset(v.logDir, i), Entries(v.logDir, i), LookupIn(v, id, instant);
            && (r.InvalidIndex? <==> Broken(v, offset, count))
            && (r.Good? ==> Matches(r.value, v, offset, count, instant))
  {
    var offset, count := Offset(v.logDir, i), Entries(v.logDir, i);
    FieldsMatch(v.logDir, v.numLogs, i);
    SectionReadAt(v, offset, count, instant);
    SectionGives(v, offset, count, instant);
  }

  lemma {:induction false} EmptySection(v: View, offset: nat, instant: nat)
    requires offset < TWO63
    ensures !Broken(v, offset, 0) && Matches([], v, offset, 0, instant)
  {
    assert MatchesAt([], v, offset, 0, instant, []);
  }
}
