/** Where the entry sections of an accepted index lie. */
module IndexSections {
  import opened Arithmetic
  import opened ByteStrings
  import opened Sequences
  import opened UpkiIndex

  // ----- Comparing neighbours after sorting separates all pairs -----

  /** After sorting, no span begins before an earlier one ends. */
  lemma {:induction false} ApartLifts(spans: seq<Span>, i: nat, j: nat)
    requires Ascending(spans) && NeighboursApart(spans) && i < j < |spans|
    ensures spans[i].end <= spans[j].start
  {
    assert spans[i + 1].start >= spans[i].end;
  }

  /** Spans that are apart, none of them empty, have no overlapping neighbours in
      any ascending order. */
  lemma {:induction false} ApartInAnyOrder(spans: seq<Span>, sorted: seq<Span>)
    requires multiset(sorted) == multiset(spans) && Ascending(sorted)
    requires forall i, j | 0 <= i < j < |spans| :: spans[i].end <= spans[j].start || spans[j].end <= spans[i].start
    requires forall i | 0 <= i < |spans| :: spans[i].start < spans[i].end
    ensures NeighboursApart(sorted)
  {
    forall i, j | 0 <= i < j < |spans| ensures spans[i] != spans[j] {}
    NoRepeatsPermuted(spans, sorted);
    forall k | 1 <= k < |sorted| ensures sorted[k].start >= sorted[k - 1].end {
      assert sorted[k - 1] in multiset(spans) && sorted[k] in multiset(spans);
      var i :| 0 <= i < |spans| && spans[i] == sorted[k - 1];
      var j :| 0 <= j < |spans| && spans[j] == sorted[k];
      assert i != j;
    }
  }

  // ----- The sections of a directory -----

  /** Where the nonempty section of entry `j` is listed, counting from entry `from`. */
  function Place(dir: Bytes, n: nat, from: nat, j: nat): nat
    requires DirShape(dir, n) && from <= j < n
    decreases j - from
  {
    if from == j then 0 else (if SectionLength(dir, n, from) > 0 then 1 else 0) + Place(dir, n, from + 1, j)
  }

  lemma {:induction false} SpanListed(dir: Bytes, n: nat, from: nat, j: nat)
    requires DirShape(dir, n) && from <= j < n && SectionLength(dir, n, j) > 0
    ensures Place(dir, n, from, j) < |SpansFrom(dir, n, from)|
    ensures SpansFrom(dir, n, from)[Place(dir, n, from, j)] == SpanAt(dir, n, j)
    decreases j - from
  {
    if from < j {
      SpanListed(dir, n, from + 1, j);
    }
  }

  lemma {:induction false} PlacesGrow(dir: Bytes, n: nat, from: nat, i: nat, j: nat)
    requires DirShape(dir, n) && from <= i < j < n && SectionLength(dir, n, i) > 0
    ensures Place(dir, n, from, i) < Place(dir, n, from, j)
    decreases i - from
  {
    if from < i {
      PlacesGrow(dir, n, from + 1, i, j);
    }
  }

  /** Of two accepted sections the one that starts first ends, as the validation
      computes it, before the other starts. */
  lemma {:induction false} AcceptedApart(dir: Bytes, n: nat, tablesEnd: nat, f: File, sort: Sort, i: nat, j: nat)
    requires DirShape(dir, n) && IsSort(sort) && SectionsValid(dir, n, tablesEnd, f, sort)
    requires i < j < n && SectionLength(dir, n, i) > 0 && SectionLength(dir, n, j) > 0
    ensures var a, b := SpanAt(dir, n, i), SpanAt(dir, n, j);
            && (a.start < b.start ==> a.end <= b.start) && (b.start < a.start ==> b.end <= a.start)
            && (a.start == b.start ==> a.end <= b.start || b.end <= a.start)
  {
    var spans := SpansFrom(dir, n, 0);
    SpanListed(dir, n, 0, i);
    SpanListed(dir, n, 0, j);
    PlacesGrow(dir, n, 0, i, j);
    var p', q' := TwoPositions(spans, sort(spans), Place(dir, n, 0, i), Place(dir, n, 0, j));
    ApartLifts(sort(spans), if p' < q' then p' else q', if p' < q' then q' else p');
  }

  /** The true end of section `i`, without wrap-around. */
  function SectionEnd(dir: Bytes, n: nat, i: nat): nat
    requires DirShape(dir, n) && i < n
  {
    OffsetAt(dir, n, i) + SectionLength(dir, n, i)
  }

  /** What the source takes for granted: no section ends past the largest int64. */
  predicate NoOverflow(dir: Bytes, n: nat)
    requires DirShape(dir, n)
  {
    forall i | 0 <= i < n && SectionLength(dir, n, i) > 0 :: SectionEnd(dir, n, i) < TWO63
  }

  predicate SectionsInside(dir: Bytes, n: nat, tablesEnd: nat, size: nat)
    requires DirShape(dir, n)
  {
    forall i | 0 <= i < n && SectionLength(dir, n, i) > 0 ::
      tablesEnd <= OffsetAt(dir, n, i) && SectionEnd(dir, n, i) <= size
  }

  predicate SectionsDisjoint(dir: Bytes, n: nat)
    requires DirShape(dir, n)
  {
    forall i, j | 0 <= i < j < n && SectionLength(dir, n, i) > 0 && SectionLength(dir, n, j) > 0 ::
      SectionEnd(dir, n, i) <= OffsetAt(dir, n, j) || SectionEnd(dir, n, j) <= OffsetAt(dir, n, i)
  }

  lemma {:induction false} Int64Small(x: int)
    requires -TWO63 <= x < TWO63
    ensures Int64(x) == x
  {
    DivModUnique(x + TWO63, 2 * TWO63, 0, x + TWO63);
  }

  lemma {:induction false} Int64Large(x: int)
    requires TWO63 <= x < 3 * TWO63
    ensures Int64(x) == x - 2 * TWO63
  {
    DivModUnique(x + TWO63, 2 * TWO63, 1, x - TWO63);
  }

  /** A section that passed the lower bound starts below 2^63, where it says. */
  lemma {:induction false} AcceptedStart(dir: Bytes, n: nat, i: nat, tablesEnd: nat, f: File)
    requires DirShape(dir, n) && i < n && SpanInBounds(dir, n, i, tablesEnd, f)
    ensures SpanAt(dir, n, i).start == OffsetAt(dir, n, i) < TWO63
    ensures SectionEnd(dir, n, i) < TWO63 ==> SpanAt(dir, n, i).end == SectionEnd(dir, n, i)
  {
    Pow256Values();
    var x := OffsetAt(dir, n, i);
    if x >= TWO63 {
      Int64Large(x);
    } else {
      Int64Small(x);
      if SectionEnd(dir, n, i) < TWO63 {
        Int64Small(SectionEnd(dir, n, i));
      }
    }
  }

  /** For a reader of known size, the accepted sections lie between the tables and
      the end of the file if and only if none of them overflows. */
  lemma {:induction false} InsideIffNoOverflow(dir: Bytes, n: nat, tablesEnd: nat, f: File, sort: Sort)
    requires DirShape(dir, n) && SectionsValid(dir, n, tablesEnd, f, sort)
    requires f.sized && |f.data| < TWO63
    ensures SectionsInside(dir, n, tablesEnd, |f.data|) <==> NoOverflow(dir, n)
  {
    forall i | 0 <= i < n && SectionLength(dir, n, i) > 0
      ensures SectionEnd(dir, n, i) < TWO63 <==>
              tablesEnd <= OffsetAt(dir, n, i) && SectionEnd(dir, n, i) <= |f.data|
    {
      assert SpanInBounds(dir, n, i, tablesEnd, f);
      AcceptedStart(dir, n, i, tablesEnd, f);
    }
  }

  /** A section that overflows starts after every other one. */
  predicate OverflowsLast(dir: Bytes, n: nat)
    requires DirShape(dir, n)
  {
    forall i, j | 0 <= i < n && 0 <= j < n && i != j && SectionLength(dir, n, i) > 0 && SectionLength(dir, n, j) > 0 ::
      SectionEnd(dir, n, i) >= TWO63 ==> OffsetAt(dir, n, j) < OffsetAt(dir, n, i)
  }

  /** No two accepted sections overlap, though only neighbours are compared, if and
      only if any section that overflows starts after all the others; this needs
      no known file size and holds however the sort treats equal starts. */
  lemma {:induction false} DisjointIffOverflowsLast(dir: Bytes, n: nat, tablesEnd: nat, f: File, sort: Sort)
    requires DirShape(dir, n) && IsSort(sort) && SectionsValid(dir, n, tablesEnd, f, sort)
    ensures SectionsDisjoint(dir, n) <==> OverflowsLast(dir, n)
    ensures NoOverflow(dir, n) ==> SectionsDisjoint(dir, n)
  {
    forall i | 0 <= i < n ensures SpanAt(dir, n, i).start == OffsetAt(dir, n, i) < TWO63 {
      assert SpanInBounds(dir, n, i, tablesEnd, f);
      AcceptedStart(dir, n, i, tablesEnd, f);
    }
    if OverflowsLast(dir, n) {
      forall i, j | 0 <= i < j < n && SectionLength(dir, n, i) > 0 && SectionLength(dir, n, j) > 0
        ensures SectionEnd(dir, n, i) <= OffsetAt(dir, n, j) || SectionEnd(dir, n, j) <= OffsetAt(dir, n, i)
      {
        LastApart(dir, n, tablesEnd, f, sort, i, j);
      }
    }
  }

  lemma {:induction false} LastApart(dir: Bytes, n: nat, tablesEnd: nat, f: File, sort: Sort, i: nat, j: nat)
    requires DirShape(dir, n) && IsSort(sort) && SectionsValid(dir, n, tablesEnd, f, sort) && OverflowsLast(dir, n)
    requires i < j < n && SectionLength(dir, n, i) > 0 && SectionLength(dir, n, j) > 0
    ensures SectionEnd(dir, n, i) <= OffsetAt(dir, n, j) || SectionEnd(dir, n, j) <= OffsetAt(dir, n, i)
  {
    assert SpanInBounds(dir, n, i, tablesEnd, f) && SpanInBounds(dir, n, j, tablesEnd, f);
    AcceptedStart(dir, n, i, tablesEnd, f);
    AcceptedStart(dir, n, j, tablesEnd, f);
    AcceptedApart(dir, n, tablesEnd, f, sort, i, j);
  }

  // ----- That a sort exists -----

  function InsertSpan(s: Span, spans: seq<Span>): (r: seq<Span>)
    ensures multiset(r) == multiset{s} + multiset(spans)
    ensures Ascending(spans) ==> Ascending(r)
  {
    if spans == [] || s.start <= spans[0].start then [s] + spans
    else
      var r := InsertSpan(s, spans[1..]);
      InsertedLater(s, spans, r);
      [spans[0]] + r
  }

  lemma {:induction false} InsertedLater(s: Span, spans: seq<Span>, r: seq<Span>)
    requires spans != [] && s.start > spans[0].start
    requires multiset(r) == multiset{s} + multiset(spans[1..]) && (Ascending(spans[1..]) ==> Ascending(r))
    ensures multiset([spans[0]] + r) == multiset{s} + multiset(spans)
    ensures Ascending(spans) ==> Ascending([spans[0]] + r)
  {
    assert spans == [spans[0]] + spans[1..];
    if Ascending(spans) {
      forall i, j | 0 <= i < j < |spans[1..]| ensures spans[1..][i].start <= spans[1..][j].start {
        assert spans[i + 1].start <= spans[j + 1].start;
      }
      forall j | 0 <= j < |r| ensures spans[0].start <= r[j].start {
        assert r[j] in multiset(r);
        if r[j] != s {
          var k :| 0 <= k < |spans[1..]| && spans[1..][k] == r[j];
          assert spans[k + 1] == r[j];
        }
      }
    }
  }

  function SortSpans(spans: seq<Span>): (r: seq<Span>)
    ensures multiset(r) == multiset(spans) && Ascending(r)
  {
    if spans == [] then [] else
      assert spans == [spans[0]] + spans[1..];
      InsertSpan(spans[0], SortSpans(spans[1..]))
  }

  lemma {:induction false} SomeSort()
    ensures IsSort(SortSpans)
  {}
}
