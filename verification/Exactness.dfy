/** The end-to-end theorem: a filter built from an enrolment, written, parsed and
    queried, is exact on everything enrolled. */
module Exactness {
  import opened Gf2
  import opened ByteStrings
  import opened Sequences
  import opened HashWindows
  import opened Clubcard
  import opened FilterFormat
  import opened Crlite
  import opened Blocks
  import opened FilterWriter
  import opened RoundTrip

  // ----- Packed columns answer like the segments they were packed from -----

  /** `seg` occupies the words of `c` from word `k` on. */
  predicate Occupies(seg: Column, c: Column, k: nat) {
    k + |seg| <= |c| && c[k..k + |seg|] == seg
  }

  lemma {:induction false} DotInSegment(seg: Column, c: Column, k: nat, a: Limbs, row: nat)
    requires Occupies(seg, c, k) && row + 256 <= 64 * |seg|
    ensures Dot(a, AssignmentOf(c), 64 * k + row) == Dot(a, AssignmentOf(seg), row)
  {
    forall j: nat | j < 256 && BitAt(a, j) ensures BitAt(c, 64 * k + row + j) == BitAt(seg, row + j) {
      var p := row + j;
      assert (64 * k + p) / 64 == k + p / 64 && (64 * k + p) % 64 == p % 64;
      assert c[k..k + |seg|][p / 64] == c[k + p / 64];
    }
    InnerAgrees(a, AssignmentOf(c), AssignmentOf(seg), 64 * k + row, row, 256);
  }

  lemma {:induction false} OccupiesEnd(seg: Column, c: Column)
    ensures Occupies(seg, c + seg, |c|)
  {}

  lemma {:induction false} OccupiesLonger(seg: Column, c: Column, more: Column, k: nat)
    requires Occupies(seg, c, k)
    ensures Occupies(seg, c + more, k)
  {
    assert (c + more)[k..k + |seg|] == c[k..k + |seg|];
  }

  lemma {:induction false} SegmentInColumn(bs: seq<Block>, i: nat, c: nat)
    requires i < |bs| && c < bs[i].rank == |bs[i].approxSegs|
    ensures Occupies(bs[i].approxSegs[c], ColumnOf(bs, c), |ColumnOf(bs[..i], c)|)
  {
    var n := |bs| - 1;
    var b := bs[n];
    var front, last := ColumnOf(bs[..n], c), if c < b.rank && c < |b.approxSegs| then b.approxSegs[c] else [];
    assert ColumnOf(bs, c) == front + last;
    if i < n {
      SegmentInColumn(bs[..n], i, c);
      assert bs[..n][..i] == bs[..i];
      OccupiesLonger(bs[i].approxSegs[c], front, last, |ColumnOf(bs[..i], c)|);
    } else {
      OccupiesEnd(last, front);
    }
  }

  lemma {:induction false} SegmentInExact(bs: seq<Block>, i: nat)
    requires i < |bs|
    ensures Occupies(bs[i].exactSeg, ExactOf(bs), |ExactOf(bs[..i])|)
  {
    var n := |bs| - 1;
    var front, last := ExactOf(bs[..n]), bs[n].exactSeg;
    assert ExactOf(bs) == front + last;
    if i < n {
      SegmentInExact(bs[..n], i);
      assert bs[..n][..i] == bs[..i];
      OccupiesLonger(bs[i].exactSeg, front, last, |ExactOf(bs[..i])|);
    } else {
      OccupiesEnd(last, front);
    }
  }

  /** Ahead of a block of rank above `c`, column `c` is as long as column 0: the
      descending order puts only blocks of higher rank there. */
  lemma {:induction false} ColumnsAligned(bs: seq<Block>, c: nat)
    requires forall k | 0 <= k < |bs| :: bs[k].rank > c && WellShaped(bs[k])
    ensures |ColumnOf(bs, c)| == |ColumnOf(bs, 0)|
  {
    if bs != [] {
      var n := |bs| - 1;
      ColumnsAligned(bs[..n], c);
      assert |bs[n].approxSegs[c]| == |bs[n].approxSegs[0]|;
    }
  }

  lemma {:induction false} RankAtMostMax(bs: seq<Block>, i: nat)
    requires i < |bs|
    ensures bs[i].rank <= MaxRank(bs)
  {
    var n := |bs| - 1;
    if i < n {
      RankAtMostMax(bs[..n], i);
    }
  }

  ghost predicate Packed(bs: seq<Block>) {
    Ordered(bs) && Placed(bs) && forall k | 0 <= k < |bs| :: WellShaped(bs[k])
  }

  /** Querying column `c` at the block's offset is querying its own segment. */
  lemma {:induction false} PackedApprox(bs: seq<Block>, i: nat, c: nat, a: Limbs, row: nat)
    requires Packed(bs) && i < |bs| && c < bs[i].rank && row < bs[i].approxM
    ensures Dot(a, AssignmentOf(ColumnOf(bs, c)), bs[i].hOffset + row) == Dot(a, AssignmentOf(bs[i].approxSegs[c]), row)
  {
    assert WellShaped(bs[i]) && PlacedAt(bs, i);
    forall k | 0 <= k < i ensures bs[..i][k].rank > c && WellShaped(bs[..i][k]) {
      assert InOrder(bs[k], bs[i]);
    }
    ColumnsAligned(bs[..i], c);
    SegmentInColumn(bs, i, c);
    assert Roomy(bs[i].approxSegs[c], bs[i].approxM);
    DotInSegment(bs[i].approxSegs[c], ColumnOf(bs, c), |ColumnOf(bs[..i], c)|, a, row);
  }

  /** Where the exact segment of block `i` sits. */
  lemma {:induction false} ExactPlace(bs: seq<Block>, i: nat)
    requires i < |bs| && PlacedAt(bs, i) && WellShaped(bs[i]) && bs[i].exactM > 0
    ensures bs[i].gOffset == 64 * |ExactOf(bs[..i])| && Roomy(bs[i].exactSeg, bs[i].exactM)
    ensures Occupies(bs[i].exactSeg, ExactOf(bs), |ExactOf(bs[..i])|)
  {
    SegmentInExact(bs, i);
  }

  lemma {:induction false} ApproxAgrees(bs: seq<Block>, i: nat, f: Filter, a: Limbs)
    requires Packed(bs) && i < |bs| && bs[i].approxM > 0
    requires f.x == ColumnsOf(bs) && bs[i].rank <= |f.x|
    ensures Clubcard.PassesApprox(f, MetaOf(bs[i]), a) <==> OwnApprox(bs[i], a)
  {
    var b := bs[i];
    var row := Position(a) % b.approxM;
    assert |b.approxSegs| == b.rank by { assert WellShaped(b); }
    forall c | 0 <= c < b.rank
      ensures Dot(a, AssignmentOf(f.x[c]), b.hOffset + row) == Dot(a, AssignmentOf(b.approxSegs[c]), row)
    {
      PackedApprox(bs, i, c, a, row);
    }
  }

  lemma {:induction false} ExactAgrees(bs: seq<Block>, i: nat, f: Filter, a: Limbs)
    requires i < |bs| && PlacedAt(bs, i) && WellShaped(bs[i]) && bs[i].exactM > 0
    requires f.y == ExactOf(bs)
    ensures Clubcard.PassesExact(f, MetaOf(bs[i]), a) <==> OwnExact(bs[i], a)
  {
    ExactPlace(bs, i);
    ExactQuery(bs[i], f, a, |ExactOf(bs[..i])|);
  }

  lemma {:induction false} ExactQuery(b: Block, f: Filter, a: Limbs, k: nat)
    requires b.exactM > 0 && b.gOffset == 64 * k && Roomy(b.exactSeg, b.exactM) && Occupies(b.exactSeg, f.y, k)
    ensures Clubcard.PassesExact(f, MetaOf(b), a) <==> OwnExact(b, a)
  {
    DotInSegment(b.exactSeg, f.y, k, a, Position(a) % b.exactM);
  }

  /** The membership test on the packed filter gives the block's own answer. */
  lemma {:induction false} MemberIsAnswer(bs: seq<Block>, i: nat, f: Filter, h: Bytes32, serial: Bytes)
    requires Packed(bs) && i < |bs|
    requires f.x == ColumnsOf(bs) && f.y == ExactOf(bs) && bs[i].rank <= |f.x|
    ensures Member(f, MetaOf(bs[i]), h, serial) == Answers(bs[i], Coefficients(h), serial)
  {
    var b, a := bs[i], Coefficients(h);
    assert WellShaped(b) && PlacedAt(bs, i);
    if b.approxM > 0 {
      ApproxAgrees(bs, i, f, a);
      ExactAgrees(bs, i, f, a);
    }
  }

  // ----- Distinct keys -----

  function HashesOf(issuers: seq<Issuer>): seq<Bytes32> {
    Mapped((iss: Issuer) => iss.spkiHash, issuers)
  }

  function IdsOf(bs: seq<Block>): seq<Bytes32> {
    Mapped((b: Block) => b.id, bs)
  }

  lemma {:induction false} HashesCounted(issuers: seq<Issuer>)
    ensures Hashes(issuers) == multiset(HashesOf(issuers))
  {
    if issuers != [] {
      HashesCounted(issuers[1..]);
      assert HashesOf(issuers) == [issuers[0].spkiHash] + HashesOf(issuers[1..]);
    }
  }

  lemma {:induction false} IdsCounted(bs: seq<Block>)
    ensures Ids(bs) == multiset(IdsOf(bs))
  {
    if bs != [] {
      IdsCounted(bs[1..]);
      assert IdsOf(bs) == [bs[0].id] + IdsOf(bs[1..]);
    }
  }

  predicate DistinctIssuers(f: FilterSpec) {
    forall i, j | 0 <= i < j < |f.issuers| :: f.issuers[i].spkiHash != f.issuers[j].spkiHash
  }

  predicate DistinctLogs(f: FilterSpec) {
    forall i, j | 0 <= i < j < |f.coverage| :: f.coverage[i].logId != f.coverage[j].logId
  }

  lemma {:induction false} BlockKeysDistinct(sha: Digest, f: FilterSpec, bs: seq<Block>)
    requires BuiltFor(sha, f.issuers, bs)
    ensures DistinctKeys(Mapped(EntryOfBlock, bs)) <==> DistinctIssuers(f)
  {
    HashesCounted(f.issuers);
    IdsCounted(bs);
    NoRepeatsCount(HashesOf(f.issuers));
    NoRepeatsCount(IdsOf(bs));
    KeysAreIds(bs);
    HashesAreIssuers(f);
  }

  lemma {:induction false} KeysAreIds(bs: seq<Block>)
    ensures DistinctKeys(Mapped(EntryOfBlock, bs)) <==> NoRepeats(IdsOf(bs))
  {
    var entries, ids := Mapped(EntryOfBlock, bs), IdsOf(bs);
    assert forall i | 0 <= i < |bs| :: entries[i].0 == ids[i];
  }

  lemma {:induction false} HashesAreIssuers(f: FilterSpec)
    ensures NoRepeats(HashesOf(f.issuers)) <==> DistinctIssuers(f)
  {
    var hashes := HashesOf(f.issuers);
    assert forall i | 0 <= i < |hashes| :: hashes[i] == f.issuers[i].spkiHash;
  }

  lemma {:induction false} LogKeysDistinct(f: FilterSpec)
    ensures DistinctKeys(Mapped(EntryOfCoverage, f.coverage)) <==> DistinctLogs(f)
  {
    var entries := Mapped(EntryOfCoverage, f.coverage);
    assert forall i | 0 <= i < |entries| :: entries[i].0 == f.coverage[i].logId;
  }

  // ----- The file a builder run produces -----

  /** `out` is what `Bytes` produces for `f`, by way of the placed blocks `bs`. */
  ghost predicate Produced(sha: Digest, f: FilterSpec, bs: seq<Block>, out: Bytes) {
    && BuiltFor(sha, f.issuers, bs) && Packed(bs)
    && FitsWire(f.coverage, bs, ColumnsOf(bs), ExactOf(bs))
    && out == EncodeFile(f.coverage, bs, ColumnsOf(bs), ExactOf(bs))
  }

  /** The filter a reader should find in the file. */
  function Expected(f: FilterSpec, bs: seq<Block>): RevocationFilter {
    RevocationFilter(MapOf(Mapped(EntryOfCoverage, f.coverage)),
                     Filter(ColumnsOf(bs), ExactOf(bs), MapOf(Mapped(EntryOfBlock, bs))))
  }

  lemma {:induction false} RanksFit(bs: seq<Block>)
    ensures DistinctKeys(Mapped(EntryOfBlock, bs)) ==> RanksWithin(MapOf(Mapped(EntryOfBlock, bs)), MaxRank(bs))
  {
    var entries := Mapped(EntryOfBlock, bs);
    if DistinctKeys(entries) {
      forall id | id in MapOf(entries) ensures MapOf(entries)[id].hRank <= MaxRank(bs) {
        var i :| 0 <= i < |entries| && entries[i].0 == id;
        MapOfAt(entries, i);
        RankAtMostMax(bs, i);
      }
    }
  }

  /** A produced file parses exactly when no log and no issuer is listed twice, and
      then to the expected filter. */
  lemma {:induction false} ProducedParses(sha: Digest, f: FilterSpec, bs: seq<Block>, out: Bytes)
    requires Produced(sha, f, bs, out)
    ensures Accepted(out) <==> DistinctLogs(f) && DistinctIssuers(f)
    ensures Accepted(out) ==> Parse(true, out) == Success(Expected(f, bs)) && Usable(Expected(f, bs))
  {
    ParseEncoded(f.coverage, bs, ColumnsOf(bs), ExactOf(bs));
    LogKeysDistinct(f);
    BlockKeysDistinct(sha, f, bs);
    RanksFit(bs);
  }

  /** Some timestamp falls into a range the enrolment claims for its log. */
  predicate Claims(f: FilterSpec, timestamps: seq<LogTimestamp>) {
    exists i, c | 0 <= i < |timestamps| && 0 <= c < |f.coverage| ::
      && f.coverage[c].logId == timestamps[i].logId
      && f.coverage[c].minTimestamp <= timestamps[i].timestamp <= f.coverage[c].maxTimestamp
  }

  lemma {:induction false} CoversWhatIsClaimed(f: FilterSpec, bs: seq<Block>, timestamps: seq<LogTimestamp>)
    requires DistinctLogs(f)
    ensures CoversAny(Expected(f, bs), timestamps) <==> Claims(f, timestamps)
  {
    var entries := Mapped(EntryOfCoverage, f.coverage);
    LogKeysDistinct(f);
    if Claims(f, timestamps) {
      var i, c :| 0 <= i < |timestamps| && 0 <= c < |f.coverage|
               && f.coverage[c].logId == timestamps[i].logId
               && f.coverage[c].minTimestamp <= timestamps[i].timestamp <= f.coverage[c].maxTimestamp;
      MapOfAt(entries, c);
      assert Covers(Expected(f, bs), timestamps[i]);
    }
    if CoversAny(Expected(f, bs), timestamps) {
      var i :| 0 <= i < |timestamps| && Covers(Expected(f, bs), timestamps[i]);
      var c :| 0 <= c < |entries| && entries[c].0 == timestamps[i].logId;
      MapOfAt(entries, c);
      assert f.coverage[c].logId == timestamps[i].logId;
    }
  }

  lemma {:induction false} EnrolledBlock(sha: Digest, f: FilterSpec, bs: seq<Block>, k: nat) returns (i: nat)
    requires BuiltFor(sha, f.issuers, bs) && DistinctIssuers(f) && k < |f.issuers|
    ensures i < |bs| && Solves(sha, f.issuers[k], bs[i])
    ensures f.issuers[k].spkiHash in Expected(f, bs).filter.blocks
    ensures Expected(f, bs).filter.blocks[f.issuers[k].spkiHash] == MetaOf(bs[i])
  {
    assert SolvedAmong(sha, f.issuers[k], bs);
    i :| 0 <= i < |bs| && Solves(sha, f.issuers[k], bs[i]);
    BlockKeysDistinct(sha, f, bs);
    MapOfAt(Mapped(EntryOfBlock, bs), i);
  }

  /** The main theorem.  On a produced file that parses, a query covered by the
      enrolment is answered `Good` for every serial enrolled as not revoked and
      `Revoked` for every other serial of the universe, whatever the hash function
      and the free bits of the solver were. */
  lemma {:induction false} ExactOnUniverse(sha: Digest, f: FilterSpec, bs: seq<Block>, out: Bytes,
                        k: nat, serial: Bytes, timestamps: seq<LogTimestamp>)
    requires Produced(sha, f, bs, out) && Accepted(out)
    requires k < |f.issuers|
    requires serial in f.issuers[k].revoked || serial in f.issuers[k].notRevoked
    ensures Usable(Parse(true, out).value)
    ensures StatusOf(Parse(true, out).value,
                     LookupKey(f.issuers[k].spkiHash, serial, sha(f.issuers[k].spkiHash + serial)), timestamps)
         == if !Claims(f, timestamps) then StatusNotCovered
            else if serial in f.issuers[k].notRevoked then StatusGood else StatusRevoked
  {
    ProducedParses(sha, f, bs, out);
    CoversWhatIsClaimed(f, bs, timestamps);
    var i := EnrolledBlock(sha, f, bs, k);
    var iss, h := f.issuers[k], sha(f.issuers[k].spkiHash + serial);
    RankAtMostMax(bs, i);
    MemberIsAnswer(bs, i, Expected(f, bs).filter, h, serial);
    SolvesIsExact(sha, iss, bs[i], serial);
  }

  /** An issuer that was never enrolled is reported as such. */
  lemma {:induction false} UnknownIssuer(sha: Digest, f: FilterSpec, bs: seq<Block>, out: Bytes,
                      issuer: Bytes32, serial: Bytes, timestamps: seq<LogTimestamp>)
    requires Produced(sha, f, bs, out) && Accepted(out)
    requires forall k | 0 <= k < |f.issuers| :: f.issuers[k].spkiHash != issuer
    ensures Usable(Parse(true, out).value)
    ensures StatusOf(Parse(true, out).value, NewKey(sha, issuer, serial), timestamps)
         == if Claims(f, timestamps) then StatusNotEnrolled else StatusNotCovered
  {
    ProducedParses(sha, f, bs, out);
    CoversWhatIsClaimed(f, bs, timestamps);
    var entries := Mapped(EntryOfBlock, bs);
    if issuer in MapOf(entries) {
      var j :| 0 <= j < |entries| && entries[j].0 == issuer;
      assert SolvesAmong(sha, f.issuers, bs[j]);
    }
  }
}
