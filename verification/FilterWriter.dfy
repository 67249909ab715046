/** Assembling a filter file: ordering the blocks, packing their segments into
    shared columns, and serializing. */
module FilterWriter {
  import opened Words
  import opened Gf2
  import opened Ribbons
  import opened ByteStrings
  import opened Readers
  import opened Sequences
  import opened Blocks

  /** One log's claimed timestamp range, inclusive on both ends. */
  datatype Coverage = Coverage(logId: Bytes32, minTimestamp: Uint64, maxTimestamp: Uint64)

  datatype FilterSpec = FilterSpec(issuers: seq<Issuer>, coverage: seq<Coverage>)

  // ----- Ordering -----

  /** Descending rank, ties broken by id. */
  predicate InOrder(a: Block, b: Block) {
    a.rank > b.rank || (a.rank == b.rank && Compare(a.id, b.id) <= 0)
  }

  lemma {:induction false} InOrderTransitive(a: Block, b: Block, c: Block)
    requires InOrder(a, b) && InOrder(b, c)
    ensures InOrder(a, c)
  {
    if a.rank == b.rank == c.rank {
      CompareTransitive(a.id, b.id, c.id);
    }
  }

  predicate Ordered(bs: seq<Block>) {
    forall i, j | 0 <= i < j < |bs| :: InOrder(bs[i], bs[j])
  }

  /** The 64-bit-word volume of a block's segments, in bits. */
  function Weight(b: Block): nat {
    (if b.approxSegs == [] then 0 else 64 * |b.approxSegs[0]|) + 64 * |b.exactSeg|
  }

  function TotalWeight(bs: seq<Block>): nat {
    if bs == [] then 0 else Weight(bs[0]) + TotalWeight(bs[1..])
  }

  function Ids(bs: seq<Block>): multiset<Bytes32> {
    if bs == [] then multiset{} else multiset{bs[0].id} + Ids(bs[1..])
  }

  /** `r` holds the same blocks as `bs`, in whatever order. */
  ghost predicate SameBlocks(r: seq<Block>, bs: seq<Block>) {
    && multiset(r) == multiset(bs) && |r| == |bs|
    && TotalWeight(r) == TotalWeight(bs) && Ids(r) == Ids(bs)
  }

  function InsertBlock(b: Block, bs: seq<Block>): (r: seq<Block>)
    ensures SameBlocks(r, [b] + bs)
    ensures Ordered(bs) ==> Ordered(r)
  {
    assert ([b] + bs)[1..] == bs;
    if bs == [] || InOrder(b, bs[0]) then
      InsertFirst(b, bs);
      [b] + bs
    else
      var r := InsertBlock(b, bs[1..]);
      InsertLater(b, bs, r);
      [bs[0]] + r
  }

  lemma {:induction false} InsertFirst(b: Block, bs: seq<Block>)
    requires bs == [] || InOrder(b, bs[0])
    ensures Ordered(bs) ==> Ordered([b] + bs)
  {
    if Ordered(bs) {
      forall j | 0 <= j < |bs| ensures InOrder(b, bs[j]) {
        if j > 0 {
          InOrderTransitive(b, bs[0], bs[j]);
        }
      }
    }
  }

  lemma {:induction false} SameBlocksUnder(first: Block, b: Block, bs: seq<Block>, r: seq<Block>)
    requires SameBlocks(r, [b] + bs)
    ensures SameBlocks([first] + r, [b] + ([first] + bs))
  {
    assert ([first] + r)[1..] == r && ([b] + bs)[1..] == bs;
    var bs' := [first] + bs;
    assert bs'[1..] == bs && ([b] + bs')[1..] == bs';
    assert Ids([b] + bs') == multiset{b.id} + (multiset{first.id} + Ids(bs));
    assert Ids([first] + r) == multiset{first.id} + (multiset{b.id} + Ids(bs));
    assert multiset([first] + r) == multiset([first]) + multiset(r);
    assert multiset([b] + bs') == multiset([b]) + (multiset([first]) + multiset(bs));
  }

  /** Everything in `r` comes after `first`. */
  lemma {:induction false} OrderedUnder(first: Block, b: Block, bs: seq<Block>, r: seq<Block>)
    requires !InOrder(b, first) && Ordered([first] + bs) && Ordered(r)
    requires multiset(r) == multiset([b] + bs)
    ensures Ordered([first] + r)
  {
    CompareAntisymmetric(first.id, b.id);
    forall j | 0 <= j < |r| ensures InOrder(first, r[j]) {
      assert r[j] in multiset([b] + bs);
      if r[j] != b {
        var k :| 0 <= k < |bs| && bs[k] == r[j];
        var all := [first] + bs;
        assert InOrder(all[0], all[k + 1]);
      }
    }
  }

  lemma {:induction false} InsertLater(b: Block, bs: seq<Block>, r: seq<Block>)
    requires bs != [] && !InOrder(b, bs[0])
    requires SameBlocks(r, [b] + bs[1..]) && (Ordered(bs[1..]) ==> Ordered(r))
    ensures SameBlocks([bs[0]] + r, [b] + bs)
    ensures Ordered(bs) ==> Ordered([bs[0]] + r)
  {
    assert bs == [bs[0]] + bs[1..];
    SameBlocksUnder(bs[0], b, bs[1..], r);
    if Ordered(bs) {
      OrderedUnder(bs[0], b, bs[1..], r);
    }
  }

  /** slices.SortFunc with the comparison above. */
  function SortBlocks(bs: seq<Block>): (r: seq<Block>)
    ensures SameBlocks(r, bs) && Ordered(r)
  {
    if bs == [] then [] else
      assert bs == [bs[0]] + bs[1..];
      var r := InsertBlock(bs[0], SortBlocks(bs[1..]));
      r
  }

  // ----- Packing -----

  /** Column `c`: the segments of the blocks whose rank exceeds `c`, in order. */
  function ColumnOf(bs: seq<Block>, c: nat): Column {
    if bs == [] then [] else
      var b := bs[|bs| - 1];
      ColumnOf(bs[..|bs| - 1], c) + if c < b.rank && c < |b.approxSegs| then b.approxSegs[c] else []
  }

  function ExactOf(bs: seq<Block>): Column {
    if bs == [] then [] else ExactOf(bs[..|bs| - 1]) + bs[|bs| - 1].exactSeg
  }

  function MaxRank(bs: seq<Block>): nat {
    if bs == [] then 0 else
      var m := MaxRank(bs[..|bs| - 1]);
      if m < bs[|bs| - 1].rank then bs[|bs| - 1].rank else m
  }

  function ColumnsOf(bs: seq<Block>): (x: seq<Column>)
    ensures |x| == MaxRank(bs)
  {
    seq(MaxRank(bs), c requires 0 <= c => ColumnOf(bs, c))
  }

  /** Every block is told where its segments start in the packed columns. */
  predicate PlacedAt(bs: seq<Block>, i: nat)
    requires i < |bs|
  {
    && bs[i].hOffset == (if bs[i].rank > 0 then 64 * |ColumnOf(bs[..i], 0)| else 0)
    && bs[i].gOffset == (if bs[i].exactM > 0 then 64 * |ExactOf(bs[..i])| else 0)
  }

  predicate Placed(bs: seq<Block>) {
    forall i | 0 <= i < |bs| :: PlacedAt(bs, i)
  }

  /** `placed` is `sorted` up to the offsets. */
  ghost predicate PlacementOf(placed: seq<Block>, sorted: seq<Block>) {
    |placed| == |sorted| && forall i | 0 <= i < |placed| :: Unplaced(placed[i]) == sorted[i]
  }

  /** The offset loop has dealt with the first `i` blocks. */
  ghost predicate PlacedUpTo(blocks: seq<Block>, sorted: seq<Block>, i: nat) {
    && PlacementOf(blocks, sorted)
    && (forall k | 0 <= k < i && k < |blocks| :: PlacedAt(blocks, k))
    && (forall k | i <= k < |blocks| :: blocks[k] == sorted[k])
  }

  lemma {:induction false} PlaceOne(before: seq<Block>, sorted: seq<Block>, i: nat, placed: Block)
    requires i < |before| && PlacedUpTo(before, sorted, i)
    requires Unplaced(placed) == sorted[i]
    requires placed.hOffset == if placed.rank > 0 then 64 * |ColumnOf(before[..i], 0)| else 0
    requires placed.gOffset == if placed.exactM > 0 then 64 * |ExactOf(before[..i])| else 0
    ensures PlacedUpTo(before[i := placed], sorted, i + 1)
  {
    var after := before[i := placed];
    forall k | 0 <= k <= i ensures PlacedAt(after, k) {
      assert after[..k] == before[..k];
      assert k < i ==> PlacedAt(before, k);
    }
  }

  lemma {:induction false} RunningTotals(before: seq<Block>, i: nat, placed: Block)
    requires i < |before| && |placed.approxSegs| == placed.rank
    ensures |ColumnOf(before[i := placed][..i + 1], 0)|
         == |ColumnOf(before[..i], 0)| + if placed.rank > 0 then |placed.approxSegs[0]| else 0
    ensures |ExactOf(before[i := placed][..i + 1])| == |ExactOf(before[..i])| + |placed.exactSeg|
  {
    assert before[i := placed][..i + 1][..i] == before[..i];
  }

  /** The offset loop of `Bytes`: running totals over the ordered blocks. */
  method PlaceBlocks(sorted: seq<Block>) returns (blocks: seq<Block>)
    requires forall i | 0 <= i < |sorted| :: WellShaped(sorted[i]) && Unplaced(sorted[i]) == sorted[i]
    ensures PlacementOf(blocks, sorted) && Placed(blocks)
  {
    blocks := sorted;
    var hOff, gOff := 0, 0;
    for i := 0 to |sorted|
      invariant |blocks| == |sorted| && PlacedUpTo(blocks, sorted, i)
      invariant hOff == 64 * |ColumnOf(blocks[..i], 0)| && gOff == 64 * |ExactOf(blocks[..i])|
    {
      var b := blocks[i];
      assert WellShaped(b) && Unplaced(b) == b;
      if b.rank > 0 {
        b := b.(hOffset := hOff);
        hOff := hOff + 64 * |b.approxSegs[0]|;
      }
      if b.exactM > 0 {
        b := b.(gOffset := gOff);
        gOff := gOff + 64 * |b.exactSeg|;
      }
      PlaceOne(blocks, sorted, i, b);
      RunningTotals(blocks, i, b);
      blocks := blocks[i := b];
    }
  }

  function Unplaced(b: Block): Block {
    b.(hOffset := 0, gOffset := 0)
  }

  // ----- Serializing -----

  function EncodeCoverage(c: Coverage): Bytes {
    c.logId + PutUint(c.minTimestamp, 8) + PutUint(c.maxTimestamp, 8)
  }

  function EncodeException(serial: Bytes): Bytes {
    PutUint(|serial|, 1) + serial
  }

  function EncodeWord(w: Word): Bytes {
    PutUint(Value(w), 8)
  }

  function EncodeBlock(b: Block): Bytes {
    b.id + PutUint(b.approxM, 4) + PutUint(b.rank, 1) + PutUint(b.hOffset, 4)
    + PutUint(b.exactM, 4) + PutUint(b.gOffset, 4) + PutUint(if b.inverted then 1 else 0, 1)
    + (PutUint(|b.exceptions|, 2) + Concat(Mapped(EncodeException, b.exceptions)))
  }

  function EncodeColumn(c: Column): Bytes {
    PutUint(|c|, 4) + Concat(Mapped(EncodeWord, c))
  }

  function EncodeFile(coverage: seq<Coverage>, blocks: seq<Block>, x: seq<Column>, y: Column): Bytes {
    [4, 0]
    + (PutUint(|coverage|, 2) + Concat(Mapped(EncodeCoverage, coverage)))
    + (PutUint(|blocks|, 4) + Concat(Mapped(EncodeBlock, blocks)))
    + (PutUint(|x|, 1) + Concat(Mapped(EncodeColumn, x)))
    + EncodeColumn(y)
  }

  lemma {:induction false} ConcatSnoc(parts: seq<Bytes>, p: Bytes)
    ensures Concat(parts + [p]) == Concat(parts) + p
  {
    if parts == [] {
      assert Concat([p]) == p + Concat([]);
    } else {
      ConcatSnoc(parts[1..], p);
      assert (parts + [p])[1..] == parts[1..] + [p];
    }
  }

  /** The serializing loops: the encodings of `vs`, one after the other. */
  method AppendAll<T>(out: Bytes, f: T -> Bytes, vs: seq<T>) returns (r: Bytes)
    ensures r == out + Concat(Mapped(f, vs))
  {
    r := out;
    for i := 0 to |vs|
      invariant r == out + Concat(Mapped(f, vs[..i]))
    {
      ConcatSnoc(Mapped(f, vs[..i]), f(vs[i]));
      assert Mapped(f, vs[..i + 1]) == Mapped(f, vs[..i]) + [f(vs[i])];
      r := r + f(vs[i]);
    }
    assert vs[..|vs|] == vs;
  }

  /** The packed columns, each gathered block by block. */
  method PackColumns(blocks: seq<Block>, maxRank: nat) returns (x: seq<Column>)
    requires forall i | 0 <= i < |blocks| :: WellShaped(blocks[i])
    requires maxRank == MaxRank(blocks)
    ensures x == ColumnsOf(blocks)
  {
    x := [];
    for c := 0 to maxRank
      invariant |x| == c && forall d | 0 <= d < c :: x[d] == ColumnOf(blocks, d)
    {
      var col: Column := [];
      for i := 0 to |blocks|
        invariant col == ColumnOf(blocks[..i], c)
      {
        assert blocks[..i + 1][..i] == blocks[..i];
        if blocks[i].rank > c {
          col := col + blocks[i].approxSegs[c];
        }
      }
      assert blocks[..|blocks|] == blocks;
      x := x + [col];
    }
  }

  method PackExact(blocks: seq<Block>) returns (y: Column)
    ensures y == ExactOf(blocks)
  {
    y := [];
    for i := 0 to |blocks|
      invariant y == ExactOf(blocks[..i])
    {
      assert blocks[..i + 1][..i] == blocks[..i];
      y := y + blocks[i].exactSeg;
    }
    assert blocks[..|blocks|] == blocks;
  }

  method HighestRank(blocks: seq<Block>) returns (maxRank: nat)
    ensures maxRank == MaxRank(blocks)
  {
    maxRank := 0;
    for i := 0 to |blocks|
      invariant maxRank == MaxRank(blocks[..i])
    {
      assert blocks[..i + 1][..i] == blocks[..i];
      if blocks[i].rank > maxRank {
        maxRank := blocks[i].rank;
      }
    }
    assert blocks[..|blocks|] == blocks;
  }

  // ----- The whole builder -----

  /** One solved block for every issuer, and no others. */
  ghost predicate BuiltFor(sha: Digest, issuers: seq<Issuer>, blocks: seq<Block>) {
    && |blocks| == |issuers|
    && Ids(blocks) == Hashes(issuers)
    && (forall i {:trigger SolvedAmong(sha, issuers[i], blocks)} | 0 <= i < |issuers| :: SolvedAmong(sha, issuers[i], blocks))
    && (forall j {:trigger SolvesAmong(sha, issuers, blocks[j])} | 0 <= j < |blocks| :: SolvesAmong(sha, issuers, blocks[j]))
  }

  ghost predicate SolvedAmong(sha: Digest, iss: Issuer, blocks: seq<Block>) {
    exists j | 0 <= j < |blocks| :: Solves(sha, iss, blocks[j])
  }

  ghost predicate SolvesAmong(sha: Digest, issuers: seq<Issuer>, b: Block) {
    exists i | 0 <= i < |issuers| :: Solves(sha, issuers[i], b)
  }

  function Hashes(issuers: seq<Issuer>): multiset<Bytes32> {
    if issuers == [] then multiset{} else multiset{issuers[0].spkiHash} + Hashes(issuers[1..])
  }

  /** An upper bound on the column space an issuer's block can take. */
  function Budget(iss: Issuer): nat {
    var nU := |iss.revoked| + |iss.notRevoked|;
    2 * (nU + nU / 50 + 574)
  }

  function TotalBudget(issuers: seq<Issuer>): nat {
    if issuers == [] then 0 else Budget(issuers[0]) + TotalBudget(issuers[1..])
  }

  lemma {:induction false} WeightWithinBudget(sha: Digest, iss: Issuer, b: Block)
    requires Solves(sha, iss, b)
    ensures Weight(b) <= Budget(iss)
  {
    if b.rank > 0 {
      assert Roomy(b.approxSegs[0], b.approxM);
    }
  }

  /** Blocks built one per issuer, in issuer order. */
  ghost predicate BuiltInOrder(sha: Digest, issuers: seq<Issuer>, built: seq<Block>) {
    |built| == |issuers| && forall k | 0 <= k < |built| :: Solves(sha, issuers[k], built[k]) && Unplaced(built[k]) == built[k]
  }

  lemma {:induction false} BuiltTotals(sha: Digest, issuers: seq<Issuer>, built: seq<Block>)
    requires BuiltInOrder(sha, issuers, built)
    ensures Ids(built) == Hashes(issuers) && TotalWeight(built) <= TotalBudget(issuers)
  {
    if built != [] {
      BuiltTotals(sha, issuers[1..], built[1..]);
      WeightWithinBudget(sha, issuers[0], built[0]);
    }
  }

  lemma {:induction false} PlacedTotals(sorted: seq<Block>, placed: seq<Block>)
    requires |placed| == |sorted| && forall i | 0 <= i < |placed| :: Unplaced(placed[i]) == sorted[i]
    ensures Ids(placed) == Ids(sorted) && TotalWeight(placed) == TotalWeight(sorted)
  {
    if placed != [] {
      PlacedTotals(sorted[1..], placed[1..]);
      assert Unplaced(placed[0]) == sorted[0];
    }
  }

  /** Solving an issuer does not depend on where the block is placed. */
  lemma {:induction false} SolvesUnplaced(sha: Digest, iss: Issuer, b: Block)
    requires Solves(sha, iss, Unplaced(b))
    ensures Solves(sha, iss, b)
  {
    var u := Unplaced(b);
    forall s | s in iss.notRevoked ensures !Answers(b, ItemOf(sha, iss.spkiHash, s).a, s) {
      assert !Answers(u, ItemOf(sha, iss.spkiHash, s).a, s);
    }
    forall s | s in iss.revoked && b.approxM > 0
      ensures OwnApprox(b, ItemOf(sha, iss.spkiHash, s).a) && OwnExact(b, ItemOf(sha, iss.spkiHash, s).a)
    {
      assert OwnApprox(u, ItemOf(sha, iss.spkiHash, s).a) && OwnExact(u, ItemOf(sha, iss.spkiHash, s).a);
    }
  }

  lemma {:induction false} SortedMember(sha: Digest, issuers: seq<Issuer>, built: seq<Block>, sorted: seq<Block>, j: nat) returns (i: nat)
    requires BuiltInOrder(sha, issuers, built) && SameBlocks(sorted, built) && j < |sorted|
    ensures i < |issuers| && sorted[j] == built[i] && Solves(sha, issuers[i], sorted[j]) && Unplaced(sorted[j]) == sorted[j]
  {
    assert sorted[j] in multiset(built);
    i :| 0 <= i < |built| && built[i] == sorted[j];
  }

  lemma {:induction false} SortedShapes(sha: Digest, issuers: seq<Issuer>, built: seq<Block>, sorted: seq<Block>)
    requires BuiltInOrder(sha, issuers, built) && SameBlocks(sorted, built)
    ensures forall j | 0 <= j < |sorted| :: WellShaped(sorted[j]) && Unplaced(sorted[j]) == sorted[j]
  {
    forall j | 0 <= j < |sorted| ensures WellShaped(sorted[j]) && Unplaced(sorted[j]) == sorted[j] {
      var i := SortedMember(sha, issuers, built, sorted, j);
    }
  }

  lemma {:induction false} PlacedOrdered(sorted: seq<Block>, placed: seq<Block>)
    requires PlacementOf(placed, sorted) && Ordered(sorted)
    ensures Ordered(placed)
  {
    forall i, j | 0 <= i < j < |placed| ensures InOrder(placed[i], placed[j]) {
      assert InOrder(sorted[i], sorted[j]);
      assert Unplaced(placed[i]) == sorted[i] && Unplaced(placed[j]) == sorted[j];
    }
  }

  lemma {:induction false} PlacedForIssuer(sha: Digest, issuers: seq<Issuer>, built: seq<Block>, sorted: seq<Block>, placed: seq<Block>, i: nat)
    returns (j: nat)
    requires BuiltInOrder(sha, issuers, built) && SameBlocks(sorted, built) && PlacementOf(placed, sorted)
    requires i < |issuers|
    ensures j < |placed| && Solves(sha, issuers[i], placed[j])
  {
    assert built[i] in multiset(sorted);
    j :| 0 <= j < |sorted| && sorted[j] == built[i];
    SolvesUnplaced(sha, issuers[i], placed[j]);
  }

  lemma {:induction false} IssuerOfPlaced(sha: Digest, issuers: seq<Issuer>, built: seq<Block>, sorted: seq<Block>, placed: seq<Block>, j: nat)
    returns (i: nat)
    requires BuiltInOrder(sha, issuers, built) && SameBlocks(sorted, built) && PlacementOf(placed, sorted)
    requires j < |placed|
    ensures i < |issuers| && Solves(sha, issuers[i], placed[j])
  {
    i := SortedMember(sha, issuers, built, sorted, j);
    SolvesUnplaced(sha, issuers[i], placed[j]);
  }

  /** Ordering and placing lose no block. */
  lemma {:induction false} PlacedBuilt(sha: Digest, issuers: seq<Issuer>, built: seq<Block>, sorted: seq<Block>, placed: seq<Block>)
    requires BuiltInOrder(sha, issuers, built) && SameBlocks(sorted, built) && PlacementOf(placed, sorted)
    ensures BuiltFor(sha, issuers, placed)
    ensures TotalWeight(placed) <= TotalBudget(issuers)
  {
    BuiltTotals(sha, issuers, built);
    PlacedTotals(sorted, placed);
    forall i | 0 <= i < |issuers| ensures SolvedAmong(sha, issuers[i], placed) {
      var j := PlacedForIssuer(sha, issuers, built, sorted, placed, i);
    }
    forall j | 0 <= j < |placed| ensures SolvesAmong(sha, issuers, placed[j]) {
      var i := IssuerOfPlaced(sha, issuers, built, sorted, placed, j);
    }
  }

  lemma {:induction false} BuiltShapes(sha: Digest, issuers: seq<Issuer>, blocks: seq<Block>)
    requires BuiltFor(sha, issuers, blocks)
    ensures forall j | 0 <= j < |blocks| :: WellShaped(blocks[j])
  {
    forall j | 0 <= j < |blocks| ensures WellShaped(blocks[j]) {
      assert SolvesAmong(sha, issuers, blocks[j]);
    }
  }

  /** The first half of `Bytes`: solve, order and place. */
  method BuildBlocks(sha: Digest, issuers: seq<Issuer>, rng: Rng) returns (blocks: seq<Block>)
    requires forall i | 0 <= i < |issuers| :: issuers[i].SerialsFit()
    modifies rng
    ensures BuiltFor(sha, issuers, blocks) && Ordered(blocks) && Placed(blocks)
    ensures TotalWeight(blocks) <= TotalBudget(issuers)
  {
    var built: seq<Block> := [];
    for i := 0 to |issuers|
      invariant BuiltInOrder(sha, issuers[..i], built)
    {
      var b := BuildBlock(sha, issuers[i], rng);
      built := built + [b];
      assert issuers[..i + 1] == issuers[..i] + [issuers[i]];
    }
    assert issuers[..|issuers|] == issuers;
    var sorted := SortBlocks(built);
    SortedShapes(sha, issuers, built, sorted);
    blocks := PlaceBlocks(sorted);
    PlacedBuilt(sha, issuers, built, sorted, blocks);
    PlacedOrdered(sorted, blocks);
  }

  /** The second half of `Bytes`: serialize. */
  method Serialize(coverage: seq<Coverage>, blocks: seq<Block>) returns (out: Bytes)
    requires forall i | 0 <= i < |blocks| :: WellShaped(blocks[i])
    ensures out == EncodeFile(coverage, blocks, ColumnsOf(blocks), ExactOf(blocks))
  {
    var maxRank := HighestRank(blocks);
    var cov := AppendAll(PutUint(|coverage|, 2), EncodeCoverage, coverage);
    var index := AppendAll(PutUint(|blocks|, 4), EncodeBlock, blocks);
    var x := PackColumns(blocks, maxRank);
    var columns := AppendAll(PutUint(maxRank, 1), EncodeColumn, x);
    var y := PackExact(blocks);
    out := [4, 0] + cov + index + columns + EncodeColumn(y);
  }

  /** Builds the filter and serializes it. */
  method FilterBytes(sha: Digest, f: FilterSpec, rng: Rng) returns (out: Bytes, ghost blocks: seq<Block>)
    requires forall i | 0 <= i < |f.issuers| :: f.issuers[i].SerialsFit()
    modifies rng
    ensures BuiltFor(sha, f.issuers, blocks) && Ordered(blocks) && Placed(blocks)
    ensures out == EncodeFile(f.coverage, blocks, ColumnsOf(blocks), ExactOf(blocks))
    ensures TotalWeight(blocks) <= TotalBudget(f.issuers)
  {
    var solved := BuildBlocks(sha, f.issuers, rng);
    BuiltShapes(sha, f.issuers, solved);
    blocks := solved;
    out := Serialize(f.coverage, solved);
  }
}
