/** When an enrolment is small enough for the wire fields, and the whole path
    from enrolment to query run in one go. */
module EndToEnd {
  import opened Words
  import opened Ribbons
  import opened ByteStrings
  import opened HashWindows
  import opened Wrappers
  import opened FilterFormat
  import opened Crlite
  import opened Blocks
  import opened FilterWriter
  import opened RoundTrip
  import opened Exactness
  import Parser

  /** A condition on the enrolment alone under which every wire field suffices. */
  predicate SizesFit(f: FilterSpec) {
    && |f.coverage| < 0x1_0000 && |f.issuers| < 0x1_0000_0000
    && TotalBudget(f.issuers) < 0x1_0000_0000
    && forall k | 0 <= k < |f.issuers| :: f.issuers[k].SerialsFit() && |f.issuers[k].notRevoked| < 0x1_0000
  }

  lemma {:induction false} BudgetOfOne(issuers: seq<Issuer>, k: nat)
    requires k < |issuers|
    ensures Budget(issuers[k]) <= TotalBudget(issuers)
  {
    if k > 0 {
      BudgetOfOne(issuers[1..], k - 1);
    }
  }

  lemma {:induction false} WeightSplit(a: seq<Block>, b: seq<Block>)
    ensures TotalWeight(a + b) == TotalWeight(a) + TotalWeight(b)
  {
    if a == [] {
      assert a + b == b;
    } else {
      WeightSplit(a[1..], b);
      assert (a + b)[1..] == a[1..] + b;
    }
  }

  /** Packed columns take no more space than the blocks were weighed at. */
  lemma {:induction false} ColumnsWithinWeight(bs: seq<Block>, c: nat)
    requires forall k | 0 <= k < |bs| :: WellShaped(bs[k])
    ensures 64 * |ColumnOf(bs, c)| + 64 * |ExactOf(bs)| <= TotalWeight(bs)
  {
    if bs != [] {
      var n := |bs| - 1;
      ColumnsWithinWeight(bs[..n], c);
      assert bs == bs[..n] + [bs[n]];
      WeightSplit(bs[..n], [bs[n]]);
      assert TotalWeight([bs[n]]) == Weight(bs[n]) + TotalWeight([]);
      assert WellShaped(bs[n]);
    }
  }

  lemma {:induction false} OffsetsWithinWeight(bs: seq<Block>, i: nat)
    requires Packed(bs) && i < |bs|
    ensures 64 * |ColumnOf(bs[..i], 0)| <= TotalWeight(bs) && 64 * |ExactOf(bs[..i])| <= TotalWeight(bs)
  {
    forall k | 0 <= k < i ensures WellShaped(bs[..i][k]) {
      assert WellShaped(bs[k]);
    }
    ColumnsWithinWeight(bs[..i], 0);
    WeightSplit(bs[..i], bs[i..]);
    assert bs == bs[..i] + bs[i..];
  }

  lemma {:induction false} Pow2AtLeast(n: nat, m: nat)
    requires m <= n
    ensures Pow2(m) <= Pow2(n)
  {
    if m < n {
      Pow2AtLeast(n - 1, m);
    }
  }

  lemma {:induction false} SmallExponent(rank: nat, n: nat)
    requires Pow2(rank) <= n < 0x1_0000
    ensures rank < 16
  {
    if rank >= 16 {
      Pow2AtLeast(rank, 16);
      Pow2IsPow256(2);
      Pow256Values();
    }
  }

  lemma {:induction false} SmallRank(sha: Digest, iss: Issuer, b: Block)
    requires Solves(sha, iss, b) && |iss.notRevoked| < 0x1_0000
    ensures b.rank < 0x100
  {
    assert Sized(iss, b) && WellShaped(b);
    if b.rank > 0 {
      SmallExponent(b.rank, |iss.notRevoked| / |iss.revoked|);
    }
  }

  lemma {:induction false} MaxRankBelow(bs: seq<Block>, bound: nat)
    requires bound > 0 && forall k | 0 <= k < |bs| :: bs[k].rank < bound
    ensures MaxRank(bs) < bound
  {
    if bs != [] {
      MaxRankBelow(bs[..|bs| - 1], bound);
    }
  }

  lemma {:induction false} SmallBlock(sha: Digest, f: FilterSpec, bs: seq<Block>, i: nat)
    requires BuiltFor(sha, f.issuers, bs) && Packed(bs) && TotalWeight(bs) <= TotalBudget(f.issuers)
    requires SizesFit(f) && i < |bs|
    ensures BlockFits(bs[i])
  {
    var b := bs[i];
    assert SolvesAmong(sha, f.issuers, b);
    var k :| 0 <= k < |f.issuers| && Solves(sha, f.issuers[k], b);
    var iss := f.issuers[k];
    BudgetOfOne(f.issuers, k);
    SmallRank(sha, iss, b);
    OffsetsWithinWeight(bs, i);
    assert PlacedAt(bs, i);
    forall e | 0 <= e < |b.exceptions| ensures |b.exceptions[e]| < 0x100 {
      assert b.exceptions[e] in b.exceptions;
      var j :| 0 <= j < |iss.notRevoked| && iss.notRevoked[j] == b.exceptions[e];
    }
  }

  /** Small enrolments fit the wire fields. */
  lemma {:induction false} SizesSuffice(sha: Digest, f: FilterSpec, bs: seq<Block>)
    requires BuiltFor(sha, f.issuers, bs) && Packed(bs) && TotalWeight(bs) <= TotalBudget(f.issuers)
    requires SizesFit(f)
    ensures FitsWire(f.coverage, bs, ColumnsOf(bs), ExactOf(bs))
  {
    forall i | 0 <= i < |bs| ensures BlockFits(bs[i]) {
      SmallBlock(sha, f, bs, i);
    }
    forall i | 0 <= i < |bs| ensures bs[i].rank < 0x100 {
      assert BlockFits(bs[i]);
    }
    MaxRankBelow(bs, 0x100);
    ColumnsWithinWeight(bs, 0);
    forall c | 0 <= c < MaxRank(bs) ensures |ColumnsOf(bs)[c]| < 0x1_0000_0000 {
      ColumnsWithinWeight(bs, c);
    }
  }

  /** Build, serialize, parse and query, as one run.  Whenever what was built fits
      the wire fields, which it does for every enrolment within the size limits,
      the file is readable iff no log and no issuer is listed twice, and then every
      enrolled serial of a covered query gets its own status. */
  method BuildAndQuery(sha: Digest, f: FilterSpec, rng: Rng, k: nat, serial: Bytes, timestamps: seq<LogTimestamp>)
    returns (status: Option<Status>, ghost bs: seq<Block>)
    requires forall i | 0 <= i < |f.issuers| :: f.issuers[i].SerialsFit()
    requires k < |f.issuers| && (serial in f.issuers[k].revoked || serial in f.issuers[k].notRevoked)
    modifies rng
    ensures SizesFit(f) ==> FitsWire(f.coverage, bs, ColumnsOf(bs), ExactOf(bs))
    ensures FitsWire(f.coverage, bs, ColumnsOf(bs), ExactOf(bs)) ==>
              status == if !DistinctLogs(f) || !DistinctIssuers(f) then None
                        else if !Claims(f, timestamps) then Some(StatusNotCovered)
                        else if serial in f.issuers[k].notRevoked then Some(StatusGood) else Some(StatusRevoked)
  {
    var out;
    out, bs := FilterBytes(sha, f, rng);
    BuiltShapes(sha, f.issuers, bs);
    if SizesFit(f) {
      SizesSuffice(sha, f, bs);
    }
    if FitsWire(f.coverage, bs, ColumnsOf(bs), ExactOf(bs)) {
      ProducedParses(sha, f, bs, out);
    }
    if FitsWire(f.coverage, bs, ColumnsOf(bs), ExactOf(bs)) && Accepted(out) {
      ExactOnUniverse(sha, f, bs, out, k, serial, timestamps);
    }
    var parsed := Parser.FromBytes(out);
    if parsed.Failure? {
      return None, bs;
    }
    AcceptedRanksWithin(out);
    var key := NewKey(sha, f.issuers[k].spkiHash, serial);
    var answer := Crlite.Contains(parsed.value, key, timestamps);
    status := Some(answer);
  }
}
