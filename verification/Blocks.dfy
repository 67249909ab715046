/** Building one issuer's block: hashing its serials, solving the approximate and
    the exact ribbon, and recording the exceptions. */
module Blocks {
  import opened Words
  import opened Gf2
  import opened Ribbons
  import opened ByteStrings
  import opened HashWindows

  /** One enrolled issuer and its universe of serials. */
  datatype Issuer = Issuer(spkiHash: Bytes32, revoked: seq<Bytes>, notRevoked: seq<Bytes>) {
    /** The limit the wire format puts on serials; the builder panics past it. */
    predicate SerialsFit() {
      && (forall i | 0 <= i < |revoked| :: |revoked[i]| <= 255)
      && (forall i | 0 <= i < |notRevoked| :: |notRevoked[i]| <= 255)
    }
  }

  // ----- Items -----

  datatype Item = Item(a: Limbs, serial: Bytes) {
    /** The item's equation over `m` row positions. */
    function EquationAt(m: nat, b: bool): Row
      requires m > 0
    {
      Row(Position(a) % m, a, b)
    }
  }

  function ItemOf(sha: Digest, issuer: Bytes32, serial: Bytes): (it: Item)
    ensures BitAt(it.a, 0)
  {
    Item(Coefficients(sha(issuer + serial)), serial)
  }

  /** The hashed `serials`, in order. */
  function ItemsOf(sha: Digest, issuer: Bytes32, serials: seq<Bytes>): (items: seq<Item>)
    ensures |items| == |serials| && forall i | 0 <= i < |serials| :: items[i] == ItemOf(sha, issuer, serials[i])
  {
    seq(|serials|, i requires 0 <= i < |serials| => ItemOf(sha, issuer, serials[i]))
  }

  method HashAll(sha: Digest, issuer: Bytes32, serials: seq<Bytes>) returns (items: seq<Item>)
    requires forall i | 0 <= i < |serials| :: |serials[i]| <= 255
    ensures items == ItemsOf(sha, issuer, serials)
  {
    items := [];
    for k := 0 to |serials|
      invariant items == ItemsOf(sha, issuer, serials)[..k]
    {
      var sum := sha(issuer + serials[k]);
      items := items + [Item(Coefficients(sum), serials[k])];
    }
  }

  lemma {:induction false} ItemEquation(it: Item, m: nat, b: bool)
    requires m > 0 && BitAt(it.a, 0)
    ensures it.EquationAt(m, b).Aligned() && it.EquationAt(m, b).Within(m + 255)
  {}

  // ----- Blocks -----

  /** One issuer's solved ribbons and its index entry fields. */
  datatype Block = Block(
    id: Bytes32, inverted: bool,
    approxM: nat, rank: nat, hOffset: nat, approxSegs: seq<Column>,
    exactM: nat, gOffset: nat, exactSeg: Column, exceptions: seq<Bytes>)

  /** Every 256-bit window starting below row `m` stays inside the segment, and
      the segment is not much longer than that takes. */
  predicate Roomy(seg: Column, m: nat) {
    m + 256 <= 64 * |seg| <= m + 574
  }

  predicate WellShaped(b: Block) {
    && |b.approxSegs| == b.rank
    && (b.approxM == 0 ==> b.rank == 0 && b.exactM == 0 && b.exactSeg == [] && b.exceptions == [])
    && (b.approxM > 0 ==> !b.inverted && b.exactM > 0 && Roomy(b.exactSeg, b.exactM))
    && (forall c | 0 <= c < b.rank :: Roomy(b.approxSegs[c], b.approxM) && |b.approxSegs[c]| == |b.approxSegs[0]|)
  }

  /** The approximate filter lets `a` through: every segment vanishes on it. */
  ghost predicate Through(a: Limbs, m: nat, segs: seq<Column>)
    requires m > 0
  {
    forall c | 0 <= c < |segs| :: !Dot(a, AssignmentOf(segs[c]), Position(a) % m)
  }

  ghost predicate OwnApprox(b: Block, a: Limbs)
    requires b.approxM > 0
  {
    Through(a, b.approxM, b.approxSegs)
  }

  ghost predicate OwnExact(b: Block, a: Limbs)
    requires b.exactM > 0
  {
    !Dot(a, AssignmentOf(b.exactSeg), Position(a) % b.exactM)
  }

  /** The block's answer for a serial, on its own segments. */
  ghost predicate Answers(b: Block, a: Limbs, serial: Bytes)
    requires WellShaped(b)
  {
    if b.approxM == 0 then b.inverted
    else OwnApprox(b, a) && OwnExact(b, a) && serial !in b.exceptions
  }

  /** The number of bits needed for `n`, as bits.Len. */
  function BitLen(n: nat): (r: nat)
    ensures n > 0 ==> r > 0 && Pow2(r - 1) <= n < Pow2(r)
  {
    if n == 0 then 0 else 1 + BitLen(n / 2)
  }

  /** The items it lets through, in order. */
  ghost function Survivors(good: seq<Item>, m: nat, segs: seq<Column>): (r: seq<Item>)
    requires m > 0
    ensures |r| <= |good|
  {
    if good == [] then [] else
      var last := good[|good| - 1];
      Survivors(good[..|good| - 1], m, segs) + if Through(last.a, m, segs) then [last] else []
  }

  /** 2% row overhead, and one column per factor of two between the two sides. */
  predicate Sized(iss: Issuer, b: Block) {
    var nR, nG := |iss.revoked|, |iss.notRevoked|;
    && b.inverted == (nR > 0 && nG == 0)
    && b.approxM == (if nR == 0 || nG == 0 then 0 else nR + nR / 50)
    && (b.approxM > 0 ==>
        && (if nG > nR then Pow2(b.rank) <= nG / nR < Pow2(b.rank + 1) else b.rank == 0)
        && b.exactM <= nR + nG + (nR + nG) / 50)
    && |b.exceptions| <= nG
  }

  /** The exact filter is sized by what reaches it. */
  ghost predicate ExactSized(sha: Digest, iss: Issuer, b: Block)
    requires b.approxM > 0
  {
    var n := |iss.revoked| + |Survivors(ItemsOf(sha, iss.spkiHash, iss.notRevoked), b.approxM, b.approxSegs)|;
    b.exactM == n + n / 50
  }

  /** The block classifies its issuer's universe, up to recorded exceptions, all
      of which are serials that are not revoked. */
  ghost predicate Solves(sha: Digest, iss: Issuer, b: Block) {
    && WellShaped(b) && Sized(iss, b) && b.id == iss.spkiHash
    && (forall e | e in b.exceptions :: e in iss.notRevoked)
    && (forall s | s in iss.revoked ::
          if b.approxM == 0 then b.inverted
          else OwnApprox(b, ItemOf(sha, iss.spkiHash, s).a) && OwnExact(b, ItemOf(sha, iss.spkiHash, s).a))
    && (forall s | s in iss.notRevoked :: !Answers(b, ItemOf(sha, iss.spkiHash, s).a, s))
  }

  /** On the issuer's universe a solving block answers exactly the serials not
      enrolled as not revoked; one enrolled as both counts as not revoked. */
  lemma {:induction false} SolvesIsExact(sha: Digest, iss: Issuer, b: Block, serial: Bytes)
    requires Solves(sha, iss, b)
    requires serial in iss.revoked || serial in iss.notRevoked
    ensures Answers(b, ItemOf(sha, iss.spkiHash, serial).a, serial) <==> serial !in iss.notRevoked
  {}

  // ----- Solving the two filters -----

  /** The homogeneous equations of the first `n` items all hold of `x`. */
  ghost predicate AllHomogeneous(items: seq<Item>, n: nat, m: nat, x: Assignment)
    requires m > 0 && n <= |items|
  {
    forall k | 0 <= k < n :: items[k].EquationAt(m, false).Holds(x)
  }

  lemma {:induction false} AllHomogeneousAtZero(items: seq<Item>, n: nat, m: nat)
    requires m > 0 && n <= |items|
    ensures AllHomogeneous(items, n, m, ALL_ZERO)
  {
    forall k | 0 <= k < n ensures items[k].EquationAt(m, false).Holds(ALL_ZERO) {
      HomogeneousHolds(items[k].EquationAt(m, false));
    }
  }

  /** Insertion of homogeneous equations cannot fail: the zero assignment is
      always a solution. */
  method InsertAll(r: Ribbon, items: seq<Item>, m: nat)
    requires m > 0 && r.Valid() && r.reach == m + 255
    requires forall k | 0 <= k < |items| :: BitAt(items[k].a, 0)
    requires forall x: Assignment :: Satisfies(r.rows, x)
    modifies r
    ensures r.Valid() && |r.rows| >= old(|r.rows|)
    ensures forall x: Assignment :: Satisfies(r.rows, x) <==> AllHomogeneous(items, |items|, m, x)
  {
    for k := 0 to |items|
      invariant r.Valid() && |r.rows| >= old(|r.rows|)
      invariant forall x: Assignment :: Satisfies(r.rows, x) <==> AllHomogeneous(items, k, m, x)
    {
      ghost var before := r.rows;
      ItemEquation(items[k], m, false);
      var ok := r.Insert(items[k].EquationAt(m, false));
      HomogeneousAccepted(items, k, m, before, ok);
      assert ok;
      forall x: Assignment ensures Satisfies(r.rows, x) <==> AllHomogeneous(items, k + 1, m, x) {
        assert Satisfies(r.rows, x) <==> Satisfies(before, x) && items[k].EquationAt(m, false).Holds(x);
      }
    }
  }

  /** Why the `k`-th homogeneous insertion succeeds. */
  lemma {:induction false} HomogeneousAccepted(items: seq<Item>, k: nat, m: nat, rows: seq<Row>, ok: bool)
    requires m > 0 && k < |items|
    requires forall x: Assignment :: Satisfies(rows, x) <==> AllHomogeneous(items, k, m, x)
    requires !ok ==> forall x: Assignment :: !(Satisfies(rows, x) && items[k].EquationAt(m, false).Holds(x))
    ensures ok
  {
    AllHomogeneousAtZero(items, k + 1, m);
    AllHomogeneousAtZero(items, k, m);
    assert Satisfies(rows, ALL_ZERO);
    assert items[k].EquationAt(m, false).Holds(ALL_ZERO);
  }

  lemma {:induction false} RoomyFrom(rows: nat, m: nat, seg: Column)
    requires m <= rows <= m + 255 && |seg| == (rows + 63) / 64 + 4
    ensures Roomy(seg, m)
  {}

  /** One column per unit of rank, all from the same system. */
  method SolveApprox(revoked: seq<Item>, m: nat, rank: nat, rng: Rng) returns (segs: seq<Column>)
    requires m > 0 && forall k | 0 <= k < |revoked| :: BitAt(revoked[k].a, 0)
    modifies rng
    ensures |segs| == rank
    ensures forall c | 0 <= c < rank :: Roomy(segs[c], m) && |segs[c]| == |segs[0]|
    ensures forall c | 0 <= c < rank :: AllHomogeneous(revoked, |revoked|, m, AssignmentOf(segs[c]))
  {
    var r := new Ribbon(m);
    InsertAll(r, revoked, m);
    ghost var rows := r.rows;
    segs := [];
    for i := 0 to rank
      invariant r.Valid() && r.reach == m + 255 && r.rows == rows && |segs| == i
      invariant forall c | 0 <= c < i :: Roomy(segs[c], m) && |segs[c]| == (|rows| + 63) / 64 + 4
      invariant forall c | 0 <= c < i :: AllHomogeneous(revoked, |revoked|, m, AssignmentOf(segs[c]))
    {
      var z := r.Solve(rng);
      RoomyFrom(|r.rows|, m, z[..]);
      segs := segs + [z[..]];
    }
  }

  /** Whether every column of the approximate filter lets the item through. */
  method PassesApprox(it: Item, m: nat, segs: seq<Column>) returns (passes: bool)
    requires m > 0
    ensures passes == Through(it.a, m, segs)
  {
    for i := 0 to |segs|
      invariant forall c | 0 <= c < i :: !Dot(it.a, AssignmentOf(segs[c]), Position(it.a) % m)
    {
      var v := Eval(it.EquationAt(m, false), segs[i]);
      if v {
        return false;
      }
    }
    return true;
  }

  /** `x` satisfies the accepted ones among the first `|accepted|` equations; the
      first `nR` items are on the zero side, the others on the one side. */
  ghost predicate Enforces(universe: seq<Item>, nR: nat, m: nat, accepted: seq<bool>, x: Assignment)
    requires m > 0 && |accepted| <= |universe|
  {
    forall k | 0 <= k < |accepted| && accepted[k] :: universe[k].EquationAt(m, k >= nR).Holds(x)
  }

  /** The rejected items are exactly accounted for by the recorded exceptions. */
  ghost predicate Recorded(universe: seq<Item>, nR: nat, accepted: seq<bool>, exceptions: seq<Bytes>)
    requires |accepted| <= |universe|
  {
    && (forall k | 0 <= k < |accepted| && k < nR :: accepted[k])
    && (forall k | 0 <= k < |accepted| && !accepted[k] :: universe[k].serial in exceptions)
    && (forall e | e in exceptions :: exists k | nR <= k < |accepted| :: universe[k].serial == e)
    && |exceptions| <= (if |accepted| <= nR then 0 else |accepted| - nR)
  }

  /** Items on the zero side alone are satisfied by the zero assignment. */
  lemma {:induction false} EnforcedAtZero(universe: seq<Item>, nR: nat, m: nat, accepted: seq<bool>)
    requires m > 0 && |accepted| <= |universe| && |accepted| <= nR
    ensures Enforces(universe, nR, m, accepted, ALL_ZERO)
  {
    forall k | 0 <= k < |accepted| ensures universe[k].EquationAt(m, false).Holds(ALL_ZERO) {
      HomogeneousHolds(universe[k].EquationAt(m, false));
    }
  }

  /** What one insertion into the exact ribbon does to the bookkeeping. */
  lemma {:induction false} InsertedOne(universe: seq<Item>, nR: nat, m: nat, accepted: seq<bool>, before: seq<Row>, after: seq<Row>, ok: bool)
    requires m > 0 && |accepted| < |universe|
    requires forall x: Assignment :: Satisfies(before, x) <==> Enforces(universe, nR, m, accepted, x)
    requires var eq := universe[|accepted|].EquationAt(m, |accepted| >= nR);
             if ok then forall x: Assignment :: Satisfies(after, x) <==> Satisfies(before, x) && eq.Holds(x)
             else after == before && forall x: Assignment :: !(Satisfies(after, x) && eq.Holds(x))
    ensures forall x: Assignment :: Satisfies(after, x) <==> Enforces(universe, nR, m, accepted + [ok], x)
    ensures |accepted| < nR ==> ok
  {
    var i := |accepted|;
    var eq := universe[i].EquationAt(m, i >= nR);
    var now := accepted + [ok];
    forall x: Assignment ensures Satisfies(after, x) <==> Enforces(universe, nR, m, now, x) {
      assert Satisfies(before, x) <==> Enforces(universe, nR, m, accepted, x);
      assert ok ==> (Satisfies(after, x) <==> Satisfies(before, x) && eq.Holds(x));
      if Enforces(universe, nR, m, now, x) {
        forall k | 0 <= k < i && accepted[k] ensures universe[k].EquationAt(m, k >= nR).Holds(x) {
          assert now[k];
        }
        assert now[i] ==> eq.Holds(x);
      }
    }
    if i < nR {
      EnforcedAtZero(universe, nR, m, accepted);
      assert Satisfies(before, ALL_ZERO);
      HomogeneousHolds(eq);
    }
  }

  /** The segment answers false for the revoked and true for every other item
      that is not an exception, and every exception is one of those. */
  ghost predicate ExactSolved(universe: seq<Item>, nR: nat, m: nat, seg: Column, exceptions: seq<Bytes>)
    requires m > 0 && nR <= |universe|
  {
    && (forall k | 0 <= k < nR :: universe[k].EquationAt(m, false).Holds(AssignmentOf(seg)))
    && (forall k | nR <= k < |universe| && universe[k].serial !in exceptions ::
          universe[k].EquationAt(m, true).Holds(AssignmentOf(seg)))
    && (forall e | e in exceptions :: exists k | nR <= k < |universe| :: universe[k].serial == e)
  }

  /** The exact ribbon: one retrieval bit per universe item, zero for the first
      `nR`, one for the others, with contradictory items set aside. */
  method SolveExact(universe: seq<Item>, nR: nat, m: nat, rng: Rng) returns (seg: Column, exceptions: seq<Bytes>)
    requires m > 0 && nR <= |universe|
    requires forall k | 0 <= k < |universe| :: BitAt(universe[k].a, 0)
    modifies rng
    ensures Roomy(seg, m) && |exceptions| <= |universe| - nR
    ensures ExactSolved(universe, nR, m, seg, exceptions)
  {
    var r := new Ribbon(m);
    exceptions := [];
    ghost var accepted: seq<bool> := [];
    for i := 0 to |universe|
      invariant r.Valid() && r.reach == m + 255 && |r.rows| >= m && fresh(r)
      invariant |accepted| == i && Recorded(universe, nR, accepted, exceptions)
      invariant forall x: Assignment :: Satisfies(r.rows, x) <==> Enforces(universe, nR, m, accepted, x)
    {
      ghost var before := r.rows;
      var rhs := i >= nR;
      ItemEquation(universe[i], m, rhs);
      var ok := r.Insert(universe[i].EquationAt(m, rhs));
      InsertedOne(universe, nR, m, accepted, before, r.rows, ok);
      RecordedOne(universe, nR, accepted, exceptions, ok);
      if !ok {
        exceptions := exceptions + [universe[i].serial];
      }
      accepted := accepted + [ok];
    }
    var z := r.Solve(rng);
    seg := z[..];
    RoomyFrom(|r.rows|, m, seg);
    assert Enforces(universe, nR, m, accepted, AssignmentOf(seg));
  }

  lemma {:induction false} RecordedOne(universe: seq<Item>, nR: nat, accepted: seq<bool>, exceptions: seq<Bytes>, ok: bool)
    requires |accepted| < |universe| && Recorded(universe, nR, accepted, exceptions)
    requires |accepted| < nR ==> ok
    ensures Recorded(universe, nR, accepted + [ok],
                     if ok then exceptions else exceptions + [universe[|accepted|].serial])
  {
    var i := |accepted|;
    var now := if ok then exceptions else exceptions + [universe[i].serial];
    forall e | e in now ensures exists k | nR <= k < i + 1 :: universe[k].serial == e {
      if e in exceptions {
        var k :| nR <= k < i && universe[k].serial == e;
        assert nR <= k < i + 1;
      } else {
        assert nR <= i < i + 1 && universe[i].serial == e;
      }
    }
    assert !ok ==> universe[i].serial in now;
  }

  // ----- The whole block -----

  lemma {:induction false} SurvivorsMember(good: seq<Item>, m: nat, segs: seq<Column>, it: Item)
    requires m > 0
    ensures it in Survivors(good, m, segs) <==> it in good && Through(it.a, m, segs)
  {
    if good != [] {
      SurvivorsMember(good[..|good| - 1], m, segs, it);
      assert good == good[..|good| - 1] + [good[|good| - 1]];
    }
  }

  lemma {:induction false} SurvivorIsGood(universe: seq<Item>, revoked: seq<Item>, good: seq<Item>, m: nat, segs: seq<Column>, k: nat)
    returns (j: nat)
    requires m > 0 && universe == revoked + Survivors(good, m, segs) && |revoked| <= k < |universe|
    ensures j < |good| && good[j] == universe[k]
  {
    SurvivorsMember(good, m, segs, universe[k]);
    assert universe[k] == Survivors(good, m, segs)[k - |revoked|];
    j :| 0 <= j < |good| && good[j] == universe[k];
  }

  lemma {:induction false} GoodSurvives(universe: seq<Item>, revoked: seq<Item>, good: seq<Item>, m: nat, segs: seq<Column>, j: nat)
    returns (k: nat)
    requires m > 0 && universe == revoked + Survivors(good, m, segs)
    requires j < |good| && Through(good[j].a, m, segs)
    ensures |revoked| <= k < |universe| && universe[k] == good[j]
  {
    var rest := Survivors(good, m, segs);
    assert good[j] in rest by { SurvivorsMember(good, m, segs, good[j]); }
    var i :| 0 <= i < |rest| && rest[i] == good[j];
    k := |revoked| + i;
    assert universe[k] == rest[i];
  }

  lemma {:induction false} UniverseNext(revoked: seq<Item>, good: seq<Item>, k: nat, m: nat, segs: seq<Column>)
    requires m > 0 && k < |good|
    ensures revoked + Survivors(good[..k + 1], m, segs)
         == revoked + Survivors(good[..k], m, segs) + if Through(good[k].a, m, segs) then [good[k]] else []
  {
    assert good[..k + 1][..k] == good[..k];
  }

  /** The universe of the exact filter: all revoked items, then the good ones that
      survive the approximate filter, in order. */
  method SelectUniverse(revoked: seq<Item>, good: seq<Item>, m: nat, segs: seq<Column>) returns (universe: seq<Item>)
    requires m > 0
    ensures universe == revoked + Survivors(good, m, segs)
  {
    universe := revoked;
    for k := 0 to |good|
      invariant universe == revoked + Survivors(good[..k], m, segs)
    {
      UniverseNext(revoked, good, k, m, segs);
      var passes := PassesApprox(good[k], m, segs);
      if passes {
        universe := universe + [good[k]];
      }
    }
    assert good[..|good|] == good;
  }

  /** How the parts of a block that is not empty came about. */
  ghost predicate SolvedFrom(sha: Digest, iss: Issuer, b: Block, revoked: seq<Item>, good: seq<Item>, universe: seq<Item>) {
    && revoked == ItemsOf(sha, iss.spkiHash, iss.revoked) && good == ItemsOf(sha, iss.spkiHash, iss.notRevoked)
    && b.approxM > 0 && WellShaped(b)
    && universe == revoked + Survivors(good, b.approxM, b.approxSegs)
    && (forall c | 0 <= c < b.rank :: AllHomogeneous(revoked, |revoked|, b.approxM, AssignmentOf(b.approxSegs[c])))
    && ExactSolved(universe, |revoked|, b.exactM, b.exactSeg, b.exceptions)
  }

  /** Only serials that are not revoked become exceptions. */
  lemma {:induction false} ExceptionsNotRevoked(sha: Digest, iss: Issuer, b: Block, revoked: seq<Item>, good: seq<Item>, universe: seq<Item>)
    requires SolvedFrom(sha, iss, b, revoked, good, universe)
    ensures forall e | e in b.exceptions :: e in iss.notRevoked
  {
    forall e | e in b.exceptions ensures e in iss.notRevoked {
      var k :| |revoked| <= k < |universe| && universe[k].serial == e;
      var j := SurvivorIsGood(universe, revoked, good, b.approxM, b.approxSegs, k);
      assert iss.notRevoked[j] == e;
    }
  }

  lemma {:induction false} RevokedPass(sha: Digest, iss: Issuer, b: Block, revoked: seq<Item>, good: seq<Item>, universe: seq<Item>, i: nat)
    requires SolvedFrom(sha, iss, b, revoked, good, universe) && i < |revoked|
    ensures OwnApprox(b, revoked[i].a) && OwnExact(b, revoked[i].a)
  {
    var it := revoked[i];
    assert universe[i] == it;
    assert universe[i].EquationAt(b.exactM, false).Holds(AssignmentOf(b.exactSeg));
    forall c | 0 <= c < b.rank ensures !Dot(it.a, AssignmentOf(b.approxSegs[c]), Position(it.a) % b.approxM) {
      assert AllHomogeneous(revoked, |revoked|, b.approxM, AssignmentOf(b.approxSegs[c]));
      assert it.EquationAt(b.approxM, false).Holds(AssignmentOf(b.approxSegs[c]));
    }
  }

  lemma {:induction false} GoodFail(sha: Digest, iss: Issuer, b: Block, revoked: seq<Item>, good: seq<Item>, universe: seq<Item>, j: nat)
    requires SolvedFrom(sha, iss, b, revoked, good, universe) && j < |good|
    ensures !Answers(b, good[j].a, good[j].serial)
  {
    var it := good[j];
    if OwnApprox(b, it.a) && it.serial !in b.exceptions {
      var k := GoodSurvives(universe, revoked, good, b.approxM, b.approxSegs, j);
      assert universe[k].EquationAt(b.exactM, true).Holds(AssignmentOf(b.exactSeg));
    }
  }

  /** The solved segments classify the universe. */
  lemma {:induction false} SolvedBlock(sha: Digest, iss: Issuer, b: Block, revoked: seq<Item>, good: seq<Item>, universe: seq<Item>)
    requires SolvedFrom(sha, iss, b, revoked, good, universe)
    requires b.id == iss.spkiHash && Sized(iss, b)
    ensures Solves(sha, iss, b)
  {
    ExceptionsNotRevoked(sha, iss, b, revoked, good, universe);
    forall s | s in iss.revoked
      ensures OwnApprox(b, ItemOf(sha, iss.spkiHash, s).a) && OwnExact(b, ItemOf(sha, iss.spkiHash, s).a)
    {
      var i :| 0 <= i < |iss.revoked| && iss.revoked[i] == s;
      RevokedPass(sha, iss, b, revoked, good, universe, i);
    }
    forall s | s in iss.notRevoked ensures !Answers(b, ItemOf(sha, iss.spkiHash, s).a, s) {
      var j :| 0 <= j < |iss.notRevoked| && iss.notRevoked[j] == s;
      GoodFail(sha, iss, b, revoked, good, universe, j);
    }
  }

  /** One roomy segment per rank, all of one length, each answering false for the revoked. */
  ghost predicate ApproxSolved(revoked: seq<Item>, m: nat, rank: nat, segs: seq<Column>)
    requires m > 0
  {
    && |segs| == rank
    && (forall c | 0 <= c < rank :: Roomy(segs[c], m) && |segs[c]| == |segs[0]|)
    && (forall c | 0 <= c < rank :: AllHomogeneous(revoked, |revoked|, m, AssignmentOf(segs[c])))
  }

  /** Rank 0 unless the good outnumber the revoked. */
  function RankFor(nR: nat, nG: nat): (rank: nat)
    requires 0 < nR
    ensures if nG > nR then Pow2(rank) <= nG / nR < Pow2(rank + 1) else rank == 0
  {
    if 2 * nR < nR + nG then BitLen(nG / nR) - 1 else 0
  }

  /** The approximate half: its size, its rank and one segment per rank. */
  method BuildApprox(revoked: seq<Item>, nG: nat, rng: Rng) returns (m: nat, rank: nat, segs: seq<Column>)
    requires 0 < |revoked| && forall k | 0 <= k < |revoked| :: BitAt(revoked[k].a, 0)
    modifies rng
    ensures m == |revoked| + |revoked| / 50 && rank == RankFor(|revoked|, nG)
    ensures ApproxSolved(revoked, m, rank, segs)
  {
    m, rank, segs := |revoked| + |revoked| / 50, RankFor(|revoked|, nG), [];
    if rank > 0 {
      segs := SolveApprox(revoked, m, rank, rng);
    }
  }

  /** The universe the exact filter sees consists of items of the two sides. */
  lemma {:induction false} UniverseAligned(universe: seq<Item>, revoked: seq<Item>, good: seq<Item>, m: nat, segs: seq<Column>)
    requires m > 0 && universe == revoked + Survivors(good, m, segs)
    requires forall k | 0 <= k < |revoked| :: BitAt(revoked[k].a, 0)
    requires forall k | 0 <= k < |good| :: BitAt(good[k].a, 0)
    ensures forall k | 0 <= k < |universe| :: BitAt(universe[k].a, 0)
  {
    forall k | 0 <= k < |universe| ensures BitAt(universe[k].a, 0) {
      if k >= |revoked| {
        var j := SurvivorIsGood(universe, revoked, good, m, segs, k);
      }
    }
  }

  /** Solves one issuer's approximate and exact ribbons. */
  method BuildBlock(sha: Digest, iss: Issuer, rng: Rng) returns (b: Block)
    requires iss.SerialsFit()
    modifies rng
    ensures Solves(sha, iss, b) && b.hOffset == 0 && b.gOffset == 0
    ensures b.approxM > 0 ==> ExactSized(sha, iss, b)
  {
    var nR, nU := |iss.revoked|, |iss.revoked| + |iss.notRevoked|;
    if nR == 0 || nR == nU {
      b := Block(iss.spkiHash, nR > 0, 0, 0, 0, [], 0, 0, [], []);
    } else {
      b := SolveBlock(sha, iss, rng);
    }
  }

  lemma {:induction false} SizedBlock(iss: Issuer, b: Block, n: nat)
    requires iss.revoked != [] && iss.notRevoked != [] && !b.inverted
    requires b.approxM == |iss.revoked| + |iss.revoked| / 50 && b.exactM == n + n / 50
    requires b.rank == RankFor(|iss.revoked|, |iss.notRevoked|)
    requires n <= |iss.revoked| + |iss.notRevoked| && |b.exceptions| <= |iss.notRevoked|
    ensures Sized(iss, b)
  {}

  /** The parts the two ribbons give make up a solved block. */
  lemma {:induction false} PartsSolve(sha: Digest, iss: Issuer, b: Block, revoked: seq<Item>, good: seq<Item>, universe: seq<Item>)
    requires iss.revoked != [] && iss.notRevoked != [] && b.id == iss.spkiHash && !b.inverted
    requires revoked == ItemsOf(sha, iss.spkiHash, iss.revoked) && good == ItemsOf(sha, iss.spkiHash, iss.notRevoked)
    requires b.approxM == |revoked| + |revoked| / 50 && b.rank == RankFor(|revoked|, |good|)
    requires ApproxSolved(revoked, b.approxM, b.rank, b.approxSegs)
    requires universe == revoked + Survivors(good, b.approxM, b.approxSegs)
    requires b.exactM == |universe| + |universe| / 50 && Roomy(b.exactSeg, b.exactM)
    requires |b.exceptions| <= |universe| - |revoked|
    requires ExactSolved(universe, |revoked|, b.exactM, b.exactSeg, b.exceptions)
    ensures Solves(sha, iss, b)
  {
    assert SolvedFrom(sha, iss, b, revoked, good, universe);
    SizedBlock(iss, b, |universe|);
    SolvedBlock(sha, iss, b, revoked, good, universe);
  }

  method SolveBlock(sha: Digest, iss: Issuer, rng: Rng) returns (b: Block)
    requires iss.SerialsFit() && iss.revoked != [] && iss.notRevoked != []
    modifies rng
    ensures Solves(sha, iss, b) && b.hOffset == 0 && b.gOffset == 0
    ensures b.approxM > 0 && ExactSized(sha, iss, b)
  {
    var revoked := HashAll(sha, iss.spkiHash, iss.revoked);
    var good := HashAll(sha, iss.spkiHash, iss.notRevoked);
    var approxM, rank, approxSegs := BuildApprox(revoked, |good|, rng);
    var universe := SelectUniverse(revoked, good, approxM, approxSegs);
    UniverseAligned(universe, revoked, good, approxM, approxSegs);
    var exactM := |universe| + |universe| / 50;
    var exactSeg, exceptions := SolveExact(universe, |revoked|, exactM, rng);
    b := Block(iss.spkiHash, false, approxM, rank, 0, approxSegs, exactM, 0, exactSeg, exceptions);
    PartsSolve(sha, iss, b, revoked, good, universe);
  }
}
