/** The query side: an in-memory clubcard filter and its membership test. */
module Clubcard {
  import opened Words
  import opened Gf2
  import opened Windows
  import opened ByteStrings
  import opened HashWindows

  /** One block's entry; the numeric fields come from `uint32` and `uint8` wire
      fields, so adding an offset to a reduced hash cannot wrap a `uint64`. */
  datatype BlockMeta = BlockMeta(
    hOffset: nat, hModulus: nat, hRank: nat,
    gOffset: nat, gModulus: nat,
    exceptions: set<Bytes>, inverted: bool)

  datatype Filter = Filter(x: seq<Column>, y: Column, blocks: map<Bytes32, BlockMeta>)

  // ----- The membership test -----

  /** Whether the inner product of `coef` with the 256 column bits from
      `rowOffset` on vanishes. */
  method BitsXorIsZero(column: Column, rowOffset: nat, coef: Limbs) returns (zero: bool)
    ensures zero == !Dot(coef, AssignmentOf(column), rowOffset)
  {
    var limb, shift := rowOffset / 64, rowOffset % 64;
    var r := ZeroWord();
    ParityOfZeros(r);
    var i := limb;
    while i < |column| && i < limb + 4
      invariant limb <= i <= limb + 4
      invariant i > limb ==> i <= |column|
      invariant Parity(r) == Inner(coef, AssignmentOf(column), rowOffset, 64 * (i - limb))
    {
      var tmp := Assembled(column, i, shift);
      WindowStep(column, rowOffset, coef, i, r);
      r := Xor(r, And(tmp, coef[i - limb]));
      i := i + 1;
    }
    WindowEnd(column, rowOffset, coef, i - limb);
    OnesCountParity(r);
    zero := OnesCount(r) % 2 == 0;
  }

  /** The hash passes every column of the approximate filter the block uses. */
  ghost predicate PassesApprox(f: Filter, meta: BlockMeta, a: Limbs)
    requires meta.hModulus > 0 && meta.hRank <= |f.x|
  {
    forall i | 0 <= i < meta.hRank ::
      !Dot(a, AssignmentOf(f.x[i]), meta.hOffset + Position(a) % meta.hModulus)
  }

  ghost predicate PassesExact(f: Filter, meta: BlockMeta, a: Limbs) {
    meta.gModulus != 0 ==> !Dot(a, AssignmentOf(f.y), meta.gOffset + Position(a) % meta.gModulus)
  }

  /** Membership of the element with coefficients `a`, in a block that is not empty:
      it must pass both filters and not be an exception, up to polarity. */
  ghost predicate Probed(f: Filter, meta: BlockMeta, a: Limbs, serial: Bytes)
    requires meta.hModulus > 0 && meta.hRank <= |f.x|
  {
    (PassesApprox(f, meta, a) && PassesExact(f, meta, a) && serial !in meta.exceptions) != meta.inverted
  }

  /** Membership; an empty block answers its polarity. */
  ghost predicate Member(f: Filter, meta: BlockMeta, h: Bytes32, serial: Bytes)
    requires meta.hRank <= |f.x|
  {
    if meta.hModulus == 0 then meta.inverted else Probed(f, meta, Coefficients(h), serial)
  }

  /** Membership in terms of the hash's bytes. */
  ghost predicate Query(f: Filter, meta: BlockMeta, h: Bytes32, serial: Bytes)
    requires meta.hRank <= |f.x|
  {
    if meta.hModulus == 0 then meta.inverted
    else
      (&& (forall c | 0 <= c < meta.hRank :: Vanishes(h, f.x[c], HashRow(h, meta.hOffset, meta.hModulus)))
       && (meta.gModulus > 0 ==> Vanishes(h, f.y, HashRow(h, meta.gOffset, meta.gModulus)))
       && serial !in meta.exceptions) != meta.inverted
  }

  lemma {:induction false} ApproxIsProbes(f: Filter, meta: BlockMeta, a: Limbs, h: Bytes32)
    requires meta.hModulus > 0 && meta.hRank <= |f.x| && IsWindow(a, h)
    ensures PassesApprox(f, meta, a)
       <==> forall c | 0 <= c < meta.hRank :: Vanishes(h, f.x[c], HashRow(h, meta.hOffset, meta.hModulus))
  {
    var row := HashRow(h, meta.hOffset, meta.hModulus);
    forall c | 0 <= c < meta.hRank ensures !Dot(a, AssignmentOf(f.x[c]), row) == Vanishes(h, f.x[c], row) {
      DotIsProbe(a, h, f.x[c], row);
    }
  }

  lemma {:induction false} ExactIsProbe(f: Filter, meta: BlockMeta, a: Limbs, h: Bytes32)
    requires IsWindow(a, h)
    ensures PassesExact(f, meta, a)
       <==> (meta.gModulus > 0 ==> Vanishes(h, f.y, HashRow(h, meta.gOffset, meta.gModulus)))
  {
    if meta.gModulus > 0 {
      DotIsProbe(a, h, f.y, HashRow(h, meta.gOffset, meta.gModulus));
    }
  }

  lemma {:induction false} ProbedIsQuery(f: Filter, meta: BlockMeta, a: Limbs, h: Bytes32, serial: Bytes)
    requires meta.hModulus > 0 && meta.hRank <= |f.x| && IsWindow(a, h)
    ensures Probed(f, meta, a, serial) == Query(f, meta, h, serial)
  {
    ApproxIsProbes(f, meta, a, h);
    ExactIsProbe(f, meta, a, h);
  }

  lemma {:induction false} MemberIsQuery(f: Filter, meta: BlockMeta, h: Bytes32, serial: Bytes)
    requires meta.hRank <= |f.x|
    ensures Member(f, meta, h, serial) == Query(f, meta, h, serial)
  {
    if meta.hModulus > 0 {
      WindowOfHash(h);
      ProbedIsQuery(f, meta, Coefficients(h), h, serial);
    }
  }

  /** The column loop of `Contains`. */
  method CheckColumns(f: Filter, meta: BlockMeta, a: Limbs) returns (passes: bool)
    requires meta.hModulus > 0 && meta.hRank <= |f.x|
    ensures passes == PassesApprox(f, meta, a)
  {
    var hRow := meta.hOffset + Position(a) % meta.hModulus;
    for i := 0 to meta.hRank
      invariant forall c | 0 <= c < i :: !Dot(a, AssignmentOf(f.x[c]), hRow)
    {
      var zero := BitsXorIsZero(f.x[i], hRow, a);
      if !zero {
        return false;
      }
    }
    return true;
  }

  method CheckExact(f: Filter, meta: BlockMeta, a: Limbs) returns (passes: bool)
    ensures passes == PassesExact(f, meta, a)
  {
    if meta.gModulus == 0 {
      return true;
    }
    var gRow := meta.gOffset + Position(a) % meta.gModulus;
    passes := BitsXorIsZero(f.y, gRow, a);
  }

  method Probe(f: Filter, meta: BlockMeta, a: Limbs, serial: Bytes) returns (r: bool)
    requires meta.hModulus > 0 && meta.hRank <= |f.x|
    ensures r == Probed(f, meta, a, serial)
  {
    var approx := CheckColumns(f, meta, a);
    if !approx {
      return meta.inverted;
    }
    var exact := CheckExact(f, meta, a);
    if !exact {
      return meta.inverted;
    }
    if serial in meta.exceptions {
      return meta.inverted;
    }
    return !meta.inverted;
  }

  /** The query: the empty block first, which also keeps the moduli nonzero. */
  method Contains(f: Filter, meta: BlockMeta, h: Bytes32, serial: Bytes) returns (r: bool)
    requires meta.hRank <= |f.x|
    ensures r == Member(f, meta, h, serial) && r == Query(f, meta, h, serial)
  {
    MemberIsQuery(f, meta, h, serial);
    if meta.hModulus == 0 {
      return meta.inverted;
    }
    var aLimbs := Coefficients(h);
    r := Probe(f, meta, aLimbs, serial);
  }
}
