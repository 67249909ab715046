/** Sequential readers: functions from the remaining input to a value and the
    input left over.  Three laws of readers matter here and are shown to survive
    repetition: undoing an encoding, ignoring later input, and consuming. */
module Readers {
  import opened ByteStrings

  datatype Parsed<+T> = Parsed(value: T, rest: Bytes) | Malformed {
    predicate IsFailure() { Malformed? }
    function PropagateFailure<U>(): Parsed<U>
      requires Malformed?
    {
      Malformed
    }
    function Extract(): (T, Bytes)
      requires Parsed?
    {
      (value, rest)
    }
  }

  type Reader<!T> = Bytes -> Parsed<T>

  function ReadUint(s: Bytes, k: nat): Parsed<nat> {
    if |s| < k then Malformed else Parsed(GetUint(s[..k]), s[k..])
  }

  function ReadBytes(s: Bytes, k: nat): (r: Parsed<Bytes>)
    ensures r.Parsed? ==> |r.value| == k
  {
    if |s| < k then Malformed else Parsed(s[..k], s[k..])
  }

  function ReadMany<T>(n: nat, p: Reader<T>, s: Bytes): (r: Parsed<seq<T>>)
    ensures r.Parsed? ==> |r.value| == n
  {
    if n == 0 then Parsed([], s) else
      var (v, s1) :- p(s);
      var (vs, s2) :- ReadMany(n - 1, p, s1);
      Parsed([v] + vs, s2)
  }

  /** A count of `width` bytes and that many items.  With `guarded`, a count that
      promises more than what remains, at `minSize` bytes an item, is refused
      before any item is read. */
  function ReadCounted<T>(guarded: bool, width: nat, minSize: nat, p: Reader<T>, s: Bytes): Parsed<seq<T>> {
    var (count, s1) :- ReadUint(s, width);
    if guarded && count * minSize > |s1| then Malformed else ReadMany(count, p, s1)
  }

  // ----- Undoing an encoding -----

  predicate ReadsAt<T(==)>(p: Reader<T>, v: T, enc: Bytes, tail: Bytes) {
    p(enc + tail) == Parsed(v, tail)
  }

  /** `p` reads `v` off any input starting with `enc`. */
  ghost predicate Reads<T>(p: Reader<T>, v: T, enc: Bytes) {
    forall tail: Bytes :: ReadsAt(p, v, enc, tail)
  }

  function Concat(parts: seq<Bytes>): Bytes {
    if parts == [] then [] else parts[0] + Concat(parts[1..])
  }

  lemma {:induction false} ReadUintPut(n: nat, k: nat, tail: Bytes)
    requires n < Pow256(k)
    ensures ReadUint(PutUint(n, k) + tail, k) == Parsed(n, tail)
  {
    var s := PutUint(n, k) + tail;
    assert s[..k] == PutUint(n, k) && s[k..] == tail;
    GetPutSmall(n, k);
  }

  lemma {:induction false} ReadBytesBack(b: Bytes, tail: Bytes)
    ensures ReadBytes(b + tail, |b|) == Parsed(b, tail)
  {
    assert (b + tail)[..|b|] == b && (b + tail)[|b|..] == tail;
  }

  lemma {:induction false} ReadManyBack<T>(p: Reader<T>, vs: seq<T>, encs: seq<Bytes>, tail: Bytes)
    requires |vs| == |encs|
    requires forall i | 0 <= i < |vs| :: Reads(p, vs[i], encs[i])
    ensures ReadMany(|vs|, p, Concat(encs) + tail) == Parsed(vs, tail)
  {
    if vs != [] {
      var later := Concat(encs[1..]) + tail;
      assert Concat(encs) + tail == encs[0] + later;
      assert ReadsAt(p, vs[0], encs[0], later);
      ReadManyBack(p, vs[1..], encs[1..], tail);
      assert vs == [vs[0]] + vs[1..];
    } else {
      assert Concat(encs) + tail == tail;
    }
  }

  lemma {:induction false} ConcatAtLeast(parts: seq<Bytes>, m: nat)
    requires forall i | 0 <= i < |parts| :: |parts[i]| >= m
    ensures |Concat(parts)| >= |parts| * m
  {
    if parts != [] {
      ConcatAtLeast(parts[1..], m);
    }
  }

  lemma {:induction false} ReadCountedBack<T>(guarded: bool, width: nat, minSize: nat, p: Reader<T>,
                           vs: seq<T>, encs: seq<Bytes>, tail: Bytes)
    requires |vs| == |encs| < Pow256(width)
    requires forall i | 0 <= i < |vs| :: Reads(p, vs[i], encs[i]) && |encs[i]| >= minSize
    ensures ReadCounted(guarded, width, minSize, p, PutUint(|vs|, width) + Concat(encs) + tail) == Parsed(vs, tail)
  {
    assert PutUint(|vs|, width) + Concat(encs) + tail == PutUint(|vs|, width) + (Concat(encs) + tail);
    ReadUintPut(|vs|, width, Concat(encs) + tail);
    ConcatAtLeast(encs, minSize);
    ReadManyBack(p, vs, encs, tail);
  }

  // ----- Ignoring later input -----

  predicate ExtendsAt<T(==)>(p: Reader<T>, s: Bytes, t: Bytes) {
    p(s).Parsed? ==> p(s + t) == Parsed(p(s).value, p(s).rest + t)
  }

  /** What `p` reads does not depend on what follows. */
  ghost predicate Extends<T>(p: Reader<T>) {
    forall s: Bytes, t: Bytes :: ExtendsAt(p, s, t)
  }

  lemma {:induction false} ReadUintExtends(k: nat, s: Bytes, t: Bytes)
    requires ReadUint(s, k).Parsed?
    ensures ReadUint(s + t, k) == Parsed(ReadUint(s, k).value, ReadUint(s, k).rest + t)
  {
    assert (s + t)[..k] == s[..k] && (s + t)[k..] == s[k..] + t;
  }

  lemma {:induction false} ReadBytesExtends(k: nat, s: Bytes, t: Bytes)
    requires ReadBytes(s, k).Parsed?
    ensures ReadBytes(s + t, k) == Parsed(ReadBytes(s, k).value, ReadBytes(s, k).rest + t)
  {
    assert (s + t)[..k] == s[..k] && (s + t)[k..] == s[k..] + t;
  }

  lemma {:induction false} ReadManyExtends<T>(n: nat, p: Reader<T>, s: Bytes, t: Bytes)
    requires Extends(p) && ReadMany(n, p, s).Parsed?
    ensures ReadMany(n, p, s + t) == Parsed(ReadMany(n, p, s).value, ReadMany(n, p, s).rest + t)
  {
    if n > 0 {
      assert ExtendsAt(p, s, t);
      ReadManyExtends(n - 1, p, p(s).rest, t);
    }
  }

  lemma {:induction false} ReadCountedExtends<T>(guarded: bool, width: nat, minSize: nat, p: Reader<T>, s: Bytes, t: Bytes)
    requires Extends(p) && ReadCounted(guarded, width, minSize, p, s).Parsed?
    ensures var r := ReadCounted(guarded, width, minSize, p, s);
            ReadCounted(guarded, width, minSize, p, s + t) == Parsed(r.value, r.rest + t)
  {
    ReadUintExtends(width, s, t);
    var first := ReadUint(s, width);
    ReadManyExtends(first.value, p, first.rest, t);
  }

  // ----- Consuming input -----

  predicate ConsumesAt<T>(p: Reader<T>, m: nat, s: Bytes) {
    p(s).Parsed? ==> |p(s).rest| + m <= |s|
  }

  ghost predicate Consumes<T>(p: Reader<T>, m: nat) {
    forall s: Bytes :: ConsumesAt(p, m, s)
  }

  lemma {:induction false} ReadManyConsumes<T>(n: nat, p: Reader<T>, m: nat, s: Bytes)
    requires Consumes(p, m) && ReadMany(n, p, s).Parsed?
    ensures |ReadMany(n, p, s).rest| + n * m <= |s|
  {
    if n > 0 {
      assert ConsumesAt(p, m, s);
      ReadManyConsumes(n - 1, p, m, p(s).rest);
      assert n * m == (n - 1) * m + m;
    }
  }

  /** A guard by a true lower bound on the item size never changes the outcome. */
  lemma {:induction false} GuardIsFree<T>(width: nat, minSize: nat, p: Reader<T>, s: Bytes)
    requires Consumes(p, minSize)
    ensures ReadCounted(true, width, minSize, p, s) == ReadCounted(false, width, minSize, p, s)
  {
    var first := ReadUint(s, width);
    if first.Parsed? && ReadMany(first.value, p, first.rest).Parsed? {
      ReadManyConsumes(first.value, p, minSize, first.rest);
    }
  }
}
