/** The HyperLogLog sketch: 64-bit hashes are split into a register index and a rank, registers keep
    the largest rank seen, and two sketches of the same precision merge register by register.
    A 64-bit word is modelled as a natural number below 2^64, and its shifts by division and by
    multiplication that wraps at 2^64. The hash of a string is a parameter. */
module HyperLogLogs {
  import opened Basics

  const MIN_PRECISION: nat := 4
  const MAX_PRECISION: nat := 16
  const DEFAULT_PRECISION: nat := 10

  // ----- Machine words -----

  function Pow2(n: nat): (r: nat)
    ensures r >= 1
  {
    if n == 0 then 1 else 2 * Pow2(n - 1)
  }

  function Quotient(x: nat, d: nat): nat
    requires d > 0
  {
    x / d
  }

  function Remainder(x: nat, d: nat): nat
    requires d > 0
  {
    x % d
  }

  function ShiftRight(x: U64, n: nat): nat { Quotient(x, Pow2(n)) }

  function ShiftLeft(x: U64, n: nat): nat { Remainder(x * Pow2(n), U64_MAX + 1) }

  /** Number of zero bits above the highest one bit of a word of the given width. */
  function LeadingZeros(x: nat, width: nat): (z: nat)
    ensures z <= width
  {
    if width == 0 || x >= Pow2(width - 1) then 0 else 1 + LeadingZeros(x, width - 1)
  }

  ghost function Bit(x: nat, i: nat): nat { Quotient(x, Pow2(i)) % 2 }

  lemma {:induction false} Pow2Add(a: nat, b: nat)
    ensures Pow2(a + b) == Pow2(a) * Pow2(b)
  {
    if a > 0 {
      Pow2Add(a - 1, b);
      assert Pow2(a + b) == 2 * (Pow2(a - 1) * Pow2(b));
      assert 2 * (Pow2(a - 1) * Pow2(b)) == (2 * Pow2(a - 1)) * Pow2(b);
    }
  }

  lemma {:induction false} Pow2Monotone(a: nat, b: nat)
    requires a <= b
    ensures Pow2(a) <= Pow2(b)
  {
    if a < b { Pow2Monotone(a, b - 1); }
  }

  lemma Pow2Of16()
    ensures Pow2(16) == 0x1_0000
  {
    assert Pow2(8) == 256;
    Pow2Add(8, 8);
  }

  lemma Pow2Of64()
    ensures Pow2(64) == U64_MAX + 1
  {
    Pow2Of16();
    Pow2Add(16, 16);
    Pow2Add(32, 32);
  }

  lemma QuotientAndRemainder(x: nat, d: nat)
    requires d > 0
    ensures x == Quotient(x, d) * d + Remainder(x, d) && Remainder(x, d) < d
  {
  }

  lemma DivisionBelow(x: nat, d: nat, q: nat)
    requires d > 0 && x < q * d
    ensures Quotient(x, d) < q
  {
  }

  lemma MultiplyBothSides(a: nat, b: nat, d: nat)
    requires d > 0
    ensures a < b <==> a * d < b * d
  {
  }

  lemma WrapOfProduct(q: nat, d: nat, r: nat)
    requires r < d
    ensures Remainder(q * d + r, d) == r
  {
    var x := q * d + r;
    assert x == (x / d) * d + x % d;
    MultiplyBothSides(x / d, q + 1, d);
    MultiplyBothSides(q, x / d + 1, d);
  }

  lemma WrapOfShift(h: nat, q: nat, hi: nat, low: nat, lo: nat, word: nat)
    requires h == q * hi + low && low < hi && hi * lo == word && lo > 0
    ensures Remainder(h * lo, word) == low * lo
  {
    MultiplyBothSides(low, hi, lo);
    WrapOfProduct(q, word, low * lo);
    assert h * lo == q * (hi * lo) + low * lo;
  }

  // ----- Index and rank of a hash -----

  /** The register a hash goes to: its top `p` bits. */
  function Index(h: U64, p: nat): nat
    requires p <= 64
  {
    ShiftRight(h, 64 - p)
  }

  /** The rank of a hash, capped at one more than the number of bits left below the index. */
  function Rank(h: U64, p: nat): nat
    requires p <= 64
  {
    Min(LeadingZeros(ShiftLeft(h, p), 64) + 1, 64 - p + 1)
  }

  /** The bits of a hash below the index. */
  ghost function LowBits(h: U64, p: nat): nat
    requires p <= 64
  {
    Remainder(h, Pow2(64 - p))
  }

  /** Index and low bits are a decomposition of the hash, and the index is in range. */
  lemma IndexSplitsHash(h: U64, p: nat)
    requires p <= 64
    ensures Index(h, p) < Pow2(p)
    ensures h == Index(h, p) * Pow2(64 - p) + LowBits(h, p)
    ensures LowBits(h, p) < Pow2(64 - p)
  {
    Pow2Of64();
    Pow2Add(p, 64 - p);
    DivisionBelow(h, Pow2(64 - p), Pow2(p));
    QuotientAndRemainder(h, Pow2(64 - p));
  }

  /** Shifting left by `p` drops the index bits and keeps the low bits, moved up. */
  lemma ShiftLeftKeepsLowBits(h: U64, p: nat)
    requires p <= 64
    ensures ShiftLeft(h, p) == LowBits(h, p) * Pow2(p)
  {
    IndexSplitsHash(h, p);
    Pow2Of64();
    Pow2Add(64 - p, p);
    WrapOfShift(h, Index(h, p), Pow2(64 - p), LowBits(h, p), Pow2(p), U64_MAX + 1);
  }

  lemma {:induction false} LeadingZerosOfZero(width: nat)
    ensures LeadingZeros(0, width) == width
  {
    if width > 0 { LeadingZerosOfZero(width - 1); }
  }

  lemma {:induction false} LeadingZerosShifted(x: nat, width: nat, p: nat)
    requires 0 < x < Pow2(width)
    ensures LeadingZeros(x * Pow2(p), width + p) == LeadingZeros(x, width)
  {
    Pow2Add(width - 1, p);
    MultiplyBothSides(x, Pow2(width - 1), Pow2(p));
    if x < Pow2(width - 1) { LeadingZerosShifted(x, width - 1, p); }
  }

  lemma {:induction false} LeadingZerosFindsTopBit(x: nat, width: nat)
    requires 0 < x < Pow2(width)
    ensures var z := LeadingZeros(x, width); z < width && Pow2(width - 1 - z) <= x < Pow2(width - z)
  {
    if x < Pow2(width - 1) { LeadingZerosFindsTopBit(x, width - 1); }
  }

  lemma QuotientOne(x: nat, d: nat)
    requires 0 < d <= x < 2 * d
    ensures Quotient(x, d) == 1
  {
  }

  lemma SmallQuotient(x: nat, d: nat)
    requires x < d
    ensures Quotient(x, d) == 0
  {
  }

  lemma TopBitIsOne(x: nat, top: nat)
    requires Pow2(top) <= x < Pow2(top + 1)
    ensures Bit(x, top) == 1
  {
    QuotientOne(x, Pow2(top));
  }

  lemma BitsAboveAreZero(x: nat, top: nat, j: nat)
    requires x < Pow2(top) && top <= j
    ensures Bit(x, j) == 0
  {
    Pow2Monotone(top, j);
    SmallQuotient(x, Pow2(j));
  }

  /** The rank is the position, counted from one at the top, of the first one bit among the
      64 - p low bits, or 65 - p when they are all zero. */
  lemma RankIsFirstOneBit(h: U64, p: nat)
    requires p <= 64
    ensures LowBits(h, p) == 0 ==> Rank(h, p) == 65 - p
    ensures LowBits(h, p) != 0 ==> 1 <= Rank(h, p) <= 64 - p
    ensures LowBits(h, p) != 0 ==> Bit(LowBits(h, p), 64 - p - Rank(h, p)) == 1
    ensures LowBits(h, p) != 0 ==> forall j :: 64 - p - Rank(h, p) < j < 64 - p ==> Bit(LowBits(h, p), j) == 0
  {
    ShiftLeftKeepsLowBits(h, p);
    IndexSplitsHash(h, p);
    var low := LowBits(h, p);
    if low == 0 {
      LeadingZerosOfZero(64);
      assert low * Pow2(p) == 0;
    } else {
      LeadingZerosShifted(low, 64 - p, p);
      LeadingZerosFindsTopBit(low, 64 - p);
      var top := 64 - p - Rank(h, p);
      TopBitIsOne(low, top);
      forall j | top < j < 64 - p ensures Bit(low, j) == 0 { BitsAboveAreZero(low, top + 1, j); }
    }
  }

  // ----- Sketches -----

  datatype RawSketch = RawSketch(precision: nat, registers: seq<nat>)

  predicate WellFormed(s: RawSketch) {
    MIN_PRECISION <= s.precision <= MAX_PRECISION && |s.registers| == Pow2(s.precision) &&
    forall i :: 0 <= i < |s.registers| ==> s.registers[i] <= 65 - s.precision
  }

  /** A sketch as `new`, `add` and `merge` build them: 2^p registers, each at most 65 - p. */
  type Sketch = s: RawSketch | WellFormed(s) witness RawSketch(4, [0, 0, 0, 0, 0, 0, 0, 0, 0, 0, 0, 0, 0, 0, 0, 0])

  function Clamp(precision: nat): nat { Max(MIN_PRECISION, Min(precision, MAX_PRECISION)) }

  function EmptySketch(precision: nat): Sketch {
    RawSketch(Clamp(precision), seq(Pow2(Clamp(precision)), i => 0))
  }

  function AddHash(s: Sketch, h: U64): (r: Sketch)
    ensures r.precision == s.precision
  {
    IndexSplitsHash(h, s.precision);
    RankIsFirstOneBit(h, s.precision);
    var i := Index(h, s.precision);
    RawSketch(s.precision, s.registers[i := Max(s.registers[i], Rank(h, s.precision))])
  }

  function AddHashes(s: Sketch, hashes: seq<U64>): (r: Sketch)
    ensures r.precision == s.precision
  {
    if hashes == [] then s else AddHash(AddHashes(s, hashes[..|hashes| - 1]), hashes[|hashes| - 1])
  }

  function Join(a: Sketch, b: Sketch): (r: Sketch)
    requires a.precision == b.precision
    ensures r.precision == a.precision
  {
    RawSketch(a.precision,
              seq(|a.registers|, i requires 0 <= i < |a.registers| => Max(a.registers[i], b.registers[i])))
  }

  // ----- What a sketch means -----

  /** Register `i` holds the largest rank among the hashes in `hashes` whose index is `i`, or zero. */
  ghost predicate Summarises(s: Sketch, hashes: set<U64>) {
    forall i :: 0 <= i < |s.registers| ==> TopRank(s.registers[i], i, s.precision, hashes)
  }

  ghost predicate TopRank(r: nat, i: nat, p: nat, hashes: set<U64>)
    requires p <= 64
  {
    (forall h :: h in hashes && Index(h, p) == i ==> Rank(h, p) <= r) &&
    (r == 0 || exists h :: h in hashes && Index(h, p) == i && Rank(h, p) == r)
  }

  lemma SummaryIsUnique(a: Sketch, b: Sketch, hashes: set<U64>)
    requires a.precision == b.precision
    requires Summarises(a, hashes) && Summarises(b, hashes)
    ensures a == b
  {
    forall i | 0 <= i < |a.registers| ensures a.registers[i] == b.registers[i] {
      assert TopRank(a.registers[i], i, a.precision, hashes) && TopRank(b.registers[i], i, a.precision, hashes);
    }
  }

  lemma AddHashSummarises(s: Sketch, hashes: set<U64>, h: U64)
    requires Summarises(s, hashes)
    ensures Summarises(AddHash(s, h), hashes + {h})
  {
    var p, r := s.precision, AddHash(s, h);
    IndexSplitsHash(h, p);
    RankIsFirstOneBit(h, p);
    forall i | 0 <= i < |r.registers| ensures TopRank(r.registers[i], i, p, hashes + {h}) {
      assert TopRank(s.registers[i], i, p, hashes);
      if i == Index(h, p) && r.registers[i] == Rank(h, p) {
        assert h in hashes + {h};
      } else if r.registers[i] != 0 {
        var g :| g in hashes && Index(g, p) == i && Rank(g, p) == s.registers[i];
        assert g in hashes + {h};
      }
    }
  }

  lemma {:induction false} AddHashesSummarise(precision: nat, hashes: seq<U64>)
    ensures Summarises(AddHashes(EmptySketch(precision), hashes), Elements(hashes))
  {
    if hashes != [] {
      var front := hashes[..|hashes| - 1];
      AddHashesSummarise(precision, front);
      AddHashSummarises(AddHashes(EmptySketch(precision), front), Elements(front), hashes[|hashes| - 1]);
      assert hashes == front + [hashes[|hashes| - 1]];
      assert Elements(hashes) == Elements(front) + {hashes[|hashes| - 1]};
    }
  }

  lemma JoinSummarises(a: Sketch, b: Sketch, left: set<U64>, right: set<U64>)
    requires a.precision == b.precision
    requires Summarises(a, left) && Summarises(b, right)
    ensures Summarises(Join(a, b), left + right)
  {
    var p, r := a.precision, Join(a, b);
    forall i | 0 <= i < |r.registers| ensures TopRank(r.registers[i], i, p, left + right) {
      assert TopRank(a.registers[i], i, p, left) && TopRank(b.registers[i], i, p, right);
      if r.registers[i] != 0 {
        if r.registers[i] == a.registers[i] {
          var h :| h in left && Index(h, p) == i && Rank(h, p) == r.registers[i];
          assert h in left + right;
        } else {
          var h :| h in right && Index(h, p) == i && Rank(h, p) == r.registers[i];
          assert h in left + right;
        }
      }
    }
  }

  // ----- Main results -----

  function Hashed(hash: string -> U64, values: seq<string>): seq<U64> {
    seq<U64>(|values|, i requires 0 <= i < |values| => hash(values[i]))
  }

  /** The sketch after adding `values`, in order, to a new sketch. */
  ghost function SketchOf(precision: nat, hash: string -> U64, values: seq<string>): Sketch {
    AddHashes(EmptySketch(precision), Hashed(hash, values))
  }

  lemma HashedElements(hash: string -> U64, values: seq<string>)
    ensures Elements(Hashed(hash, values)) == set v | v in values :: hash(v)
  {
    var hs := Hashed(hash, values);
    forall v | v in values ensures hash(v) in hs {
      var i :| 0 <= i < |values| && values[i] == v;
      assert hs[i] == hash(v);
    }
  }

  /** The registers depend only on the set of values: order and repetition do not matter. */
  lemma SketchDependsOnSetOnly(precision: nat, hash: string -> U64, xs: seq<string>, ys: seq<string>)
    requires Elements(xs) == Elements(ys)
    ensures SketchOf(precision, hash, xs) == SketchOf(precision, hash, ys)
  {
    HashedElements(hash, xs);
    HashedElements(hash, ys);
    assert forall v :: v in xs <==> v in Elements(xs);
    assert forall v :: v in ys <==> v in Elements(ys);
    assert Elements(Hashed(hash, xs)) == Elements(Hashed(hash, ys));
    AddHashesSummarise(precision, Hashed(hash, xs));
    AddHashesSummarise(precision, Hashed(hash, ys));
    SummaryIsUnique(SketchOf(precision, hash, xs), SketchOf(precision, hash, ys), Elements(Hashed(hash, xs)));
  }

  /** Merging the sketches of two collections gives the sketch of their union. */
  lemma MergeIsSketchOfUnion(precision: nat, hash: string -> U64, xs: seq<string>, ys: seq<string>)
    ensures Join(SketchOf(precision, hash, xs), SketchOf(precision, hash, ys))
         == SketchOf(precision, hash, xs + ys)
  {
    var hx, hy := Hashed(hash, xs), Hashed(hash, ys);
    assert Hashed(hash, xs + ys) == hx + hy;
    assert Elements(hx + hy) == Elements(hx) + Elements(hy);
    AddHashesSummarise(precision, hx);
    AddHashesSummarise(precision, hy);
    AddHashesSummarise(precision, hx + hy);
    JoinSummarises(SketchOf(precision, hash, xs), SketchOf(precision, hash, ys), Elements(hx), Elements(hy));
    SummaryIsUnique(Join(SketchOf(precision, hash, xs), SketchOf(precision, hash, ys)),
                    SketchOf(precision, hash, xs + ys), Elements(hx + hy));
  }

  // ----- Merging many sketches -----

  function JoinAll(base: Sketch, sketches: seq<Sketch>): (r: Sketch)
    requires forall s :: s in sketches ==> s.precision == base.precision
    ensures r.precision == base.precision
  {
    if sketches == [] then base
    else Join(JoinAll(base, sketches[..|sketches| - 1]), sketches[|sketches| - 1])
  }

  /** Each register of `r` is the largest value that register takes among `sketches`. */
  ghost predicate LeastUpperBound(r: Sketch, sketches: set<Sketch>) {
    (forall s :: s in sketches ==> s.precision == r.precision) &&
    forall i :: 0 <= i < |r.registers| ==> TopRegister(r.registers[i], i, r.precision, sketches)
  }

  ghost predicate TopRegister(top: nat, i: nat, p: nat, sketches: set<Sketch>)
    requires MIN_PRECISION <= p <= MAX_PRECISION && i < Pow2(p)
    requires forall s :: s in sketches ==> s.precision == p
  {
    (forall s :: s in sketches ==> s.registers[i] <= top) && exists s :: s in sketches && s.registers[i] == top
  }

  lemma {:induction false} JoinAllIsLeastUpperBound(base: Sketch, sketches: seq<Sketch>)
    requires forall s :: s in sketches ==> s.precision == base.precision
    ensures LeastUpperBound(JoinAll(base, sketches), {base} + Elements(sketches))
  {
    var r, all := JoinAll(base, sketches), {base} + Elements(sketches);
    if sketches == [] {
      forall i | 0 <= i < |r.registers| ensures TopRegister(r.registers[i], i, r.precision, all) {
        assert base in all && base.registers[i] == r.registers[i];
      }
    } else {
      var front, last := sketches[..|sketches| - 1], sketches[|sketches| - 1];
      JoinAllIsLeastUpperBound(base, front);
      var before := {base} + Elements(front);
      assert sketches == front + [last];
      assert all == before + {last};
      forall i | 0 <= i < |r.registers| ensures TopRegister(r.registers[i], i, r.precision, all) {
        var was := JoinAll(base, front).registers[i];
        assert TopRegister(was, i, r.precision, before);
        var s :| s in before && s.registers[i] == was;
        assert s in all && last in all;
      }
    }
  }

  /** Merging depends only on which sketches take part, not on their order or number of mentions. */
  lemma JoinAllDependsOnSetOnly(base: Sketch, xs: seq<Sketch>, ys: seq<Sketch>)
    requires forall s :: s in xs ==> s.precision == base.precision
    requires {base} + Elements(xs) == {base} + Elements(ys)
    ensures forall s :: s in ys ==> s.precision == base.precision
    ensures JoinAll(base, xs) == JoinAll(base, ys)
  {
    var all := {base} + Elements(xs);
    forall s | s in ys ensures s.precision == base.precision { assert s in {base} + Elements(ys); }
    JoinAllIsLeastUpperBound(base, xs);
    JoinAllIsLeastUpperBound(base, ys);
    var a, b := JoinAll(base, xs), JoinAll(base, ys);
    forall i | 0 <= i < |a.registers| ensures a.registers[i] == b.registers[i] {
      assert TopRegister(a.registers[i], i, a.precision, all) && TopRegister(b.registers[i], i, a.precision, all);
    }
  }

  // ----- The mutable sketch -----

  class HyperLogLog {
    var precision: nat
    var registers: array<nat>

    ghost predicate Valid()
      reads this, registers
    {
      WellFormed(RawSketch(precision, registers[..]))
    }

    ghost function Value(): Sketch
      requires Valid()
      reads this, registers
    {
      RawSketch(precision, registers[..])
    }

    constructor (wanted: nat)
      ensures Valid() && fresh(registers)
      ensures Value() == EmptySketch(wanted)
    {
      precision := Clamp(wanted);
      registers := new nat[Pow2(Clamp(wanted))](i => 0);
    }

    method Add(h: U64) returns (changed: bool)
      requires Valid()
      modifies registers
      ensures Valid() && Value() == AddHash(old(Value()), h)
      ensures changed <==> Value() != old(Value())
    {
      IndexSplitsHash(h, precision);
      RankIsFirstOneBit(h, precision);
      var index := ShiftRight(h, 64 - precision);
      var shifted := ShiftLeft(h, precision);
      var maxRank := 64 - precision;
      var rank := Min(LeadingZeros(shifted, 64) + 1, maxRank + 1);
      changed := rank > registers[index];
      if changed {
        registers[index] := rank;
      }
      assert registers[..] == AddHash(old(Value()), h).registers;
      assert changed ==> registers[..][index] != old(registers[..])[index];
    }

    /** Merges another sketch into this one; the precisions must agree. */
    method Merge(other: HyperLogLog) returns (ok: bool)
      requires Valid() && other.Valid() && registers != other.registers
      modifies registers
      ensures Valid() && other.Valid() && other.Value() == old(other.Value())
      ensures ok <==> precision == other.precision
      ensures Value() == if ok then Join(old(Value()), other.Value()) else old(Value())
    {
      ok := precision == other.precision;
      if ok {
        var i := 0;
        ghost var joined := Join(Value(), other.Value()).registers;
        while i < registers.Length
          invariant 0 <= i <= registers.Length == |joined|
          invariant forall j :: 0 <= j < i ==> registers[j] == joined[j]
          invariant forall j :: i <= j < registers.Length ==> registers[j] == old(registers[j])
          invariant other.registers[..] == old(other.registers[..])
        {
          registers[i] := Max(registers[i], other.registers[i]);
          i := i + 1;
        }
        assert registers[..] == joined;
      }
    }
  }
}
