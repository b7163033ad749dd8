/** The registers of include/Database/ConcreteValues/HyperLogLogValue.h.

    Words are numbers below 2^64 and their bits are digits in base two.  The hash
    function of the C++ library is a parameter.
 */
module HyperLogLog {
  import opened Bytes

  function Pow2(n: nat): (p: nat)
    ensures p > 0
  {
    if n == 0 then 1 else 2 * Pow2(n - 1)
  }

  function Bit(x: nat, i: nat): nat {
    x / Pow2(i) % 2
  }

  /** `x << b` on 64 bits. */
  function ShiftLeft(x: nat, b: nat): nat {
    x * Pow2(b) % Pow2(64)
  }

  /** `x | (1ULL << i)`. */
  function SetBit(x: nat, i: nat): nat {
    if Bit(x, i) == 1 then x else x + Pow2(i)
  }

  /** `countLeadingZeros`: zeros from bit `bits - 1` downwards. */
  function LeadingZeros(x: nat, bits: nat): (n: nat)
    ensures n <= bits
  {
    if bits == 0 || Bit(x, bits - 1) == 1 then 0 else 1 + LeadingZeros(x, bits - 1)
  }

  predicate ValidB(b: nat) {
    4 <= b <= 16
  }

  /** The register an element goes to: its first b bits, cut to a `uint8_t`. */
  function IndexOf(hash: nat, b: nat): nat
    requires ValidB(b)
  {
    hash / Pow2(64 - b) % 256
  }

  /** The rank of an element. */
  function RankOf(hash: nat, b: nat): nat
    requires ValidB(b)
  {
    LeadingZeros(SetBit(ShiftLeft(hash, b), b - 1), 64 - b) + 1
  }

  // ------------------------------------------------------------- bit facts

  /** What a bit is: x is its lower bits, bit i at its place, and its higher bits. */
  lemma BitIsDigit(x: nat, i: nat)
    ensures Pow2(0) == 1 && Pow2(i + 1) == 2 * Pow2(i) && Bit(x, i) < 2
    ensures x == x % Pow2(i) + Bit(x, i) * Pow2(i) + x / Pow2(i) / 2 * Pow2(i + 1)
  {
    hide Pow2;
    PowStep(i);
    PowZero();
    var d := Pow2(i);
    var q := x / d;
    assert x == d * q + x % d && q == q % 2 + 2 * (q / 2);
    Regrouped(d, q % 2, q / 2);
  }

  lemma PowZero()
    ensures Pow2(0) == 1
  {
  }

  lemma Regrouped(d: nat, low: nat, high: nat)
    ensures d * (low + 2 * high) == low * d + high * (2 * d)
  {
  }

  /** Leading zeros are zeros, and end at a one or at the last bit. */
  lemma {:induction false} LeadingZerosAreZeros(x: nat, bits: nat)
    ensures var n := LeadingZeros(x, bits);
            && (forall i :: bits - n <= i < bits ==> Bit(x, i) == 0)
            && (n < bits ==> Bit(x, bits - 1 - n) == 1)
  {
    if bits > 0 {
      BitIsDigit(x, bits - 1);
      LeadingZerosAreZeros(x, bits - 1);
    }
  }

  /** Bit i of the index, for its eight bits, is bit 64 - b + i of the hash. */
  lemma IndexBits(hash: nat, b: nat, i: nat)
    requires ValidB(b) && i < 8
    ensures IndexOf(hash, b) < 256 && Bit(IndexOf(hash, b), i) == Bit(hash, 64 - b + i)
  {
    hide Pow2, Bit;
    var d := Pow2(64 - b);
    var top, low := hash / d, hash % d;
    ByteSize();
    HighBits(top, 64 - b, low, 64 - b + i);
    assert hash == top * d + low;
    LowBits(top / 256, 8, top % 256, i);
    assert top == top / 256 * 256 + top % 256;
  }

  lemma {:induction false} PowAdd(a: nat, b: nat)
    ensures Pow2(a + b) == Pow2(a) * Pow2(b)
  {
    if a > 0 { PowAdd(a - 1, b); }
  }

  lemma QuotientBound(x: nat, d: nat, q: nat)
    requires d > 0
    ensures x / d < q <==> x < d * q
  {
    var y := x / d;
    assert x == d * y + x % d;
    if y < q { MulMonotone(d, y + 1, q); Distribute(d, y); } else { MulMonotone(d, q, y); }
  }

  lemma MulMonotone(d: nat, a: nat, b: nat)
    requires a <= b
    ensures d * a <= d * b
  {
  }

  lemma Distribute(d: nat, y: nat)
    ensures d * (y + 1) == d * y + d
  {
  }

  lemma DivIsUnique(x: nat, d: nat, q: nat, r: nat)
    requires d > 0 && r < d && x == d * q + r
    ensures x / d == q && x % d == r
  {
    QuotientBound(x, d, q);
    QuotientBound(x, d, q + 1);
    assert d * (q + 1) == d * q + d;
  }

  lemma SetBitIsSet(x: nat, i: nat)
    ensures Bit(SetBit(x, i), i) == 1
  {
    var d := Pow2(i);
    if Bit(x, i) != 1 {
      assert x + d == d * (x / d + 1) + x % d;
      DivIsUnique(x + d, d, x / d + 1, x % d);
    }
  }

  /** Bits below position n do not see what is added above it. */
  lemma LowBits(q: nat, n: nat, r: nat, i: nat)
    requires i < n
    ensures Bit(q * Pow2(n) + r, i) == Bit(r, i)
  {
    hide Pow2;
    var d, e := Pow2(i), Pow2(n - i - 1);
    PowAdd(i, n - i);
    PowStep(n - i - 1);
    AddMultiple(d, q * e, r);
    Double(q, d, e);
  }

  lemma Double(q: nat, d: nat, e: nat)
    ensures q * (d * (2 * e)) == d * (2 * (q * e))
  {
  }

  lemma AddMultiple(d: nat, x: nat, r: nat)
    requires d > 0
    ensures (d * (2 * x) + r) / d % 2 == r / d % 2
  {
    var y := r / d;
    assert d * (2 * x + y) == d * (2 * x) + d * y;
    DivIsUnique(d * (2 * x) + r, d, 2 * x + y, r % d);
  }

  /** Bits from position n on are those of the upper part. */
  lemma HighBits(q: nat, n: nat, r: nat, i: nat)
    requires n <= i && r < Pow2(n)
    ensures Bit(q * Pow2(n) + r, i) == Bit(q, i - n)
  {
    hide Pow2;
    var d, e := Pow2(n), Pow2(i - n);
    PowAdd(n, i - n);
    DivideTwice(q, d, e, r);
  }

  lemma DivideTwice(q: nat, d: nat, e: nat, r: nat)
    requires r < d && e > 0
    ensures d * e > 0 && (q * d + r) / (d * e) == q / e
  {
    var u, v := q / e, q % e;
    assert q == e * u + v;
    Regroup(d, e, u, v);
    SmallRemainder(d, e, v, r);
    DivIsUnique(q * d + r, d * e, u, v * d + r);
  }

  lemma SmallRemainder(d: nat, e: nat, v: nat, r: nat)
    requires r < d && v < e
    ensures v * d + r < d * e
  {
    MulMonotone(d, v + 1, e);
    Distribute(d, v);
  }

  lemma Regroup(d: nat, e: nat, u: nat, v: nat)
    ensures (e * u + v) * d == (d * e) * u + v * d
  {
  }

  lemma TopBits(hash: nat, b: nat)
    requires ValidB(b) && hash < Pow2(64)
    ensures hash / Pow2(64 - b) < Pow2(b)
  {
    hide Pow2;
    PowAdd(64 - b, b);
    QuotientBound(hash, Pow2(64 - b), Pow2(b));
  }

  /** What is left of a hash when its first b bits are shifted out. */
  lemma ShiftDropsIndex(hash: nat, b: nat)
    requires ValidB(b)
    ensures ShiftLeft(hash, b) == hash % Pow2(64 - b) * Pow2(b)
  {
    hide Pow2;
    var d, e := Pow2(64 - b), Pow2(b);
    var q, r := hash / d, hash % d;
    PowAdd(64 - b, b);
    assert hash * e == (d * q + r) * e;
    Regroup(e, d, q, r);
    SmallRemainder(e, d, r, 0);
    DivIsUnique(hash * e, d * e, q, r * e);
  }

  /** The bits the rank is counted in, from bit b on, are the last 64 - b bits of the
      hash. */
  lemma CountedBit(hash: nat, b: nat, i: nat)
    requires ValidB(b) && b <= i < 64
    ensures Bit(SetBit(ShiftLeft(hash, b), b - 1), i) == Bit(hash, i - b)
  {
    hide Pow2, Bit;
    var d := Pow2(64 - b);
    var q, r := hash / d, hash % d;
    ShiftDropsIndex(hash, b);
    LowBits(r, b, 0, b - 1);
    ZeroHasNoBits(b - 1);
    PowStep(b - 1);
    HighBits(r, b, Pow2(b - 1), i);
    LowBits(q, 64 - b, r, i - b);
    assert hash == q * d + r;
  }

  lemma ZeroHasNoBits(i: nat)
    ensures Bit(0, i) == 0
  {
  }

  lemma {:induction false} CountedZeros(hash: nat, b: nat, n: nat)
    requires ValidB(b) && n <= 64 - b
    ensures LeadingZeros(SetBit(ShiftLeft(hash, b), b - 1), b + n) == LeadingZeros(hash, n)
  {
    hide SetBit, ShiftLeft, Bit;
    if n == 0 {
      SetBitIsSet(ShiftLeft(hash, b), b - 1);
    } else {
      CountedBit(hash, b, b + n - 1);
      CountedZeros(hash, b, n - 1);
    }
  }

  /** The rank of any hash is the position of the first one among its last 64 - 2b bits,
      so the b bits between the index and those are never looked at. */
  lemma RankOfLastBits(hash: nat, b: nat)
    requires ValidB(b)
    ensures RankOf(hash, b) == LeadingZeros(hash, 64 - 2 * b) + 1
  {
    hide SetBit, ShiftLeft, LeadingZeros;
    CountedZeros(hash, b, 64 - 2 * b);
  }

  /** The register index is always in range, and the rank lies in [1, 65 - 2b]. */
  lemma IndexAndRankInRange(hash: nat, b: nat)
    requires ValidB(b) && hash < Pow2(64)
    ensures IndexOf(hash, b) < Pow2(b) && IndexOf(hash, b) < 256
    ensures 1 <= RankOf(hash, b) <= 65 - 2 * b
  {
    hide Pow2, RankOf;
    TopBits(hash, b);
    RankOfLastBits(hash, b);
  }

  lemma PowMonotone(a: nat, b: nat)
    requires a <= b
    ensures Pow2(a) <= Pow2(b)
  {
    PowAdd(a, b - a);
    var p := Pow2(a);
    assert p * Pow2(b - a) >= p;
  }

  /** The index of `hash` is its first b bits. */
  ghost predicate TakesFirstBits(hash: nat, b: nat)
    requires ValidB(b)
  {
    IndexOf(hash, b) == hash / Pow2(64 - b)
  }

  /** The index is the first b bits of every hash, as intended, exactly when b is at
      most 8; the default b = 14 is not. */
  lemma IndexIsFirstBits(b: nat)
    requires ValidB(b)
    ensures (forall hash: nat :: hash < Pow2(64) ==> TakesFirstBits(hash, b)) <==> b <= 8
  {
    hide TakesFirstBits, Pow2;
    if b <= 8 {
      forall hash: nat | hash < Pow2(64)
        ensures TakesFirstBits(hash, b)
      {
        SmallIndexFits(hash, b);
      }
    } else {
      PowStep(63);
      TopBitLost(b);
    }
  }

  lemma SmallIndexFits(hash: nat, b: nat)
    requires ValidB(b) && b <= 8 && hash < Pow2(64)
    ensures TakesFirstBits(hash, b)
  {
    hide Pow2, IndexOf, TakesFirstBits;
    var top := hash / Pow2(64 - b);
    assert top < 256 by {
      TopBits(hash, b);
      PowMonotone(b, 8);
      ByteSize();
    }
    CutIsIdentity(top);
    IndexIsTop(hash, b, top);
  }

  lemma ByteSize()
    ensures Pow2(8) == 256
  {
  }

  lemma IndexIsTop(hash: nat, b: nat, top: nat)
    requires ValidB(b) && top == hash / Pow2(64 - b) && top % 256 == top
    ensures TakesFirstBits(hash, b)
  {
  }

  lemma CutIsIdentity(x: nat)
    requires x < 256
    ensures x % 256 == x
  {
  }

  lemma TopBitLost(b: nat)
    requires ValidB(b) && b > 8
    ensures !TakesFirstBits(Pow2(63), b)
  {
    hide Pow2;
    ByteSize();
    TopBitOnly(b);
    PowMonotone(8, b - 1);
  }

  lemma PowStep(n: nat)
    ensures Pow2(n + 1) == 2 * Pow2(n)
  {
  }

  lemma TopBitOnly(b: nat)
    requires ValidB(b)
    ensures Pow2(63) / Pow2(64 - b) == Pow2(b - 1)
  {
    PowAdd(64 - b, b - 1);
    DivIsUnique(Pow2(63), Pow2(64 - b), Pow2(b - 1), 0);
  }

  /** The rank the algorithm calls for: the position of the first one among all the bits
      after the index. */
  function IntendedRank(hash: nat, b: nat): nat
    requires ValidB(b)
  {
    LeadingZeros(hash, 64 - b) + 1
  }

  /** Zeros from bit `to - 1` down to bit `from`. */
  function ZerosBetween(x: nat, to: nat, from: nat): (n: nat)
    requires from <= to
    ensures n <= to - from
  {
    if to == from || Bit(x, to - 1) == 1 then 0 else 1 + ZerosBetween(x, to - 1, from)
  }

  lemma {:induction false} ZerosSplit(x: nat, to: nat, from: nat)
    requires from <= to
    ensures LeadingZeros(x, to) ==
            ZerosBetween(x, to, from) + if ZerosBetween(x, to, from) == to - from then LeadingZeros(x, from) else 0
  {
    hide Bit;
    if to > from { ZerosSplit(x, to - 1, from); }
  }

  /** The rank is the intended one exactly when the b bits after the index, which it
      skips, hold a one and start with as many zeros as the bits it looks at. */
  lemma RankIsIntended(hash: nat, b: nat)
    requires ValidB(b)
    ensures var skipped := ZerosBetween(hash, 64 - b, 64 - 2 * b);
            RankOf(hash, b) == IntendedRank(hash, b)
            <==> skipped < b && skipped == LeadingZeros(hash, 64 - 2 * b)
  {
    hide RankOf, ZerosBetween, LeadingZeros;
    RankOfLastBits(hash, b);
    ZerosSplit(hash, 64 - b, 64 - 2 * b);
  }

  lemma {:induction false} NoOnesBelow(n: nat, bits: nat)
    requires bits <= n
    ensures LeadingZeros(Pow2(n), bits) == bits
  {
    hide Pow2, Bit;
    if bits > 0 {
      LowBits(1, n, 0, bits - 1);
      ZeroHasNoBits(bits - 1);
      NoOnesBelow(n, bits - 1);
    }
  }

  /** An element that fails it: a hash whose very first bit after the index is set has
      the intended rank 1 and gets the largest rank there is. */
  lemma FirstRemainingBitIgnored(b: nat)
    requires ValidB(b)
    ensures IntendedRank(Pow2(63 - b), b) == 1 && RankOf(Pow2(63 - b), b) == 65 - 2 * b
  {
    hide Pow2, RankOf;
    RankOfLastBits(Pow2(63 - b), b);
    NoOnesBelow(63 - b, 64 - 2 * b);
    DivIsUnique(Pow2(63 - b), Pow2(63 - b), 1, 0);
  }

  // ------------------------------------------------------------- registers

  function Zeros(n: nat): seq<nat> {
    seq(n, _ => 0)
  }

  /** What one `add` does to the registers. */
  function Update(regs: seq<nat>, hash: nat, b: nat): seq<nat>
    requires ValidB(b)
  {
    var i := IndexOf(hash, b);
    if i < |regs| && RankOf(hash, b) > regs[i] then regs[i := RankOf(hash, b)] else regs
  }

  /** The registers after adding the elements of `added`, in order, to an empty value. */
  function Registers(h: Str -> nat, b: nat, added: seq<Str>): (regs: seq<nat>)
    requires ValidB(b)
    ensures |regs| == Pow2(b)
  {
    if added == [] then Zeros(Pow2(b))
    else Update(Registers(h, b, added[..|added| - 1]), h(added[|added| - 1]), b)
  }

  ghost predicate IsHash(h: Str -> nat) {
    forall s :: h(s) < Pow2(64)
  }

  /** `r` is the maximum rank over the elements of `s` that go to register `i`, or 0
      when there are none. */
  ghost predicate IsMaxRank(h: Str -> nat, b: nat, s: set<Str>, i: nat, r: nat)
    requires ValidB(b)
  {
    && (forall e :: e in s && IndexOf(h(e), b) == i ==> RankOf(h(e), b) <= r)
    && (r == 0 || exists e :: e in s && IndexOf(h(e), b) == i && RankOf(h(e), b) == r)
  }

  function ElementsOf(added: seq<Str>): set<Str> {
    set e | e in added
  }

  /** Each register is the maximum rank of the elements that hash to it. */
  lemma {:induction false} RegistersAreMaxima(h: Str -> nat, b: nat, added: seq<Str>, i: nat)
    requires ValidB(b) && IsHash(h) && i < Pow2(b)
    ensures IsMaxRank(h, b, ElementsOf(added), i, Registers(h, b, added)[i])
  {
    hide Pow2, RankOf, IndexOf;
    if added != [] {
      var rest, e := added[..|added| - 1], added[|added| - 1];
      RegistersAreMaxima(h, b, rest, i);
      IndexAndRankInRange(h(e), b);
      assert ElementsOf(added) == ElementsOf(rest) + {e};
      var old_, new_ := Registers(h, b, rest)[i], Registers(h, b, added)[i];
      if new_ == old_ && old_ != 0 {
        var x :| x in ElementsOf(rest) && IndexOf(h(x), b) == i && RankOf(h(x), b) == old_;
        assert x in ElementsOf(added);
      }
    }
  }

  /** Order and repetition of the additions do not matter. */
  lemma RegistersDependOnSet(h: Str -> nat, b: nat, xs: seq<Str>, ys: seq<Str>)
    requires ValidB(b) && IsHash(h) && ElementsOf(xs) == ElementsOf(ys)
    ensures Registers(h, b, xs) == Registers(h, b, ys)
  {
    hide Pow2, RankOf, IndexOf, Registers;
    var p, q := Registers(h, b, xs), Registers(h, b, ys);
    forall i | 0 <= i < Pow2(b)
      ensures p[i] == q[i]
    {
      RegistersAreMaxima(h, b, xs, i);
      RegistersAreMaxima(h, b, ys, i);
    }
  }

  /** The registers of a union are the pointwise maximum. */
  lemma UnionIsPointwiseMax(h: Str -> nat, b: nat, xs: seq<Str>, ys: seq<Str>, i: nat)
    requires ValidB(b) && IsHash(h) && i < Pow2(b)
    ensures var p, q := Registers(h, b, xs)[i], Registers(h, b, ys)[i];
            Registers(h, b, xs + ys)[i] == if p > q then p else q
  {
    hide Pow2, RankOf, IndexOf, Registers;
    RegistersAreMaxima(h, b, xs, i);
    RegistersAreMaxima(h, b, ys, i);
    RegistersAreMaxima(h, b, xs + ys, i);
    assert ElementsOf(xs + ys) == ElementsOf(xs) + ElementsOf(ys);
  }

  /** With b above 8 only the first 256 registers are ever used. */
  lemma HighRegistersUnused(h: Str -> nat, b: nat, added: seq<Str>, i: nat)
    requires ValidB(b) && IsHash(h) && 256 <= i < Pow2(b)
    ensures Registers(h, b, added)[i] == 0
  {
    RegistersAreMaxima(h, b, added, i);
  }

  // ------------------------------------------------------------- the value

  class HyperLogLogValue {
    const hash: Str -> nat
    const b: nat
    const m: nat
    var registers: seq<nat>
    ghost var added: seq<Str>

    ghost predicate Valid()
      reads this
    {
      ValidB(b) && m == Pow2(b) && IsHash(hash) && registers == Registers(hash, b, added)
    }

    constructor (hash: Str -> nat, b: nat)
      requires ValidB(b) && IsHash(hash)
      ensures Valid() && added == [] && this.b == b && this.hash == hash
    {
      this.hash := hash;
      this.b := b;
      m := Pow2(b);
      registers := Zeros(Pow2(b));
      added := [];
    }

    method Add(element: Str)
      requires Valid()
      modifies this
      ensures Valid() && added == old(added) + [element]
    {
      hide Pow2, SetBit, ShiftLeft, LeadingZeros;
      var h := hash(element);
      IndexAndRankInRange(h, b);
      var index := h / Pow2(64 - b) % 256;
      var remaining := SetBit(ShiftLeft(h, b), b - 1);
      var zeros := CountLeadingZeros(remaining, 64 - b);
      if zeros + 1 > registers[index] {
        registers := registers[index := zeros + 1];
      }
      added := added + [element];
      assert added[..|added| - 1] == old(added);
    }

    method CountLeadingZeros(x: nat, bits: nat) returns (count: nat)
      ensures count == LeadingZeros(x, bits)
    {
      count := 0;
      var i: int := bits - 1;
      while i >= 0
        invariant -1 <= i < bits
        invariant count + LeadingZeros(x, i + 1) == LeadingZeros(x, bits)
      {
        if Bit(x, i) == 1 {
          break;
        }
        count := count + 1;
        i := i - 1;
      }
    }
  }
}
