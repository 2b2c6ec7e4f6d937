/** The packed slot value of the hostname database: a string index shifted
    left by `nBits`, or-ed with small category bits, and the two ways it is
    taken apart again, `>>> nBits` for the string index and `& mask` for the
    output bucket. JavaScript does these on 32-bit integers; values here are
    the unsigned 32-bit view of those numbers, as natural numbers, and the
    callers keep them below WORD. */
module Encoding {

  /** 2^32: every packed value the database keeps is below it. */
  const WORD: nat := 0x1_0000_0000

  function Pow2(n: nat): (r: nat)
    ensures r >= 1
  {
    if n == 0 then 1 else 2 * Pow2(n - 1)
  }

  /** True of 1, 2, 4, 8, ...: the bucket counts that `retrieve` accepts. */
  predicate IsPowerOfTwo(n: nat)
  {
    n == 1 || (n > 1 && n % 2 == 0 && IsPowerOfTwo(n / 2))
  }

  /** JavaScript `a & b` on non-negative operands, bit by bit from the lowest. */
  function BitAnd(a: nat, b: nat): (r: nat)
    ensures r <= a && r <= b
    decreases a
  {
    if a == 0 || b == 0 then 0
    else 2 * BitAnd(a / 2, b / 2) + (if a % 2 == 1 && b % 2 == 1 then 1 else 0)
  }

  /** JavaScript `a | b` on non-negative operands, bit by bit from the lowest. */
  function BitOr(a: nat, b: nat): (r: nat)
    ensures a <= r && b <= r && r <= a + b
    decreases a + b
  {
    if a == 0 then b
    else if b == 0 then a
    else 2 * BitOr(a / 2, b / 2) + (if a % 2 == 1 || b % 2 == 1 then 1 else 0)
  }

  /** `iStr << nBits | bits`: the value `store` puts in a slot. */
  function Encode(iStr: nat, bits: nat, nBits: nat): nat
  {
    BitOr(iStr * Pow2(nBits), bits)
  }

  /** `strId >>> nBits`: the string index `retrieve` reads back, one bit
      shifted out at a time. */
  function StrIndexOf(strId: nat, nBits: nat): nat
  {
    if nBits == 0 then strId else StrIndexOf(strId / 2, nBits - 1)
  }

  /** `strId & mask`: the output bucket `retrieve` drops the string into. */
  function BucketOf(strId: nat, mask: nat): nat
  {
    BitAnd(strId, mask)
  }

  /** A positive multiple of d is at least d. */
  lemma {:induction false} MulAtLeast(a: nat, d: nat)
    requires a >= 1
    ensures a * d >= d
  {
    if a > 1 {
      MulAtLeast(a - 1, d);
      assert a * d == (a - 1) * d + d;
    }
  }

  /** Euclidean division is unique: q and r are the quotient and remainder. */
  lemma DivModUnique(q: nat, r: nat, d: nat)
    requires r < d
    ensures (q * d + r) / d == q && (q * d + r) % d == r
  {
    var n := q * d + r;
    var q', r' := n / d, n % d;
    assert q' * d + r' == n;
    if q' > q {
      MulAtLeast(q' - q, d);
      assert false;
    } else if q' < q {
      MulAtLeast(q - q', d);
      assert false;
    }
  }

  /** Taking the remainder by 2 * d splits into the lowest bit and the rest. */
  lemma ModDouble(v: nat, d: nat)
    requires d >= 1
    ensures v % (2 * d) == 2 * ((v / 2) % d) + v % 2
  {
    var h, low := v / 2, v % 2;
    var a, r := h / d, h % d;
    assert v == 2 * h + low;
    assert h == d * a + r;
    DoubleMul(d, a);
    DivModUnique(a, 2 * r + low, 2 * d);
  }

  /** Solver hint: one rearrangement of a product. */
  lemma DoubleMul(d: nat, a: nat)
    ensures a * (2 * d) == 2 * (d * a)
  {
  }

  lemma {:induction false} Pow2IsPowerOfTwo(n: nat)
    ensures IsPowerOfTwo(Pow2(n))
  {
    if n > 0 {
      Pow2IsPowerOfTwo(n - 1);
    }
  }

  lemma {:induction false} Pow2Add(m: nat, k: nat)
    ensures Pow2(m + k) == Pow2(m) * Pow2(k)
  {
    if m > 0 {
      Pow2Add(m - 1, k);
    }
  }

  /** The lowest bit of `v & (2 * h - 1)` is that of v; the rest is `(v / 2) & (h - 1)`. */
  lemma MaskStep(v: nat, half: nat)
    requires half >= 1 && v > 0
    ensures BitAnd(v, 2 * half - 1) == 2 * BitAnd(v / 2, half - 1) + v % 2
  {
    var mask := 2 * half - 1;
    assert mask / 2 == half - 1 && mask % 2 == 1;
  }

  /** Masking with `L - 1` for a power of two L is the remainder by L, so
      each value lands in a bucket of an array of length L. */
  lemma {:induction false} MaskIsMod(v: nat, len: nat)
    requires IsPowerOfTwo(len)
    ensures BitAnd(v, len - 1) == v % len
    decreases len
  {
    if len == 1 {
      assert BitAnd(v, 0) == 0;
    } else if v == 0 {
      assert BitAnd(0, len - 1) == 0;
    } else {
      var half := len / 2;
      assert len == 2 * half;
      MaskStep(v, half);
      MaskIsMod(v / 2, half);
      ModDouble(v, half);
    }
  }

  /** Or-ing bits below 2^n into a multiple of 2^n adds them. */
  lemma {:induction false} OrShifted(i: nat, bits: nat, n: nat)
    requires bits < Pow2(n)
    ensures BitOr(i * Pow2(n), bits) == i * Pow2(n) + bits
  {
    if n > 0 && i > 0 && bits > 0 {
      var a := i * Pow2(n);
      assert a == 2 * (i * Pow2(n - 1));
      assert a / 2 == i * Pow2(n - 1) && a % 2 == 0;
      OrShifted(i, bits / 2, n - 1);
    }
  }

  /** Shifting a multiple of 2^n plus bits below 2^n right by n leaves the multiplier. */
  lemma {:induction false} ShiftOut(i: nat, bits: nat, n: nat)
    requires bits < Pow2(n)
    ensures StrIndexOf(i * Pow2(n) + bits, n) == i
  {
    if n > 0 {
      var v := i * Pow2(n) + bits;
      assert i * Pow2(n) == 2 * (i * Pow2(n - 1));
      assert v / 2 == i * Pow2(n - 1) + bits / 2;
      ShiftOut(i, bits / 2, n - 1);
    }
  }

  /** Decoding a packed value gives back the string index and the category
      bits, as long as the bits fit below 2^nBits. */
  lemma EncodeRoundTrip(iStr: nat, bits: nat, nBits: nat)
    requires bits < Pow2(nBits)
    ensures StrIndexOf(Encode(iStr, bits, nBits), nBits) == iStr
    ensures BucketOf(Encode(iStr, bits, nBits), Pow2(nBits) - 1) == bits
  {
    OrShifted(iStr, bits, nBits);
    ShiftOut(iStr, bits, nBits);
    BucketOfShifted(iStr, bits, nBits);
  }

  lemma BucketOfShifted(iStr: nat, bits: nat, nBits: nat)
    requires bits < Pow2(nBits)
    ensures BucketOf(iStr * Pow2(nBits) + bits, Pow2(nBits) - 1) == bits
  {
    Pow2IsPowerOfTwo(nBits);
    MaskIsMod(iStr * Pow2(nBits) + bits, Pow2(nBits));
    DivModUnique(iStr, bits, Pow2(nBits));
  }

  /** Adding a multiple of d does not change the remainder by d. */
  lemma ModPlusMultiple(c: nat, bits: nat, d: nat)
    requires d >= 1
    ensures (c * d + bits) % d == bits % d
  {
    var q := c + bits / d;
    assert bits == d * (bits / d) + bits % d;
    assert q * d == c * d + (bits / d) * d;
    DivModUnique(q, bits % d, d);
  }

  /** A multiple of 2^nBits, plus `bits`, leaves the remainder of `bits`
      when divided by 2^m with m <= nBits. */
  lemma ModOfShifted(iStr: nat, bits: nat, nBits: nat, m: nat)
    requires m <= nBits
    ensures (iStr * Pow2(nBits) + bits) % Pow2(m) == bits % Pow2(m)
  {
    var len, k := Pow2(m), Pow2(nBits - m);
    Pow2Add(m, nBits - m);
    MulAssoc(iStr, len, k);
    ModPlusMultiple(iStr * k, bits, len);
  }

  /** Solver hint: one rearrangement of a product. */
  lemma MulAssoc(a: nat, b: nat, c: nat)
    ensures a * (b * c) == (a * c) * b
  {
  }

  /** With 2^m buckets and m <= nBits the bucket is picked by the category
      bits alone: the low m bits of `bits`, whatever the string index. */
  lemma RoutingByCategory(iStr: nat, bits: nat, nBits: nat, m: nat)
    requires bits < Pow2(nBits) && m <= nBits
    ensures BucketOf(Encode(iStr, bits, nBits), Pow2(m) - 1) == bits % Pow2(m)
  {
    OrShifted(iStr, bits, nBits);
    Pow2IsPowerOfTwo(m);
    MaskIsMod(Encode(iStr, bits, nBits), Pow2(m));
    ModOfShifted(iStr, bits, nBits, m);
  }
}
