/** The high word of a 32 by 32 bit product: soft_mpyuhi() and soft_mpyshi() of
    sw/board/cputest.c, and the shorter mpyuhi() of sw/board/exmulti.c. */
module SoftMultiply {
  import opened Powers
  import Bitwise
  import Division

  const WORD: nat := 0x1_0000_0000

  type word = x: int | 0 <= x < WORD
  type half = x: int | 0 <= x < 0x1_0000
  type signed = x: int | -0x8000_0000 <= x < 0x8000_0000

  /** Three sixteen-bit limbs as a number. */
  function Value(hi: nat, mid: nat, lo: nat): nat { hi * WORD + mid * 0x1_0000 + lo }

  /** A shift to the left in a word. */
  function Shl(x: nat, n: nat): word { x * Pow2(n) % WORD }

  lemma ShlFits(x: half, s: nat)
    requires s < 16
    ensures Shl(x, s) == x * Pow2(s) && x * Pow2(s) < 0x1_0000 * Pow2(s) <= WORD
    ensures Shl(x, s) % Pow2(s) == 0
  {
    WidePowers();
    Pow2Monotone(s, 16);
    hide Pow2;
    Division.MulMod(x, Pow2(s));
    Scaled(x, Pow2(s));
  }

  lemma Scaled(x: half, p: nat)
    requires 0 < p <= 0x1_0000
    ensures x * p < 0x1_0000 * p <= WORD && x * p % WORD == x * p
  {
    var y := x * p;
    assert y <= 0xffff * p;
  }

  /** The number with limbs ahi and alo, shifted to the left, in three limbs. */
  method Limbs(alo: half, ahi: half, s: nat) returns (sup: half, shi: half, slo: half)
    requires s < 16
    ensures Value(sup, shi, slo) == (ahi * 0x1_0000 + alo) * Pow2(s)
  {
    hide Pow2, Bitwise.Or, Shl, Value;
    var lo := Shl(alo, s);
    var hi := Bitwise.Or(Shl(ahi, s), lo / 0x1_0000 % 0x1_0000, 32);
    Joined(alo, ahi, s);
    slo := lo % 0x1_0000;
    sup := hi / 0x1_0000 % 0x1_0000;
    shi := hi % 0x1_0000;
    ThreeLimbs(lo, hi);
  }

  /** The two shifted halves overlap in sixteen bits, where the upper one has
      made room. */
  lemma Joined(alo: half, ahi: half, s: nat)
    requires s < 16
    ensures var lo := Shl(alo, s);
            var hi := Bitwise.Or(Shl(ahi, s), lo / 0x1_0000 % 0x1_0000, 32);
            hi < WORD && hi * 0x1_0000 + lo % 0x1_0000 == (ahi * 0x1_0000 + alo) * Pow2(s)
  {
    WidePowers();
    ShlFits(alo, s);
    ShlFits(ahi, s);
    var p := Pow2(s);
    hide Pow2, Bitwise.Or, Shl;
    var lo := Shl(alo, s);
    Carried(lo, p);
    Bitwise.OrJoin(Shl(ahi, s), lo / 0x1_0000, 32, s);
    Distribute(ahi, alo, p);
  }

  lemma ThreeLimbs(lo: word, hi: word)
    ensures Value(hi / 0x1_0000 % 0x1_0000, hi % 0x1_0000, lo % 0x1_0000) == hi * 0x1_0000 + lo % 0x1_0000
  {
  }

  lemma Carried(lo: nat, p: nat)
    requires lo < 0x1_0000 * p && lo < WORD
    ensures lo / 0x1_0000 < p && lo / 0x1_0000 < 0x1_0000
    ensures lo / 0x1_0000 % 0x1_0000 == lo / 0x1_0000
  {
  }

  lemma Distribute(x: nat, y: nat, p: nat)
    ensures (x * 0x1_0000 + y) * p == x * p * 0x1_0000 + y * p
  {
  }

  /** The next bit of b adds a shifted copy of a to the product so far. */
  lemma NextBit(a: nat, b: nat, i: nat)
    ensures a * (b % Pow2(i + 1)) == a * (b % Pow2(i)) + (if b / Pow2(i) % 2 == 1 then a * Pow2(i) else 0)
  {
    var p := Pow2(i);
    Division.ModDoubled(b, p);
    hide Pow2;
    if b / p % 2 == 1 {
      assert a * (b % p + p) == a * (b % p) + a * p;
    }
  }

  lemma Start(a: nat, b: nat)
    ensures a * (b % Pow2(0)) == 0
  {
    assert b % Pow2(0) == 0;
  }

  /** A partial product is less than two words. */
  lemma Partial(a: word, b: word, i: nat, p: nat)
    requires p == b % Pow2(i)
    ensures a * p <= a * b < WORD * WORD
  {
    hide Pow2;
    Division.ModAtMost(b, Pow2(i));
    Products(a, p, b);
  }

  lemma Products(a: word, p: nat, b: word)
    requires p <= b
    ensures a * p <= a * b < WORD * WORD
  {
    Division.Scale(p, b, a);
    Division.Scale(b, WORD, a);
  }

  /** The first sixteen bits of b. */
  method LowBits(a: word, b: word) returns (rhi: word, rlhi: half, rllo: half)
    ensures Value(rhi, rlhi, rllo) == a * (b % 0x1_0000)
  {
    hide Pow2;
    var alo, ahi := a % 0x1_0000, a / 0x1_0000 % 0x1_0000;
    rhi, rlhi, rllo := 0, 0, 0;
    Start(a, b);
    var i := 0;
    while i < 16
      invariant 0 <= i <= 16 && Value(rhi, rlhi, rllo) == a * (b % Pow2(i))
    {
      NextBit(a, b, i);
      if b / Pow2(i) % 2 == 1 {
        var sup, shi, slo := Limbs(alo, ahi, i);
        Partial(a, b, i + 1, b % Pow2(i + 1));
        rhi, rlhi, rllo := AddLow(rhi, rlhi, rllo, sup, shi, slo);
      }
      i := i + 1;
    }
    WidePowers();
  }

  lemma Carry(x: nat)
    requires x < WORD
    ensures x == x / 0x1_0000 * 0x1_0000 + x % 0x1_0000 && x / 0x1_0000 % 0x1_0000 == x / 0x1_0000
  {
  }

  /** Limb by limb, with the carries. */
  method AddLow(rhi0: word, rlhi0: half, rllo0: half, sup: half, shi: half, slo: half)
    returns (rhi: word, rlhi: half, rllo: half)
    requires Value(rhi0, rlhi0, rllo0) + Value(sup, shi, slo) < WORD * WORD
    ensures Value(rhi, rlhi, rllo) == Value(rhi0, rlhi0, rllo0) + Value(sup, shi, slo)
  {
    var hi, mid, lo := rhi0 + sup, rlhi0 + shi, rllo0 + slo;
    Carry(lo);
    Carry(mid + lo / 0x1_0000);
    mid := mid + lo / 0x1_0000 % 0x1_0000;
    rllo := lo % 0x1_0000;
    hi := hi + mid / 0x1_0000 % 0x1_0000;
    rlhi := mid % 0x1_0000;
    rhi := hi % WORD;
  }

  /** soft_mpyuhi(): the high word of the product of two unsigned words. */
  method SoftMpyuhi(a: word, b: word) returns (r: word)
    ensures r == a * b / WORD
  {
    hide Pow2;
    var alo, ahi := a % 0x1_0000, a / 0x1_0000 % 0x1_0000;
    var rhi, rlhi, rllo := LowBits(a, b);
    WidePowers();
    var i := 16;
    while i < 32
      invariant 16 <= i <= 32 && Value(rhi, rlhi, rllo) == a * (b % Pow2(i))
    {
      NextBit(a, b, i);
      if b / Pow2(i) % 2 == 1 {
        var sup, shi, slo := Limbs(alo, ahi, i - 16);
        Partial(a, b, i + 1, b % Pow2(i + 1));
        Higher(a, i);
        rhi, rlhi := AddHigh(rhi, rlhi, rllo, sup, shi, slo);
      }
      i := i + 1;
    }
    TopWord(a, b, rhi, rlhi, rllo);
    r := rhi;
  }

  lemma Higher(a: nat, i: nat)
    requires i >= 16
    ensures a * Pow2(i) == a * Pow2(i - 16) * 0x1_0000
  {
    WidePowers();
    Pow2Add(16, i - 16);
    hide Pow2;
    assert a * (0x1_0000 * Pow2(i - 16)) == a * Pow2(i - 16) * 0x1_0000;
  }

  /** The same, sixteen bits further up. */
  method AddHigh(rhi0: word, rlhi0: half, rllo: half, sup: half, shi: half, slo: half)
    returns (rhi: word, rlhi: half)
    requires Value(rhi0, rlhi0, rllo) + Value(sup, shi, slo) * 0x1_0000 < WORD * WORD
    ensures Value(rhi, rlhi, rllo) == Value(rhi0, rlhi0, rllo) + Value(sup, shi, slo) * 0x1_0000
  {
    var hi := rhi0 + sup * 0x1_0000;
    hi := hi + shi;
    var mid := rlhi0 + slo;
    hi := hi + mid / 0x1_0000 % 0x1_0000;
    rhi, rlhi := hi % WORD, mid % 0x1_0000;
  }

  lemma TopWord(a: word, b: word, rhi: word, rlhi: half, rllo: half)
    requires Value(rhi, rlhi, rllo) == a * (b % Pow2(32))
    ensures rhi == a * b / WORD
  {
    WidePowers();
    hide Pow2;
    assert b % WORD == b;
    Division.DivUnique(a * b, WORD, rhi, rlhi * 0x1_0000 + rllo);
  }

  function NegatedWord(x: int): signed { AsSigned(-x) }

  function AsSigned(x: int): signed {
    var y := x % WORD;
    if y < 0x8000_0000 then y else y - WORD
  }

  /** soft_mpyshi(): the high word of the product of two signed words, the least
      one included. */
  method SoftMpyshi(a0: signed, b0: signed) returns (r: signed)
    ensures r == a0 * b0 / WORD
  {
    var a, b := a0, b0;
    var sgn := (a < 0) != (b < 0);
    if a < 0 {
      a := NegatedWord(a);
    }
    if b < 0 {
      b := NegatedWord(b);
    }
    var p := (a % WORD) * (b % WORD) % WORD;
    var u := SoftMpyuhi(a % WORD, b % WORD);
    hide AsSigned, NegatedWord, Division.Magnitude;
    MagnitudeIs(a0);
    MagnitudeIs(b0);
    SignedHigh(a0, b0);
    if sgn {
      u := 0xffff_ffff - u;
    }
    if sgn && p == 0 {
      u := (u + 1) % WORD;
    }
    r := AsSigned(u);
  }

  lemma MagnitudeIs(a: signed)
    ensures (if a < 0 then NegatedWord(a) else a) % WORD == Division.Magnitude(a) <= 0x8000_0000
  {
  }

  lemma SignedHigh(a: signed, b: signed)
    ensures var x := Division.Magnitude(a) * Division.Magnitude(b);
            var hi, lo := x / WORD, x % WORD;
            && 0 <= hi <= 0x4000_0000
            && a * b / WORD == AsSigned(if (a < 0) == (b < 0) then hi
                                        else if lo == 0 then (0xffff_ffff - hi + 1) % WORD else 0xffff_ffff - hi)
  {
    ProductOfSigned(a, b);
    hide Division.Magnitude, AsSigned;
    HighOfProduct(Division.Magnitude(a) * Division.Magnitude(b));
  }

  lemma ProductOfSigned(a: signed, b: signed)
    ensures var x := Division.Magnitude(a) * Division.Magnitude(b);
            a * b == if (a < 0) == (b < 0) then x else -x
    ensures 0 <= Division.Magnitude(a) * Division.Magnitude(b) <= 0x4000_0000_0000_0000
  {
    AtMost(Division.Magnitude(a), Division.Magnitude(b));
  }

  lemma AtMost(x: nat, y: nat)
    requires x <= 0x8000_0000 && y <= 0x8000_0000
    ensures 0 <= x * y <= 0x4000_0000_0000_0000
  {
    Division.Scale(x, 0x8000_0000, y);
  }

  lemma HighOfProduct(x: nat)
    requires x <= 0x4000_0000_0000_0000
    ensures 0 <= x / WORD <= 0x4000_0000 && x / WORD == AsSigned(x / WORD)
    ensures -(x as int) / WORD ==
            AsSigned(if x % WORD == 0 then (0xffff_ffff - x / WORD + 1) % WORD else 0xffff_ffff - x / WORD)
  {
    var hi, lo := x / WORD, x % WORD;
    SmallSigned(hi, 0xffff_ffff - hi);
    hide AsSigned;
    if lo == 0 {
      Division.DivUnique(-(x as int), WORD, -(hi as int), 0);
    } else {
      Division.DivUnique(-(x as int), WORD, -(hi as int) - 1, WORD - lo);
    }
  }

  lemma SmallSigned(hi: nat, not: nat)
    requires hi <= 0x4000_0000 && not == 0xffff_ffff - hi
    ensures AsSigned(hi) == hi && AsSigned((not + 1) % WORD) == -(hi as int) && AsSigned(not) == -(hi as int) - 1
  {
  }

  // ---------- mpyuhi() ----------

  /** The sum of the middle products and the carry into them, as it should be. */
  function Cross(a: word, b: word): nat {
    a / 0x1_0000 * (b % 0x1_0000) + a % 0x1_0000 * (b / 0x1_0000) + a % 0x1_0000 * (b % 0x1_0000) / 0x1_0000
  }

  /** mpyuhi(): the high word, but for a carry that is lost when the middle sum
      does not fit in a word; it is right just when there is none. */
  method Mpyuhi(a: word, b: word) returns (r: word)
    ensures r == a * b / WORD - (if Cross(a, b) < WORD then 0 else 0x1_0000)
    ensures r == a * b / WORD <==> Cross(a, b) < WORD
  {
    hide Cross, Product;
    var alo, ahi: half := a % 0x1_0000, a / 0x1_0000 % 0x1_0000;
    var blo, bhi: half := b % 0x1_0000, b / 0x1_0000 % 0x1_0000;
    var l := Product(alo, blo);
    var o := Product(ahi, blo);
    var i := Product(alo, bhi);
    var f := Product(ahi, bhi);
    var rhi := (o + i + l / 0x1_0000) % WORD;
    r := (rhi / 0x1_0000 + f) % WORD;
    FourProducts(a, b);
    OneCarry(o + i + l / 0x1_0000, f);
  }

  /** A product of halves, which fits in a word. */
  function Product(x: half, y: half): (r: nat)
    ensures r <= 0xfffe_0001
  {
    Bounded(x, 0xffff, y, 0xffff);
    x * y % WORD
  }

  lemma OneCarry(t: nat, f: nat)
    requires t < 2 * WORD && f <= 0xfffe_0001
    ensures (t % WORD / 0x1_0000 + f) % WORD == f + t / 0x1_0000 - if t < WORD then 0 else 0x1_0000
  {
  }

  lemma ProductIs(x: half, y: half)
    ensures Product(x, y) == x * y
  {
    Bounded(x, 0xffff, y, 0xffff);
    var z := x * y;
    Division.DivUnique(z, WORD, 0, z);
  }

  /** The four products of the halves, and what they make. */
  lemma FourProducts(a: word, b: word)
    ensures var alo, ahi: half := a % 0x1_0000, a / 0x1_0000 % 0x1_0000;
            var blo, bhi: half := b % 0x1_0000, b / 0x1_0000 % 0x1_0000;
            var t := Product(ahi, blo) + Product(alo, bhi) + Product(alo, blo) / 0x1_0000;
            Cross(a, b) == t && a * b / WORD == Product(ahi, bhi) + t / 0x1_0000
  {
    OfHalves(a / 0x1_0000, a % 0x1_0000, b / 0x1_0000, b % 0x1_0000);
    assert a / 0x1_0000 % 0x1_0000 == a / 0x1_0000 && b / 0x1_0000 % 0x1_0000 == b / 0x1_0000;
    hide Product;
  }

  lemma OfHalves(ahi: half, alo: half, bhi: half, blo: half)
    ensures Product(ahi, blo) == ahi * blo && Product(alo, bhi) == alo * bhi && Product(alo, blo) == alo * blo
    ensures (ahi * 0x1_0000 + alo) * (bhi * 0x1_0000 + blo) / WORD ==
            Product(ahi, bhi) + (Product(ahi, blo) + Product(alo, bhi) + Product(alo, blo) / 0x1_0000) / 0x1_0000
  {
    hide Product;
    ProductIs(alo, blo);
    ProductIs(ahi, blo);
    ProductIs(alo, bhi);
    ProductIs(ahi, bhi);
    Expand(ahi, alo, bhi, blo);
    HighPart((ahi * 0x1_0000 + alo) * (bhi * 0x1_0000 + blo), Product(alo, blo),
             Product(ahi, blo) + Product(alo, bhi), Product(ahi, bhi));
  }

  lemma HighPart(x: nat, l: nat, m: nat, f: nat)
    requires x == f * WORD + m * 0x1_0000 + l
    ensures x / WORD == f + (m + l / 0x1_0000) / 0x1_0000
  {
    var t := m + l / 0x1_0000;
    Division.DivUnique(x, WORD, f + t / 0x1_0000, t % 0x1_0000 * 0x1_0000 + l % 0x1_0000);
  }

  lemma Expand(x: nat, y: nat, z: nat, w: nat)
    ensures (x * 0x1_0000 + y) * (z * 0x1_0000 + w) == x * z * WORD + (x * w + y * z) * 0x1_0000 + y * w
  {
  }

  /** There is no lost carry between non-negative integers, nor in nanoseconds
      of a fraction of up to a half. */
  lemma CrossFits(a: word, b: word)
    requires (a < 0x8000_0000 && b < 0x8000_0000) || (a <= 0x8000_0000 && b == 1_000_000_000)
    ensures Cross(a, b) < WORD
  {
    var ah, al, bh, bl := a / 0x1_0000, a % 0x1_0000, b / 0x1_0000, b % 0x1_0000;
    if a < 0x8000_0000 && b < 0x8000_0000 {
      Bounded(ah, 0x7fff, bl, 0xffff);
      Bounded(al, 0xffff, bh, 0x7fff);
      Bounded(al, 0xffff, bl, 0xffff);
    }
  }

  lemma Bounded(x: nat, m: nat, y: nat, n: nat)
    requires x <= m && y <= n
    ensures x * y <= m * n
  {
    Division.Scale(x, m, y);
    Division.Scale(y, n, m);
  }

  lemma CarryLost()
    ensures Cross(0xffff_ffff, 0xffff_ffff) >= WORD
  {
  }
}
