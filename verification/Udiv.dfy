/** The 64-bit division of sw/zlib/udiv.c and umod.c: leading zeros by bit
    reversal, and three ways to divide. */
module Udiv {
  import opened Powers
  import Bitwise
  import Division

  const WORD: nat := 0x1_0000_0000
  const LONG: nat := 0x1_0000_0000_0000_0000

  type word = x: int | 0 <= x < WORD
  type ulong = x: int | 0 <= x < LONG
  type long = x: int | -0x8000_0000_0000_0000 <= x < 0x8000_0000_0000_0000

  // ---------- Bit reversal ----------

  function Shr(a: nat, i: nat): nat { Quotient(a, Pow2(i)) }

  function Quotient(a: nat, p: nat): nat
    requires p > 0
  {
    a / p
  }

  /** The low n bits of a, in reverse. */
  function Reversed(a: nat, n: nat): (r: nat)
    ensures r < Pow2(n)
  {
    if n == 0 then 0 else 2 * Reversed(a, n - 1) + Shr(a, n - 1) % 2
  }

  method ZipBitrev(a: word) returns (r: word)
    ensures r == Reversed(a, 32)
  {
    hide Reversed, Shr, Pow2;
    var b: nat := a;
    var val: nat := 0;
    NoBits(a);
    var i := 0;
    while i < 32
      invariant 0 <= i <= 32 && val == Reversed(a, i) && b == Shr(a, i) && val < WORD
    {
      NextBit(a, i);
      Fits(a, i + 1);
      val := val * 2 % WORD + b % 2;
      b := b / 2;
      i := i + 1;
    }
    r := val;
  }

  lemma NoBits(a: nat)
    ensures Shr(a, 0) == a && Reversed(a, 0) == 0
  {
  }

  lemma NextBit(a: nat, i: nat)
    ensures Reversed(a, i + 1) == 2 * Reversed(a, i) + Shr(a, i) % 2
    ensures Shr(a, i + 1) == Shr(a, i) / 2
  {
    ShrAdd(a, i, 1);
    NoBits(Shr(a, i));
    Halves(Shr(a, i));
  }

  lemma Halves(x: nat)
    ensures Shr(x, 1) == x / 2
  {
    assert Pow2(1) == 2;
  }

  lemma ShrAdd(a: nat, i: nat, k: nat)
    ensures Shr(a, i + k) == Shr(Shr(a, i), k)
  {
    Pow2Add(i, k);
    DivTwice(a, Pow2(i), Pow2(k));
  }

  lemma DivTwice(a: nat, p: nat, q: nat)
    requires p > 0 && q > 0
    ensures a / (p * q) == a / p / q
  {
    var y, r := a / p, a % p;
    assert a == y / q * (p * q) + (y % q * p + r) by {
      assert y == y / q * q + y % q;
      assert y * p == (y / q * q + y % q) * p;
      assert y / q * q * p == y / q * (p * q);
    }
    Below(y % q, q, r, p);
    Division.DivUnique(a, p * q, y / q, y % q * p + r);
  }

  lemma Below(x: nat, q: nat, r: nat, p: nat)
    requires x < q && r < p
    ensures 0 <= x * p + r < p * q
  {
    assert (x + 1) * p <= q * p;
  }

  /** Bit i of the reversal is bit i from the other end. */
  lemma {:induction false} ReversedBit(a: nat, n: nat, i: nat)
    requires i < n
    ensures Shr(Reversed(a, n), i) % 2 == Shr(a, n - 1 - i) % 2
  {
    hide Shr;
    var r := Reversed(a, n);
    if i == 0 {
      NoBits(r);
    } else {
      ShrAdd(r, 1, i - 1);
      Halves(r);
      ReversedBit(a, n - 1, i - 1);
      assert 1 + (i - 1) == i;
    }
  }

  /** The low k bits of the reversal are the top k bits reversed. */
  lemma {:induction false} ReversedSplit(a: nat, n: nat, k: nat)
    requires k <= n
    ensures Reversed(a, n) == Reversed(a, n - k) * Pow2(k) + Reversed(Shr(a, n - k), k)
  {
    hide Shr;
    if k == 0 {
      assert Pow2(0) == 1;
    } else {
      var x := Shr(a, n - k);
      ReversedSplit(a, n - 1, k - 1);
      ShrAdd(a, n - k, k - 1);
      assert n - 1 - (k - 1) == n - k && n - k + (k - 1) == n - 1;
      Double(Reversed(a, n - k), Pow2(k - 1), Reversed(x, k - 1));
    }
  }

  lemma Double(x: nat, p: nat, y: nat)
    ensures 2 * (x * p + y) == x * (2 * p) + 2 * y
  {
  }

  lemma {:induction false} ReversedZero(x: nat, k: nat)
    requires x < Pow2(k)
    ensures Reversed(x, k) == 0 <==> x == 0
  {
    if k > 0 {
      var p := Pow2(k - 1);
      if x < p {
        ReversedZero(x, k - 1);
        Division.DivUnique(x, p, 0, x);
      } else {
        Division.DivUnique(x, p, 1, x - p);
      }
    }
  }

  /** Are the low k bits of the reversal zero?  Just when the top k bits are. */
  lemma TopBits(a: nat, n: nat, k: nat)
    requires k <= n && a < Pow2(n)
    ensures Reversed(a, n) % Pow2(k) == 0 <==> a < Pow2(n - k)
    ensures a < Pow2(n - k) ==> Reversed(a, n) / Pow2(k) == Reversed(a, n - k)
  {
    var x := Shr(a, n - k);
    ReversedSplit(a, n, k);
    Pow2Add(n - k, k);
    assert n - k + k == n;
    QuotientBelow(a, Pow2(n - k), Pow2(k));
    ReversedZero(x, k);
    hide Reversed, Pow2;
    Division.DivUnique(Reversed(a, n), Pow2(k), Reversed(a, n - k), Reversed(x, k));
  }

  lemma QuotientBelow(a: nat, p: nat, q: nat)
    requires p > 0 && a < p * q
    ensures a / p < q && (a / p == 0 <==> a < p)
  {
    var y, r := a / p, a % p;
    assert a == y * p + r;
    assert y >= q ==> y * p >= q * p;
    assert y >= 1 ==> y * p >= p;
  }

  lemma Fits(a: nat, i: nat)
    requires i <= 32
    ensures Reversed(a, i) < WORD
  {
    WidePowers();
    Pow2Monotone(i, 32);
  }

  // ---------- Leading zeros ----------

  /** cnt is the number of zeros in front of the first one of v. */
  ghost predicate LeadingZeros(v: nat, cnt: int) {
    0 <= cnt < 64 && Pow2(63 - cnt) <= v < Pow2(64 - cnt)
  }

  /** Inside cltz(): a has at most k - 1 zeros in front when written in w bits,
      and hv is the reversal of these; or it is all zeros. */
  ghost predicate Within(a: nat, hv: nat, w: nat, k: nat) {
    k <= w && hv == Reversed(a, w) && a < Pow2(w) && if a == 0 then w == k else Pow2(w - k) <= a
  }

  lemma Narrow(a: nat, hv: nat, w: nat, k: nat)
    requires Within(a, hv, w, 2 * k)
    ensures 2 * k <= w
    ensures if hv % Pow2(k) == 0 then Within(a, hv / Pow2(k), w - k, k) else Within(a, hv, w, k) && a != 0
  {
    TopBits(a, w, k);
    assert w - k - k == w - 2 * k;
    hide Reversed;
    if a == 0 {
      assert hv % Pow2(k) == 0;
    }
  }

  lemma StartWithin(a: nat)
    requires a < WORD
    ensures Within(a, Reversed(a, 32), 32, 32)
  {
    WidePowers();
    assert Pow2(0) == 1;
    hide Reversed;
  }

  lemma EndWithin(v: nat, a: nat, hv: nat, w: nat, base: nat)
    requires v < LONG && Within(a, hv, w, 1) && w <= 32
    requires if v / WORD == 0 then base == 32 && a == v % WORD else base == 0 && a == v / WORD
    ensures v != 0 ==> LeadingZeros(v, base + 32 - w)
    ensures v == 0 ==> base + 32 - w == 63
  {
    WidePowers();
    Pow2Add(32, w);
    Pow2Add(32, w - 1);
    hide Reversed, Pow2;
    if base == 0 {
      ScaleBounds(v, WORD, Pow2(w - 1), Pow2(w));
    }
  }

  lemma ScaleBounds(v: nat, m: nat, lo: nat, hi: nat)
    requires m > 0 && lo <= v / m < hi
    ensures m * lo <= v < m * hi
  {
    Division.Split(v, m);
    var q := v / m;
    Division.Scale(lo, q, m);
    Division.Scale(q + 1, hi, m);
    OneMore(q, m);
  }

  lemma OneMore(q: nat, m: nat)
    ensures (q + 1) * m == q * m + m
  {
  }

  /** cltz(), in C.  The number of zeros is exact for every value but zero, for
      which it is 63 and not 64. */
  method Cltz(v: ulong) returns (cnt: int)
    ensures v != 0 ==> LeadingZeros(v, cnt)
    ensures v == 0 ==> cnt == 63
  {
    SmallPowers();
    WidePowers();
    hide Reversed, Pow2, Within, LeadingZeros;
    cnt := 0;
    var hv: word := v / WORD;
    if hv == 0 {
      cnt := 32;
      hv := v % WORD;
    }
    ghost var a, base, w := hv, cnt, 32;
    hv := ZipBitrev(hv);
    StartWithin(a);
    Narrow(a, hv, w, 16);
    if hv % 0x1_0000 == 0 {
      cnt, w := cnt + 16, w - 16;
      hv := hv / 0x1_0000;
    }
    Narrow(a, hv, w, 8);
    if hv % 0x100 == 0 {
      cnt, w := cnt + 8, w - 8;
      hv := hv / 0x100;
    }
    Narrow(a, hv, w, 4);
    if hv % 0x10 == 0 {
      cnt, w := cnt + 4, w - 4;
      hv := hv / 0x10;
    }
    Narrow(a, hv, w, 2);
    if hv % 4 == 0 {
      cnt, w := cnt + 2, w - 2;
      hv := hv / 4;
    }
    Narrow(a, hv, w, 1);
    ghost var last := hv;
    if hv % 2 == 0 {
      cnt, w, last := cnt + 1, w - 1, hv / 2;
    }
    EndWithin(v, a, last, w, base);
  }

  // ---------- Division ----------

  /** A shift to the left, of which 64 bits remain. */
  function Shl(x: nat, n: nat): ulong { x * Pow2(n) % LONG }

  lemma MoreZerosBelow(a: nat, b: nat, la: int, lb: int)
    requires a >= b && LeadingZeros(a, la) && LeadingZeros(b, lb)
    ensures la <= lb
  {
    if la > lb {
      Pow2Monotone(64 - la, 63 - lb);
    }
  }

  /** A value may be shifted by as many bits as it has zeros in front. */
  lemma ShiftFits(x: nat, n: nat, lx: int)
    requires LeadingZeros(x, lx) && n <= lx
    ensures Shl(x, n) == x * Pow2(n) && x * Pow2(n) >= Pow2(63 - (lx - n))
  {
    Pow2Add(64 - lx, n);
    Pow2Add(63 - lx, n);
    Pow2Monotone(64 - lx + n, 64);
    WidePowers();
    hide Pow2;
    ScaleBetween(Pow2(63 - lx), x, Pow2(64 - lx), Pow2(n));
  }

  lemma ScaleBetween(lo: nat, x: nat, hi: nat, p: nat)
    requires lo <= x < hi && p > 0
    ensures lo * p <= x * p < hi * p
    ensures hi * p <= LONG ==> x * p % LONG == x * p
  {
    Division.Scale(x, hi, p);
    Division.Scale(lo, x, p);
    var y := x * p;
    if hi * p <= LONG {
      Division.DivUnique(y, LONG, 0, y);
    }
  }

  lemma ScaledQuotient(a: nat, b: nat, p: nat)
    requires b > 0 && p > 0
    ensures b * p > 0 && a * p / (b * p) == a / b
  {
    var q, r := a / b, a % b;
    assert a == q * b + r;
    assert a * p == q * (b * p) + r * p;
    Division.Scale(r, b, p);
    Division.DivUnique(a * p, b * p, q, r * p);
  }

  /** The middle way: the low half of the divisor vanishes when both are shifted. */
  lemma HighHalves(a: nat, b: nat, p: nat)
    requires b > 0 && p > 0 && b * p >= WORD && b * p % WORD == 0
    ensures b * p / WORD > 0 && a * p / WORD / (b * p / WORD) == a / b
  {
    var k := b * p / WORD;
    assert b * p == WORD * k;
    ScaledQuotient(a, b, p);
    DivTwice(a * p, WORD, k);
  }

  /** The slow way, before the bit m of the quotient is tried: what is left of
      the dividend, the divisor d still shifted up by m, and the bits so far. */
  ghost predicate Trying(dividend: nat, d: nat, left: nat, shifted: nat, r: nat, m: nat) {
    && d > 0 && dividend == left + r * d
    && if m == 0 then left < d
       else shifted == m * d && left < 2 * (m * d) && r % (2 * m) == 0
  }

  lemma StartTrying(dividend: nat, d: nat, m: nat)
    requires d > 0 && m > 0 && dividend < 2 * (m * d)
    ensures Trying(dividend, d, dividend, m * d, 0, m)
  {
  }

  lemma TryBit(dividend: nat, d: nat, left: nat, shifted: nat, r: nat, m: nat)
    requires Trying(dividend, d, left, shifted, r, m) && m > 0 && (m == 1 || m % 2 == 0)
    ensures left >= shifted ==> Trying(dividend, d, left - shifted, shifted / 2, r + m, m / 2)
    ensures left < shifted ==> Trying(dividend, d, left, shifted / 2, r, m / 2)
    ensures r <= dividend && (left >= shifted ==> r + m <= dividend)
  {
    AtMost(r, d);
    if left >= shifted {
      assert (r + m) * d == r * d + m * d;
      AtMost(r + m, d);
    }
    if m > 1 {
      HalfOf(m, d);
      EvenParts(r, m / 2);
    }
  }

  lemma HalfOf(m: nat, d: nat)
    requires m % 2 == 0
    ensures m * d == 2 * (m / 2 * d) && m * d / 2 == m / 2 * d
  {
    var h := m / 2;
    assert m == 2 * h;
  }

  lemma AtMost(r: nat, d: nat)
    requires d > 0
    ensures r <= r * d
  {
  }

  lemma EvenParts(r: nat, h: nat)
    requires h > 0 && r % (2 * (2 * h)) == 0
    ensures r % (2 * h) == 0 && (r + 2 * h) % (2 * h) == 0
  {
    var k := r / (2 * (2 * h));
    assert r == k * (2 * (2 * h)) == (2 * k) * (2 * h);
    Division.MulMod(2 * k, 2 * h);
    assert r + 2 * h == (2 * k + 1) * (2 * h);
    Division.MulMod(2 * k + 1, 2 * h);
  }

  lemma Tried(dividend: nat, d: nat, left: nat, shifted: nat, r: nat)
    requires Trying(dividend, d, left, shifted, r, 0)
    ensures r == dividend / d
  {
    Division.DivUnique(dividend, d, r, left);
  }

  lemma StartShifted(a: nat, b: nat, la: nat, lb: nat)
    requires b > 0 && la <= lb < 64 && LeadingZeros(b, lb) && LeadingZeros(a, la)
    ensures Trying(a * Pow2(la), b * Pow2(la), a * Pow2(la), b * Pow2(lb), 0, Pow2(lb - la))
    ensures b * Pow2(la) > 0
  {
    ShiftFits(b, lb, lb);
    ShiftFits(a, la, la);
    Pow2Add(la, lb - la);
    WidePowers();
    assert Pow2(64) == 2 * Pow2(63);
    var left, shifted := a * Pow2(la), b * Pow2(lb);
    assert left < LONG <= 2 * shifted by { assert Shl(a, la) < LONG; }
    hide Pow2, Shl, LeadingZeros, Trying;
    Regroup(b, Pow2(la), Pow2(lb - la));
    StartTrying(left, b * Pow2(la), Pow2(lb - la));
  }

  lemma Regroup(b: nat, p: nat, m: nat)
    ensures b * (p * m) == m * (b * p)
    ensures b > 0 && p > 0 ==> b * p > 0
  {
  }

  lemma HalfPower(j: nat)
    ensures j == 0 ==> Pow2(j) == 1
    ensures j > 0 ==> Pow2(j) / 2 == Pow2(j - 1) && Pow2(j) % 2 == 0
  {
  }

  /** Subtract the divisor, one place lower each time, wherever it goes in. */
  method ShiftSubtract(a0: ulong, b0: ulong, ghost d: nat, j0: nat) returns (r: ulong)
    requires j0 < 64 && Trying(a0, d, a0, b0, 0, Pow2(j0))
    ensures r == a0 / d
  {
    hide Pow2, Trying, Bitwise.Or;
    WidePowers();
    var a, b, m: nat := a0, b0, Shl(1, j0);
    ghost var j: int := j0;
    r := 0;
    PowerFits(j0);
    while m > 0
      invariant Trying(a0, d, a, b, r, m)
      invariant m > 0 ==> 0 <= j < 64 && m == Pow2(j)
      decreases m
    {
      HalfPower(j);
      TryBit(a0, d, a, b, r, m);
      if a >= b {
        SetBit(a0, d, a, b, r, j);
        r := Bitwise.Or(r, m, 64);
        a := a - b;
      }
      m := m / 2;
      b := b / 2;
      j := j - 1;
    }
    Tried(a0, d, a, b, r);
  }

  lemma PowerFits(j: nat)
    requires j < 64
    ensures Shl(1, j) == Pow2(j)
  {
    WidePowers();
    Pow2Monotone(j, 63);
    assert Pow2(64) == 2 * Pow2(63);
  }

  lemma SetBit(dividend: nat, d: nat, left: nat, shifted: nat, r: nat, j: nat)
    requires j < 64 && r < LONG && Trying(dividend, d, left, shifted, r, Pow2(j))
    ensures Bitwise.Or(r, Pow2(j), 64) == r + Pow2(j)
  {
    WidePowers();
    assert Pow2(j + 1) == 2 * Pow2(j);
    hide Pow2;
    Bitwise.OrJoin(r, Pow2(j), 64, j + 1);
  }

  /** Both operands are words. */
  method LowWords(a: ulong, b: ulong) returns (r: ulong)
    requires b > 0 && a / WORD == 0 && b / WORD == 0
    ensures r == a / b
  {
    var ia, ib := a % WORD, b % WORD;
    var ir := ia / ib;
    QuotientAtMost(ia, ib);
    r := ir;
  }

  lemma QuotientAtMost(x: nat, y: nat)
    requires y > 0
    ensures x / y <= x
  {
    var q := x / y;
    assert x == q * y + x % y;
    AtMost(q, y);
  }

  /** The high words of both operands divided, where that is enough. */
  method HighWords(a: ulong, b: ulong, la: nat, lb: nat) returns (r: ulong)
    requires 0 < b <= a && LeadingZeros(a, la) && LeadingZeros(b, lb)
    requires lb - la < 32 && Shl(b, la) % WORD == 0
    ensures r == a / b
  {
    Normalised(a, b, la, lb);
    HighHalves(a, b, Pow2(la));
    hide Pow2, LeadingZeros, Shl;
    var ia, ib := Shl(a, la) / WORD, Shl(b, la) / WORD;
    r := ia / ib;
  }

  /** Both operands as far up as they go, and the difference made good bit by bit. */
  method BitByBit(a: ulong, b: ulong, la: nat, lb: nat) returns (r: ulong)
    requires 0 < b <= a && LeadingZeros(a, la) && LeadingZeros(b, lb)
    ensures r == a / b
  {
    Normalised(a, b, la, lb);
    StartShifted(a, b, la, lb);
    ScaledQuotient(a, b, Pow2(la));
    hide Pow2, LeadingZeros, Shl, Trying;
    r := ShiftSubtract(Shl(a, la), Shl(b, lb), b * Pow2(la), lb - la);
  }

  /** __udivdi3(): the quotient, whichever way it is found. */
  method Udivdi3(a: ulong, b: ulong) returns (r: ulong)
    requires b > 0
    ensures r == a / b
  {
    hide Pow2, Shl, LeadingZeros;
    if a < b {
      Division.DivUnique(a, b, 0, a);
      return 0;
    }
    if b / WORD == 0 && a / WORD == 0 {
      r := LowWords(a, b);
      return;
    }
    var la := Cltz(a);
    var lb := Cltz(b);
    ZerosInRange(a, la);
    ZerosInRange(b, lb);
    if lb - la < 32 && Shl(b, la) % WORD == 0 {
      r := HighWords(a, b, la, lb);
    } else {
      r := BitByBit(a, b, la, lb);
    }
  }

  lemma ZerosInRange(v: nat, cnt: int)
    requires LeadingZeros(v, cnt)
    ensures 0 <= cnt < 64
  {
  }

  /** What the shifts of the two operands come to. */
  lemma Normalised(a: nat, b: nat, la: int, lb: int)
    requires a >= b && LeadingZeros(a, la) && LeadingZeros(b, lb)
    ensures 0 <= la <= lb < 64
    ensures Shl(a, la) == a * Pow2(la) && Shl(b, la) == b * Pow2(la) && Shl(b, lb) == b * Pow2(lb)
    ensures lb - la < 32 ==> b * Pow2(la) >= WORD
  {
    MoreZerosBelow(a, b, la, lb);
    ShiftFits(a, la, la);
    ShiftFits(b, la, lb);
    ShiftFits(b, lb, lb);
    if lb - la < 32 {
      WidePowers();
      Pow2Monotone(32, 63 - (lb - la));
    }
  }

  /** __umoddi3(): the remainder. */
  method Umoddi3(a: ulong, b: ulong) returns (r: ulong)
    requires b > 0
    ensures r == a % b
  {
    var q := Udivdi3(a, b);
    assert a == q * b + a % b;
    r := q * b % LONG;
    r := (a - r) % LONG;
  }

  /** What 64 bits say as a signed number. */
  function Wrap(x: int): long {
    var y := x % LONG;
    if y < 0x8000_0000_0000_0000 then y else y - LONG
  }

  /** Negation, in 64 bits. */
  function NegatedLong(x: int): long { Wrap(-x) }

  const LEAST: long := -0x8000_0000_0000_0000

  /** q is a divided by b, rounded towards zero. */
  ghost predicate TruncatedQuotient(q: int, a: int, b: int) {
    var rem := a - q * b;
    Division.Magnitude(rem) < Division.Magnitude(b) && (a >= 0 ==> rem >= 0) && (a <= 0 ==> rem <= 0)
  }

  /** __divdi3(): the signed quotient.  The only one that does not fit, that of
      the least number and -1, wraps around to the least number. */
  method Divdi3(a0: long, b0: long) returns (r: long)
    requires b0 != 0
    ensures TruncatedQuotient(r, a0, b0) <==> !(a0 == LEAST && b0 == -1)
    ensures a0 == LEAST && b0 == -1 ==> r == LEAST
  {
    hide TruncatedQuotient, Wrap, NegatedLong, Division.Magnitude;
    var s, a, b := false, a0, b0;
    if a < 0 {
      s := true;
      a := NegatedLong(a);
    }
    if b < 0 {
      s := !s;
      b := NegatedLong(b);
    }
    WrapMagnitude(a0);
    WrapMagnitude(b0);
    var q := Udivdi3(a % LONG, b % LONG);
    QuotientFits(a0, b0, q);
    SignedQuotient(a0, b0, q);
    r := Wrap(q);
    if s {
      r := NegatedLong(r);
    }
    WrapSigned(q, s);
  }

  lemma WrapMagnitude(x: long)
    ensures (if x < 0 then NegatedLong(x) else x) % LONG == Division.Magnitude(x) < LONG
    ensures x != 0 ==> Division.Magnitude(x) > 0
  {
  }

  lemma WrapSigned(q: nat, s: bool)
    requires q <= 0x8000_0000_0000_0000
    ensures q < 0x8000_0000_0000_0000 ==> Wrap(q) == q && NegatedLong(Wrap(q)) == -(q as int)
    ensures q == 0x8000_0000_0000_0000 ==> Wrap(q) == LEAST && NegatedLong(LEAST) == LEAST
  {
  }

  lemma HalfAtMost(x: nat, y: nat)
    requires y > 0
    ensures if y == 1 then x / y == x else x / y * 2 <= x
  {
    QuotientAtMost(x, y);
    var q := x / y;
    assert x == q * y + x % y;
    if y > 1 {
      Scale2(q, 2, y);
    } else {
      Division.DivUnique(x, y, x, 0);
    }
  }

  lemma Scale2(q: nat, k: nat, y: nat)
    requires k <= y
    ensures q * k <= q * y
  {
  }

  lemma QuotientFits(a: long, b: long, q: nat)
    requires b != 0 && Division.Magnitude(b) > 0 && q == Division.Magnitude(a) / Division.Magnitude(b)
    ensures q <= 0x8000_0000_0000_0000
    ensures q == 0x8000_0000_0000_0000 <==> a == LEAST && (b == 1 || b == -1)
  {
    HalfAtMost(Division.Magnitude(a), Division.Magnitude(b));
  }

  lemma SignedQuotient(a: long, b: long, q: nat)
    requires b != 0 && Division.Magnitude(b) > 0 && q == Division.Magnitude(a) / Division.Magnitude(b)
    ensures TruncatedQuotient(if (a < 0) != (b < 0) then -(q as int) else q as int, a, b)
    ensures a == LEAST && b == -1 ==> !TruncatedQuotient(LEAST, a, b)
  {
    var x, y: nat := Division.Magnitude(a), Division.Magnitude(b);
    assert x == q * y + x % y;
    SignOfProduct(q, b);
  }

  lemma SignOfProduct(x: int, y: int)
    ensures (-x) * y == -(x * y) && x * (-y) == -(x * y)
  {
  }
}
