module Options {
  datatype Option<+T> = None | Some(value: T)
}

/** Powers of two. */
module Powers {
  import Division

  function Pow2(n: nat): (r: nat)
    ensures r > 0
  {
    if n == 0 then 1 else 2 * Pow2(n - 1)
  }

  lemma {:induction false} Pow2Add(a: nat, b: nat)
    ensures Pow2(a + b) == Pow2(a) * Pow2(b)
  {
    if a > 0 {
      Pow2Add(a - 1, b);
      assert a + b - 1 == (a - 1) + b;
      assert Pow2(a + b) == 2 * Pow2(a + b - 1) == 2 * (Pow2(a - 1) * Pow2(b)) == Pow2(a) * Pow2(b);
    }
  }

  lemma SmallPowers()
    ensures Pow2(0) == 1 && Pow2(1) == 2 && Pow2(2) == 4 && Pow2(3) == 8 && Pow2(4) == 16
    ensures Pow2(5) == 32 && Pow2(6) == 64 && Pow2(7) == 128 && Pow2(8) == 256 && Pow2(9) == 512
  {
    assert Pow2(2) == 2 * Pow2(1);
    assert Pow2(4) == 2 * Pow2(3) == 4 * Pow2(2);
    assert Pow2(6) == 2 * Pow2(5) == 4 * Pow2(4);
    assert Pow2(8) == 2 * Pow2(7) == 4 * Pow2(6);
    assert Pow2(9) == 2 * Pow2(8);
  }

  lemma WidePowers()
    ensures Pow2(16) == 0x1_0000 && Pow2(32) == 0x1_0000_0000 && Pow2(64) == 0x1_0000_0000_0000_0000
  {
    SmallPowers();
    Pow2Add(8, 8);
    Pow2Add(16, 16);
    Pow2Add(32, 32);
  }

  lemma ModPow(x: nat, s: nat, t: nat)
    requires t <= s
    ensures x % Pow2(s) % Pow2(t) == x % Pow2(t)
  {
    Pow2Add(t, s - t);
    hide Pow2;
    Division.ModOfProduct(x, Pow2(t), Pow2(s - t));
  }

  lemma MultipleOf(x: nat, s: nat, k: nat)
    requires k <= s
    ensures x * Pow2(s) % Pow2(k) == 0
  {
    Pow2Add(k, s - k);
    hide Pow2;
    Division.MultipleMod(x, Pow2(s), Pow2(k), Pow2(s - k));
  }

  lemma {:induction false} Pow2Monotone(a: nat, b: nat)
    requires a <= b
    ensures Pow2(a) <= Pow2(b)
    decreases b
  {
    if a < b {
      Pow2Monotone(a, b - 1);
    }
  }
}

/** Division facts the solver does not find by itself. */
module Division {
  function Magnitude(x: int): nat { if x < 0 then -x else x }

  lemma DivUnique(x: int, m: int, q: int, r: int)
    requires m > 0 && x == q * m + r && 0 <= r < m
    ensures x / m == q && x % m == r
  {
    var e := x / m - q;
    assert x == x / m * m + x % m;
    assert e * m == r - x % m;
    assert e >= 1 ==> e * m >= m;
    assert e <= -1 ==> e * m <= -m;
  }

  lemma Scale(x: int, y: int, p: nat)
    ensures x < y && p > 0 ==> x * p < y * p
    ensures x <= y ==> x * p <= y * p
  {
  }

  /** The definition of quotient and remainder. */
  lemma Split(x: nat, m: nat)
    requires m > 0
    ensures x == x / m * m + x % m && 0 <= x % m < m && x / m >= 0
  {
  }

  lemma ModAtMost(x: nat, m: nat)
    requires m > 0
    ensures 0 <= x % m <= x
  {
    if x < m {
      DivUnique(x, m, 0, x);
    }
  }

  /** The next bit of b, counted from the top, doubles what is above it. */
  lemma HalfStep(b: nat, p: nat)
    requires p > 0
    ensures b / p == b / (2 * p) * 2 + b / p % 2
  {
    var q, r := b / p, b % p;
    assert b == (q / 2) * (2 * p) + (q % 2 * p + r) by {
      assert b == q * p + r && q == q / 2 * 2 + q % 2;
    }
    DivUnique(b, 2 * p, q / 2, q % 2 * p + r);
  }

  lemma SplitBit(l: nat, p: nat)
    requires p > 0
    ensures l == l / p / 2 * (2 * p) + l / p % 2 * p + l % p
  {
    var t := l / p;
    assert t * p == (t / 2 * 2 + t % 2) * p;
  }

  lemma MulMod(a: nat, p: nat)
    requires p > 0
    ensures a * p % p == 0 && a * p / p == a
  {
    DivUnique(a * p, p, a, 0);
  }

  lemma MultipleMod(x: nat, m: nat, p: nat, q: nat)
    requires p > 0 && m == p * q
    ensures x * m % p == 0
  {
    assert x * (p * q) == x * q * p;
    MulMod(x * q, p);
  }

  lemma OneLess(w: nat, p: nat, h: nat)
    requires w == p * h && h > 0
    ensures w >= p && w - p == (h - 1) * p
  {
  }

  lemma ModOfProduct(x: nat, p: nat, q: nat)
    requires p > 0 && q > 0
    ensures x % (p * q) % p == x % p
  {
    var m := p * q;
    var a, y := x / m, x % m;
    assert x == a * m + y;
    assert x == (a * q + y / p) * p + y % p by {
      assert a * m == a * q * p && y == y / p * p + y % p;
    }
    DivUnique(x, p, a * q + y / p, y % p);
  }

  /** The remainder modulo 2p from the remainder modulo p. */
  lemma ModDoubled(x: nat, p: nat)
    requires p > 0
    ensures x % (2 * p) == x % p + x / p % 2 * p
  {
    SplitBit(x, p);
    DivUnique(x, 2 * p, x / p / 2, x % p + x / p % 2 * p);
  }
}

/** Bitwise operations on natural numbers, n bits at a time. */
module Bitwise {
  import opened Powers
  import Division

  function And(a: nat, b: nat, n: nat): (r: nat)
    ensures r <= a && r <= b
  {
    if n == 0 then 0
    else 2 * And(a / 2, b / 2, n - 1) + (if a % 2 == 1 && b % 2 == 1 then 1 else 0)
  }

  function Or(a: nat, b: nat, n: nat): (r: nat)
    ensures r < Pow2(n)
  {
    if n == 0 then 0
    else 2 * Or(a / 2, b / 2, n - 1) + (if a % 2 == 1 || b % 2 == 1 then 1 else 0)
  }

  function Xor(a: nat, b: nat, n: nat): (r: nat)
    ensures r < Pow2(n)
  {
    if n == 0 then 0
    else 2 * Xor(a / 2, b / 2, n - 1) + (if a % 2 != b % 2 then 1 else 0)
  }

  lemma {:induction false} AndIdem(a: nat, n: nat)
    requires a < Pow2(n)
    ensures And(a, a, n) == a
  {
    if n > 0 {
      AndIdem(a / 2, n - 1);
    }
  }

  lemma {:induction false} AndOnes(a: nat, n: nat)
    requires a < Pow2(n)
    ensures And(a, Pow2(n) - 1, n) == a && And(Pow2(n) - 1, a, n) == a
  {
    if n > 0 {
      assert (Pow2(n) - 1) / 2 == Pow2(n - 1) - 1;
      AndOnes(a / 2, n - 1);
    }
  }

  lemma {:induction false} OrBit(a: nat, b: nat, n: nat, i: nat)
    requires i < n
    ensures Or(a, b, n) / Pow2(i) % 2 == if a / Pow2(i) % 2 == 1 || b / Pow2(i) % 2 == 1 then 1 else 0
  {
    if i == 0 {
      assert Pow2(0) == 1;
      hide Pow2;
    } else {
      OrBit(a / 2, b / 2, n - 1, i - 1);
      HalfThen(a, i - 1);
      HalfThen(b, i - 1);
      HalfThen(Or(a, b, n), i - 1);
      assert Or(a, b, n) / 2 == Or(a / 2, b / 2, n - 1);
      hide Pow2, Or;
    }
  }

  lemma {:induction false} XorBit(a: nat, b: nat, n: nat, i: nat)
    requires i < n
    ensures Xor(a, b, n) / Pow2(i) % 2 == if a / Pow2(i) % 2 != b / Pow2(i) % 2 then 1 else 0
  {
    if i == 0 {
      assert Pow2(0) == 1;
      hide Pow2;
    } else {
      XorBit(a / 2, b / 2, n - 1, i - 1);
      HalfThen(a, i - 1);
      HalfThen(b, i - 1);
      HalfThen(Xor(a, b, n), i - 1);
      assert Xor(a, b, n) / 2 == Xor(a / 2, b / 2, n - 1);
      hide Pow2, Xor;
    }
  }

  lemma {:induction false} AndBit(a: nat, b: nat, n: nat, i: nat)
    requires i < n
    ensures And(a, b, n) / Pow2(i) % 2 == if a / Pow2(i) % 2 == 1 && b / Pow2(i) % 2 == 1 then 1 else 0
  {
    if i == 0 {
      assert Pow2(0) == 1;
      hide Pow2;
    } else {
      AndBit(a / 2, b / 2, n - 1, i - 1);
      HalfThen(a, i - 1);
      HalfThen(b, i - 1);
      HalfThen(And(a, b, n), i - 1);
      assert And(a, b, n) / 2 == And(a / 2, b / 2, n - 1);
      hide Pow2, And;
    }
  }

  lemma HalfThen(x: nat, i: nat)
    ensures x / Pow2(i + 1) == x / 2 / Pow2(i)
  {
    var p := Pow2(i);
    var y, b := x / 2, x % 2;
    var q, r := y / p, y % p;
    assert x == q * (2 * p) + (2 * r + b) by {
      assert y == q * p + r;
    }
    Division.DivUnique(x, 2 * p, q, 2 * r + b);
  }

  /** The low k bits of an OR with a multiple of 2^k. */
  lemma {:induction false} OrLow(a: nat, b: nat, n: nat, k: nat)
    requires k <= n
    ensures b % Pow2(k) == 0 ==> Or(a, b, n) % Pow2(k) == a % Pow2(k)
    ensures a % Pow2(k) == 0 ==> Or(a, b, n) % Pow2(k) == b % Pow2(k)
  {
    if k == 0 {
      assert Pow2(0) == 1;
    } else {
      OrLow(a / 2, b / 2, n - 1, k - 1);
      ModHalf(a, Pow2(k - 1));
      ModHalf(b, Pow2(k - 1));
      ModHalf(Or(a, b, n), Pow2(k - 1));
    }
  }

  lemma ModHalf(x: nat, p: nat)
    requires p > 0
    ensures x % (2 * p) == x / 2 % p * 2 + x % 2
  {
    var q, r := x / 2 / p, x / 2 % p;
    assert x == q * (2 * p) + (2 * r + x % 2) by { assert x / 2 == q * p + r; }
    Division.DivUnique(x, 2 * p, q, 2 * r + x % 2);
  }

  /** An OR of numbers without a common bit is their sum. */
  lemma {:induction false} OrJoin(a: nat, b: nat, n: nat, k: nat)
    requires k <= n && a < Pow2(n) && a % Pow2(k) == 0 && b < Pow2(k)
    ensures Or(a, b, n) == a + b
  {
    if k == 0 {
      OrZero(a, n);
    } else {
      ModHalf(a, Pow2(k - 1));
      OrJoin(a / 2, b / 2, n - 1, k - 1);
    }
  }

  lemma {:induction false} OrZero(a: nat, n: nat)
    requires a < Pow2(n)
    ensures Or(a, 0, n) == a
  {
    if n > 0 {
      OrZero(a / 2, n - 1);
    }
  }
}

/** Bytes as integers, with the one bitwise operation the flash applies to them. */
module Bytes {
  import Bitwise
  import Powers

  type byte = x: int | 0 <= x < 256

  /** The bitwise AND of two bytes. */
  function And8(a: byte, b: byte): byte { Bitwise.And(a, b, 8) }

  /** It is taken bit by bit. */
  lemma And8Bits(a: byte, b: byte)
    ensures forall p :: p in {1, 2, 4, 8, 16, 32, 64, 128} ==>
              And8(a, b) / p % 2 == if a / p % 2 == 1 && b / p % 2 == 1 then 1 else 0
  {
    Powers.SmallPowers();
    for i := 0 to 8
      invariant forall k :: 0 <= k < i ==>
        var p := Powers.Pow2(k);
        And8(a, b) / p % 2 == if a / p % 2 == 1 && b / p % 2 == 1 then 1 else 0
    {
      Bitwise.AndBit(a, b, 8, i);
    }
    hide Powers.Pow2, Bitwise.And;
  }

  lemma And8Ones(a: byte)
    ensures And8(a, 255) == a && And8(255, a) == a
  {
    Powers.SmallPowers();
    Bitwise.AndOnes(a, 8);
  }

  lemma And8Idem(a: byte)
    ensures And8(a, a) == a
  {
    Powers.SmallPowers();
    Bitwise.AndIdem(a, 8);
  }
}
