/** The frame check sequence of IEEE 802.3 clause 3.2.9, as calccrc() of
    sw/host/crctest.cpp computes it over a packet of 32-bit words. */
module EthernetCrc {

  // ---------- Long division, with the highest coefficient in bit 0 ----------

  function Half(r: bv32): bv32 { r >> 1 }

  function Bit0(r: bv32): bv32 { r & 1 }

  /** The generator, times 0 or 1. */
  function Tap(t: bv32): bv32 { (0 - t) & 0xedb8_8320 }

  /** Multiply by x, modulo the generator. */
  function Step(r: bv32): bv32 { Xor(Half(r), Tap(Bit0(r))) }

  function Steps(r: bv32, n: nat): bv32 {
    if n == 0 then r else Step(Steps(r, n - 1))
  }

  function Xor(x: bv32, y: bv32): bv32 { x ^ y }

  function Top(bit: bv32): bv32 { bit << 31 }

  /** Another coefficient, 0 or 1, at the end. */
  function Append(p: bv32, bit: bv32): bv32 { Xor(Half(p), Top(bit)) }

  function Feed(r: bv32, bit: bv32): bv32 { Xor(Step(r), Top(bit)) }

  /** The remainder of the polynomial with these coefficients, highest first. */
  function Remainder(bits: seq<bv32>): bv32 {
    if bits == [] then 0 else Feed(Remainder(bits[..|bits| - 1]), bits[|bits| - 1])
  }

  /** The bits of a byte in the order of transmission. */
  function ByteBits(b: bv8): (s: seq<bv32>)
    ensures |s| == 8
  {
    var w := b as bv32;
    [w & 1, (w >> 1) & 1, (w >> 2) & 1, (w >> 3) & 1, (w >> 4) & 1, (w >> 5) & 1, (w >> 6) & 1, (w >> 7) & 1]
  }

  function Bits(bytes: seq<bv8>): seq<bv32> {
    if bytes == [] then [] else Bits(bytes[..|bytes| - 1]) + ByteBits(bytes[|bytes| - 1])
  }

  function Zeros(n: nat): seq<bv32> { seq(n, _ => 0) }

  lemma XorThree(x: bv32, y: bv32, z: bv32)
    ensures Xor(Xor(x, y), z) == Xor(x, Xor(y, z))
  {
  }

  lemma XorTwo(x: bv32, y: bv32)
    ensures Xor(x, y) == Xor(y, x)
  {
  }

  lemma XorSelf(x: bv32)
    ensures Xor(x, x) == 0 && Xor(x, 0) == x && Xor(0, x) == x
  {
  }

  lemma XorFour(a: bv32, b: bv32, c: bv32, d: bv32)
    ensures Xor(Xor(a, b), Xor(c, d)) == Xor(Xor(a, c), Xor(b, d))
  {
    hide Xor;
    XorThree(a, b, Xor(c, d));
    XorThree(b, c, d);
    XorTwo(b, c);
    XorThree(c, b, d);
    XorThree(a, c, Xor(b, d));
  }

  lemma HalfLinear(x: bv32, y: bv32)
    ensures Half(Xor(x, y)) == Xor(Half(x), Half(y))
  {
  }

  lemma BitLinear(x: bv32, y: bv32)
    ensures Bit0(Xor(x, y)) == Xor(Bit0(x), Bit0(y))
    ensures (Bit0(x) == 0 || Bit0(x) == 1) && (Bit0(y) == 0 || Bit0(y) == 1)
  {
  }

  lemma TapLinear(s: bv32, t: bv32)
    requires (s == 0 || s == 1) && (t == 0 || t == 1)
    ensures Tap(Xor(s, t)) == Xor(Tap(s), Tap(t))
  {
    assert Tap(0) == 0;
    hide Tap, Xor;
    XorSelf(s);
    XorSelf(t);
    XorSelf(Tap(s));
    XorSelf(Tap(t));
  }

  lemma StepLinear(x: bv32, y: bv32)
    ensures Step(Xor(x, y)) == Xor(Step(x), Step(y))
  {
    hide Half, Bit0, Tap, Xor;
    HalfLinear(x, y);
    BitLinear(x, y);
    TapLinear(Bit0(x), Bit0(y));
    XorFour(Half(x), Half(y), Tap(Bit0(x)), Tap(Bit0(y)));
  }

  lemma {:induction false} StepsLinear(x: bv32, y: bv32, n: nat)
    ensures Steps(Xor(x, y), n) == Xor(Steps(x, n), Steps(y, n))
  {
    hide Step, Xor;
    if n > 0 {
      StepsLinear(x, y, n - 1);
      StepLinear(Steps(x, n - 1), Steps(y, n - 1));
    }
  }

  lemma {:induction false} StepsAdd(x: bv32, m: nat, n: nat)
    ensures Steps(Steps(x, m), n) == Steps(x, m + n)
  {
    hide Step;
    if n > 0 {
      StepsAdd(x, m, n - 1);
      assert m + n - 1 == m + (n - 1);
    }
  }

  lemma StepInjective(x: bv32, y: bv32)
    requires Step(x) == Step(y)
    ensures x == y
  {
  }

  lemma {:induction false} StepsInjective(x: bv32, y: bv32, n: nat)
    requires Steps(x, n) == Steps(y, n)
    ensures x == y
  {
    hide Step;
    if n > 0 {
      StepInjective(Steps(x, n - 1), Steps(y, n - 1));
      StepsInjective(x, y, n - 1);
    }
  }

  // ---------- The register ----------

  function Low(b: bv8): bv32 { b as bv32 }

  function High(b: bv8): bv32 { (b as bv32) << 24 }

  /** A byte enters at the bottom of the register, where the highest
      coefficients are. */
  function ByteStep(r: bv32, b: bv8): bv32 { Steps(Xor(r, Low(b)), 8) }

  function Register(start: bv32, bytes: seq<bv8>): bv32 {
    if bytes == [] then start else ByteStep(Register(start, bytes[..|bytes| - 1]), bytes[|bytes| - 1])
  }

  lemma RegisterMore(start: bv32, bytes: seq<bv8>, b: bv8)
    ensures Register(start, bytes + [b]) == ByteStep(Register(start, bytes), b)
  {
    assert (bytes + [b])[..|bytes|] == bytes;
  }

  /** Is there room for another coefficient? */
  predicate Clear(p: bv32) { p & 1 == 0 }

  lemma FeedOne(x: bv32, p: bv32, bit: bv32)
    requires Clear(p)
    ensures Feed(Xor(x, p), bit) == Xor(Step(x), Append(p, bit))
  {
    ClearStep(p);
    hide Step, Half, Top, Xor, Clear;
    StepLinear(x, p);
    XorThree(Step(x), Half(p), Top(bit));
  }

  lemma FeedSome(r: bv32, k: nat, p: bv32, bit: bv32)
    requires Clear(p)
    ensures Feed(Xor(Steps(r, k), p), bit) == Xor(Steps(r, k + 1), Append(p, bit))
  {
    hide Xor, Append, Step, Feed, Clear;
    FeedOne(Steps(r, k), p, bit);
  }

  lemma RemainderMore(bits: seq<bv32>, bit: bv32)
    ensures Remainder(bits + [bit]) == Feed(Remainder(bits), bit)
  {
    hide Feed;
    assert (bits + [bit])[..|bits|] == bits;
  }

  function Append4(p: bv32, a: bv32, b: bv32, c: bv32, d: bv32): bv32 {
    Append(Append(Append(Append(p, a), b), c), d)
  }

  lemma Appended(p: bv32, a: bv32, b: bv32, c: bv32, d: bv32)
    ensures Append4(p, a, b, c, d) == Append(Append(Append(Append(p, a), b), c), d)
  {
  }

  lemma FeedFour(bits: seq<bv32>, r: bv32, k: nat, p: bv32, a: bv32, b: bv32, c: bv32, d: bv32)
    requires Clear(p) && Clear(Append(p, a)) && Clear(Append(Append(p, a), b))
    requires Clear(Append(Append(Append(p, a), b), c)) && Remainder(bits) == Xor(Steps(r, k), p)
    ensures Remainder(bits + [a, b, c, d]) == Xor(Steps(r, k + 4), Append4(p, a, b, c, d))
  {
    hide Feed, Remainder, Steps, Append, Append4, Xor, Clear;
    assert Append4(p, a, b, c, d) == Append(Append(Append(Append(p, a), b), c), d) by { Appended(p, a, b, c, d); }
    var p1 := Append(p, a);
    var p2 := Append(p1, b);
    var p3 := Append(p2, c);
    RemainderMore(bits, a);
    FeedSome(r, k, p, a);
    RemainderMore(bits + [a], b);
    FeedSome(r, k + 1, p1, b);
    RemainderMore(bits + [a] + [b], c);
    FeedSome(r, k + 2, p2, c);
    RemainderMore(bits + [a] + [b] + [c], d);
    FeedSome(r, k + 3, p3, d);
    assert bits + [a, b, c, d] == bits + [a] + [b] + [c] + [d];
    assert k + 1 + 1 + 1 + 1 == k + 4;
  }

  /** The bits of a byte, as they come in. */
  lemma ByteJoined(b: bv8)
    ensures var s := ByteBits(b);
            var p := Append4(0, s[0], s[1], s[2], s[3]);
            && Clear(0) && Clear(Append(0, s[0])) && Clear(Append(Append(0, s[0]), s[1]))
            && Clear(Append(Append(Append(0, s[0]), s[1]), s[2]))
            && Clear(p) && Clear(Append(p, s[4])) && Clear(Append(Append(p, s[4]), s[5]))
            && Clear(Append(Append(Append(p, s[4]), s[5]), s[6]))
            && Append4(p, s[4], s[5], s[6], s[7]) == High(b)
  {
  }

  lemma RemainderByte(bits: seq<bv32>, b: bv8)
    ensures Remainder(bits + ByteBits(b)) == Xor(Steps(Remainder(bits), 8), High(b))
  {
    hide Remainder, Append4, Append, Clear, High, Step, Xor, ByteBits;
    var r, s := Remainder(bits), ByteBits(b);
    assert Steps(r, 0) == r;
    hide Steps;
    XorSelf(r);
    ByteJoined(b);
    FeedFour(bits, r, 0, 0, s[0], s[1], s[2], s[3]);
    var four, p := bits + [s[0], s[1], s[2], s[3]], Append4(0, s[0], s[1], s[2], s[3]);
    FeedFour(four, r, 4, p, s[4], s[5], s[6], s[7]);
    assert bits + s == four + [s[4], s[5], s[6], s[7]];
  }

  lemma {:induction false} RemainderZeros(bits: seq<bv32>, n: nat)
    ensures Remainder(bits + Zeros(n)) == Steps(Remainder(bits), n)
  {
    hide Step, Remainder;
    if n == 0 {
      assert bits + Zeros(0) == bits;
    } else {
      RemainderZeros(bits, n - 1);
      assert bits + Zeros(n) == bits + Zeros(n - 1) + [0];
      RemainderMore(bits + Zeros(n - 1), 0);
      FeedZero(Steps(Remainder(bits), n - 1));
      hide Feed;
    }
  }

  lemma FeedZero(r: bv32)
    ensures Feed(r, 0) == Step(r)
  {
  }

  /** Without low bits, steps are shifts. */
  lemma FourDown(x: bv32)
    requires x & 0xf == 0
    ensures Steps(x, 4) == x >> 4
  {
    Shifts(x);
    hide Clear, Half, Step;
    ClearStep(x);
    ClearStep(Half(x));
    ClearStep(Half(Half(x)));
    ClearStep(Half(Half(Half(x))));
    assert Steps(x, 1) == Step(Steps(x, 0));
    assert Steps(x, 2) == Step(Steps(x, 1));
    assert Steps(x, 3) == Step(Steps(x, 2));
    assert Steps(x, 4) == Step(Steps(x, 3));
  }

  lemma Shifts(x: bv32)
    requires x & 0xf == 0
    ensures Clear(x) && Clear(Half(x)) && Clear(Half(Half(x))) && Clear(Half(Half(Half(x))))
    ensures Half(Half(Half(Half(x)))) == x >> 4
  {
  }

  lemma ClearStep(x: bv32)
    requires Clear(x)
    ensures Step(x) == Half(x)
  {
  }

  lemma EightDown(x: bv32)
    requires x & 0xff == 0
    ensures Steps(x, 8) == x >> 8
  {
    TwoFours(x);
    FourDown(x);
    FourDown(x >> 4);
    hide Steps;
    StepsAdd(x, 4, 4);
  }

  lemma TwoFours(x: bv32)
    requires x & 0xff == 0
    ensures x & 0xf == 0 && (x >> 4) & 0xf == 0 && (x >> 4) >> 4 == x >> 8
  {
  }

  /** A byte at one of the four places of a word. */
  function At(b: bv8, place: nat): bv32
    requires place < 4
  {
    match place
    case 0 => b as bv32
    case 1 => (b as bv32) << 8
    case 2 => (b as bv32) << 16
    case 3 => (b as bv32) << 24
  }

  lemma PlaceDown(b: bv8, place: nat)
    requires 0 < place < 4
    ensures Steps(At(b, place), 8) == At(b, place - 1)
  {
    Places(b);
    hide Steps;
    match place
    case 1 => EightDown((b as bv32) << 8);
    case 2 => EightDown((b as bv32) << 16);
    case 3 => EightDown((b as bv32) << 24);
  }

  lemma Places(b: bv8)
    ensures var w := b as bv32;
            && (w << 8) & 0xff == 0 && (w << 16) & 0xff == 0 && (w << 24) & 0xff == 0
            && (w << 8) >> 8 == w && (w << 16) >> 8 == w << 8 && (w << 24) >> 8 == w << 16
  {
  }

  lemma HighDown(b: bv8)
    ensures Steps(High(b), 24) == Low(b)
  {
    assert High(b) == At(b, 3) && Low(b) == At(b, 0);
    hide Steps, High, Low, At;
    PlaceDown(b, 3);
    PlaceDown(b, 2);
    PlaceDown(b, 1);
    StepsAdd(High(b), 8, 8);
    StepsAdd(High(b), 16, 8);
  }

  /** Entering at the bottom saves the thirty-two steps at the end. */
  lemma TopOrBottom(r: bv32, b: bv8)
    ensures ByteStep(Steps(r, 32), b) == Steps(Xor(Steps(r, 8), High(b)), 32)
  {
    hide Steps, Xor, High, Low;
    StepsLinear(Steps(r, 32), Low(b), 8);
    StepsLinear(Steps(r, 8), High(b), 32);
    StepsAdd(r, 32, 8);
    StepsAdd(r, 8, 32);
    HighDown(b);
    StepsAdd(High(b), 24, 8);
  }

  lemma {:induction false} RegisterDivides(bytes: seq<bv8>)
    ensures Register(0, bytes) == Steps(Remainder(Bits(bytes)), 32)
  {
    if bytes == [] {
      hide Feed, Step;
      assert Bits([]) == [] && Remainder([]) == 0;
      ZeroSteps(32);
    } else {
      hide Steps, Remainder, ByteBits, ByteStep, Xor, High;
      var init, b := bytes[..|bytes| - 1], bytes[|bytes| - 1];
      RegisterDivides(init);
      RemainderByte(Bits(init), b);
      TopOrBottom(Remainder(Bits(init)), b);
    }
  }

  lemma {:induction false} ZeroSteps(n: nat)
    ensures Steps(0, n) == 0
  {
    if n > 0 {
      ZeroSteps(n - 1);
      assert Step(0) == 0;
    }
  }

  /** A word of four bytes, the first of them lowest. */
  function Word4(a: bv8, b: bv8, c: bv8, d: bv8): bv32 {
    Xor(At(a, 0), Xor(At(b, 1), Xor(At(c, 2), At(d, 3))))
  }

  /** Four bytes at once. */
  lemma FourBytes(r: bv32, a: bv8, b: bv8, c: bv8, d: bv8)
    ensures ByteStep(ByteStep(ByteStep(ByteStep(r, a), b), c), d) == Steps(Xor(r, Word4(a, b, c, d)), 32)
  {
    hide Steps, Xor, At, ByteStep;
    var r1 := ByteStep(r, a);
    var r2 := ByteStep(r1, b);
    var r3 := ByteStep(r2, c);
    Peel(r, a, Xor(At(b, 1), Xor(At(c, 2), At(d, 3))), Xor(At(b, 0), Xor(At(c, 1), At(d, 2)))) by {
      StepsLinear(At(b, 1), Xor(At(c, 2), At(d, 3)), 8);
      StepsLinear(At(c, 2), At(d, 3), 8);
      PlaceDown(b, 1);
      PlaceDown(c, 2);
      PlaceDown(d, 3);
    }
    Peel(r1, b, Xor(At(c, 1), At(d, 2)), Xor(At(c, 0), At(d, 1))) by {
      StepsLinear(At(c, 1), At(d, 2), 8);
      PlaceDown(c, 1);
      PlaceDown(d, 2);
    }
    Peel(r2, c, At(d, 1), At(d, 0)) by { PlaceDown(d, 1); }
    StepsAdd(Xor(r, Word4(a, b, c, d)), 8, 24);
    StepsAdd(Xor(r1, Xor(At(b, 0), Xor(At(c, 1), At(d, 2)))), 8, 16);
    StepsAdd(Xor(r2, Xor(At(c, 0), At(d, 1))), 8, 8);
    LastByte(r3, d);
  }

  /** The first byte of several; the others are a place lower afterwards. */
  lemma Peel(r: bv32, a: bv8, more: bv32, lower: bv32)
    requires Steps(more, 8) == lower
    ensures Steps(Xor(r, Xor(At(a, 0), more)), 8) == Xor(ByteStep(r, a), lower)
  {
    assert Low(a) == At(a, 0);
    hide Steps, Xor, At, Low;
    XorThree(r, At(a, 0), more);
    StepsLinear(Xor(r, At(a, 0)), more, 8);
  }

  lemma LastByte(r: bv32, d: bv8)
    ensures ByteStep(r, d) == Steps(Xor(r, At(d, 0)), 8)
  {
    assert Low(d) == At(d, 0);
    hide Steps, Xor, At, Low;
  }

  // ---------- The frame check sequence ----------

  const ONES: bv32 := 0xffff_ffff

  /** The check sequence as a word in host order, its first byte highest. */
  function Fcs(bytes: seq<bv8>): bv32 { Swapped(Xor(Register(ONES, bytes), ONES)) }

  /** A word with its bytes the other way around. */
  function Swapped(crc: bv32): bv32 {
    (crc << 24) | (((crc >> 8) & 0xff) << 16) | (((crc >> 16) & 0xff) << 8) | (crc >> 24)
  }

  function WordByte(w: bv32, i: nat): bv8
    requires i < 4
  {
    match i
    case 0 => (w >> 24) as bv8
    case 1 => ((w >> 16) & 0xff) as bv8
    case 2 => ((w >> 8) & 0xff) as bv8
    case 3 => (w & 0xff) as bv8
  }

  function WordBytes(w: bv32): seq<bv8> { [WordByte(w, 0), WordByte(w, 1), WordByte(w, 2), WordByte(w, 3)] }

  lemma {:induction false} RegisterAppend(start: bv32, x: seq<bv8>, y: seq<bv8>)
    ensures Register(start, x + y) == Register(Register(start, x), y)
  {
    hide ByteStep;
    if y == [] {
      assert x + y == x;
    } else {
      var init, b := y[..|y| - 1], y[|y| - 1];
      RegisterAppend(start, x, init);
      assert x + y == x + init + [b] && y == init + [b];
      RegisterMore(start, x + init, b);
      RegisterMore(Register(start, x), init, b);
      hide Register;
    }
  }

  lemma RegisterTwo(start: bv32, a: bv8, b: bv8)
    ensures Register(start, [a, b]) == ByteStep(ByteStep(start, a), b)
  {
    assert [a, b][..1] == [a] && [a][..0] == [];
    assert Register(start, []) == start;
    hide ByteStep;
  }

  lemma RegisterFour(start: bv32, a: bv8, b: bv8, c: bv8, d: bv8)
    ensures Register(start, [a, b, c, d]) == Steps(Xor(start, Word4(a, b, c, d)), 32)
  {
    hide Register, ByteStep, Steps, Xor, Word4;
    FourBytes(start, a, b, c, d);
    RegisterTwo(start, a, b);
    RegisterTwo(Register(start, [a, b]), c, d);
    RegisterAppend(start, [a, b], [c, d]);
    assert [a, b] + [c, d] == [a, b, c, d];
  }

  function Complement(b: bv8): bv8 { b ^ 0xff }

  /** A frame with its first four bytes complemented. */
  function Complemented(bytes: seq<bv8>): seq<bv8>
    requires |bytes| >= 4
  {
    [Complement(bytes[0]), Complement(bytes[1]), Complement(bytes[2]), Complement(bytes[3])] + bytes[4..]
  }

  lemma ComplementWord(a: bv8, b: bv8, c: bv8, d: bv8)
    ensures Xor(0, Word4(Complement(a), Complement(b), Complement(c), Complement(d))) == Xor(ONES, Word4(a, b, c, d))
  {
    ComplementAt(a, 0);
    ComplementAt(b, 1);
    ComplementAt(c, 2);
    ComplementAt(d, 3);
    assert Word4(0xff, 0xff, 0xff, 0xff) == ONES;
    hide Xor, At, Complement;
    XorFour(At(c, 2), At(0xff, 2), At(d, 3), At(0xff, 3));
    XorFour(At(b, 1), At(0xff, 1), Xor(At(c, 2), At(d, 3)), Xor(At(0xff, 2), At(0xff, 3)));
    var w, m := Xor(At(b, 1), Xor(At(c, 2), At(d, 3))), Xor(At(0xff, 1), Xor(At(0xff, 2), At(0xff, 3)));
    XorFour(At(a, 0), At(0xff, 0), w, m);
    XorSelf(Xor(Word4(a, b, c, d), ONES));
    XorTwo(Word4(a, b, c, d), ONES);
  }

  lemma ComplementAt(b: bv8, place: nat)
    requires place < 4
    ensures At(Complement(b), place) == Xor(At(b, place), At(0xff, place))
  {
  }

  /** Clause 3.2.9: the first four bytes complemented, multiplied by x^32, divided
      by the generator, and the remainder complemented. */
  lemma FcsIsRemainder(bytes: seq<bv8>)
    requires |bytes| >= 4
    ensures Swapped(Fcs(bytes)) == Xor(Remainder(Bits(Complemented(bytes)) + Zeros(32)), ONES)
  {
    hide Register, Remainder, Bits, Steps, Xor, Word4, Complement, Zeros;
    var a, b, c, d, tail := bytes[0], bytes[1], bytes[2], bytes[3], bytes[4..];
    var e, f, g, h := Complement(a), Complement(b), Complement(c), Complement(d);
    assert bytes == [a, b, c, d] + tail && Complemented(bytes) == [e, f, g, h] + tail;
    RegisterAppend(ONES, [a, b, c, d], tail);
    RegisterAppend(0, [e, f, g, h], tail);
    RegisterFour(ONES, a, b, c, d);
    RegisterFour(0, e, f, g, h);
    ComplementWord(a, b, c, d);
    RegisterDivides(Complemented(bytes));
    RemainderZeros(Bits(Complemented(bytes)), 32);
    SwappedTwice(Xor(Register(ONES, bytes), ONES));
    hide Swapped, Complemented;
  }

  lemma SwappedTwice(x: bv32)
    ensures Swapped(Swapped(x)) == x
  {
  }

  lemma FcsWord(r: bv32)
    ensures var s := WordBytes(Swapped(Xor(r, ONES))); Xor(r, Word4(s[0], s[1], s[2], s[3])) == ONES
  {
  }

  lemma OnesDown()
    ensures Steps(ONES, 32) == 0xdebb_20e3
  {
    hide Steps;
    Steps8(ONES, 0x2dfd_1072);
    Steps8(0x2dfd_1072, 0xbe26_ed00);
    Steps8(0xbe26_ed00, 0x00be_26ed);
    Steps8(0x00be_26ed, 0xdebb_20e3);
    StepsAdd(ONES, 8, 8);
    StepsAdd(ONES, 16, 8);
    StepsAdd(ONES, 24, 8);
  }

  function Step4(x: bv32): bv32 { Step(Step(Step(Step(x)))) }

  lemma Steps8(x: bv32, y: bv32)
    requires Step4(Step4(x)) == y
    ensures Steps(x, 8) == y
  {
    hide Step;
    assert Steps(x, 4) == Step4(x) by { StepsFour(x); }
    StepsFour(Step4(x));
    StepsAdd(x, 4, 4);
    hide Step4, Steps;
  }

  lemma StepsFour(x: bv32)
    ensures Steps(x, 4) == Step4(x)
  {
    hide Step;
    assert Steps(x, 1) == Step(Steps(x, 0));
    assert Steps(x, 2) == Step(Steps(x, 1));
    assert Steps(x, 3) == Step(Steps(x, 2));
    assert Steps(x, 4) == Step(Steps(x, 3));
  }

  /** A frame followed by its check sequence always gives the same value. */
  lemma Residue(bytes: seq<bv8>)
    ensures Fcs(bytes + WordBytes(Fcs(bytes))) == 0x1cdf_4421
  {
    var r := Register(ONES, bytes);
    var s := WordBytes(Fcs(bytes));
    FcsWord(r);
    OnesDown();
    assert Swapped(Xor(0xdebb_20e3, ONES)) == 0x1cdf_4421;
    hide Register, Xor, Word4, Swapped, Steps;
    assert s == [s[0], s[1], s[2], s[3]];
    hide WordBytes;
    RegisterAppend(ONES, bytes, s);
    RegisterFour(r, s[0], s[1], s[2], s[3]);
  }

  /** Two frames that differ only within four neighbouring bytes have different
      check sequences. */
  lemma BurstIsSeen(head: seq<bv8>, v: seq<bv8>, w: seq<bv8>, tail: seq<bv8>)
    requires |v| == |w| <= 4 && Fcs(head + v + tail) == Fcs(head + w + tail)
    ensures v == w
  {
    hide Register, Swapped, Xor, ByteStep;
    var r := Register(ONES, head);
    SameFcs(Register(ONES, head + v + tail), Register(ONES, head + w + tail));
    TailInjective(head + v, head + w, tail);
    RegisterAppend(ONES, head, v);
    RegisterAppend(ONES, head, w);
    ShortInjective(r, v, w);
  }

  lemma SameFcs(x: bv32, y: bv32)
    requires Swapped(Xor(x, ONES)) == Swapped(Xor(y, ONES))
    ensures x == y
  {
    SwappedTwice(Xor(x, ONES));
    SwappedTwice(Xor(y, ONES));
    hide Swapped;
    XorInjective(x, y);
  }

  lemma XorInjective(x: bv32, y: bv32)
    requires Xor(x, ONES) == Xor(y, ONES)
    ensures x == y
  {
  }

  lemma ByteStepInjective(r: bv32, q: bv32, b: bv8)
    requires ByteStep(r, b) == ByteStep(q, b)
    ensures r == q
  {
    StepsInjective(Xor(r, Low(b)), Xor(q, Low(b)), 8);
    hide Steps;
  }

  lemma {:induction false} TailInjective(x: seq<bv8>, y: seq<bv8>, tail: seq<bv8>)
    requires Register(ONES, x + tail) == Register(ONES, y + tail)
    ensures Register(ONES, x) == Register(ONES, y)
  {
    hide Register, ByteStep;
    if tail == [] {
      assert x + tail == x && y + tail == y;
    } else {
      var init, b := tail[..|tail| - 1], tail[|tail| - 1];
      assert x + tail == x + init + [b] && y + tail == y + init + [b];
      RegisterMore(ONES, x + init, b);
      RegisterMore(ONES, y + init, b);
      ByteStepInjective(Register(ONES, x + init), Register(ONES, y + init), b);
      TailInjective(x, y, init);
    }
  }

  /** Up to four bytes leave their mark on the register. */
  lemma {:induction false} ShortInjective(r: bv32, v: seq<bv8>, w: seq<bv8>)
    requires |v| == |w| <= 4 && Register(r, v) == Register(r, w)
    ensures v == w
    decreases 4 - |v|
  {
    hide Register, Steps, ByteStep, Xor, Word4;
    if |v| == 4 {
      assert v == [v[0], v[1], v[2], v[3]] && w == [w[0], w[1], w[2], w[3]];
      RegisterFour(r, v[0], v[1], v[2], v[3]);
      RegisterFour(r, w[0], w[1], w[2], w[3]);
      var x, y := Word4(v[0], v[1], v[2], v[3]), Word4(w[0], w[1], w[2], w[3]);
      StepsInjective(Xor(r, x), Xor(r, y), 32);
      XorCancels(r, x, y);
      SameWord(v[0], v[1], v[2], v[3], w[0], w[1], w[2], w[3]);
    } else {
      RegisterMore(r, v, 0);
      RegisterMore(r, w, 0);
      ShortInjective(r, v + [0], w + [0]);
      assert v == (v + [0])[..|v|] && w == (w + [0])[..|w|];
    }
  }

  lemma XorCancels(r: bv32, x: bv32, y: bv32)
    requires Xor(r, x) == Xor(r, y)
    ensures x == y
  {
  }

  lemma SameWord(a: bv8, b: bv8, c: bv8, d: bv8, e: bv8, f: bv8, g: bv8, h: bv8)
    requires Word4(a, b, c, d) == Word4(e, f, g, h)
    ensures a == e && b == f && c == g && d == h
  {
    WordParts(a, b, c, d);
    WordParts(e, f, g, h);
    hide Word4;
  }

  lemma WordParts(a: bv8, b: bv8, c: bv8, d: bv8)
    ensures var w := Word4(a, b, c, d);
            (w & 0xff) as bv8 == a && ((w >> 8) & 0xff) as bv8 == b && ((w >> 16) & 0xff) as bv8 == c
            && (w >> 24) as bv8 == d
  {
  }

  // ---------- calccrc() ----------

  /** The first n bytes of a packet of words. */
  function Message(buf: seq<bv32>, n: nat): seq<bv8>
    requires n <= 4 * |buf|
  {
    seq(n, k requires 0 <= k < n => WordByte(buf[k / 4], k % 4))
  }

  function ByteHalf(b: bv8): bv8 { b >> 1 }

  function Halves(b: bv8, n: nat): bv8 {
    if n == 0 then b else ByteHalf(Halves(b, n - 1))
  }

  lemma AllHalved(b: bv8)
    ensures Low(Halves(b, 8)) == 0
  {
    hide ByteHalf;
    assert Halves(b, 1) == ByteHalf(Halves(b, 0));
    assert Halves(b, 2) == ByteHalf(Halves(b, 1));
    assert Halves(b, 3) == ByteHalf(Halves(b, 2));
    assert Halves(b, 4) == ByteHalf(Halves(b, 3));
    assert Halves(b, 5) == ByteHalf(Halves(b, 4));
    assert Halves(b, 6) == ByteHalf(Halves(b, 5));
    assert Halves(b, 7) == ByteHalf(Halves(b, 6));
    assert Halves(b, 8) == ByteHalf(Halves(b, 7));
    hide Halves;
    EightHalves(b);
  }

  lemma EightHalves(b: bv8)
    ensures Low(ByteHalf(ByteHalf(ByteHalf(ByteHalf(ByteHalf(ByteHalf(ByteHalf(ByteHalf(b))))))))) == 0
  {
  }

  /** Shifting the register and the byte side by side shifts their XOR. */
  lemma SideBySide(crc: bv32, b: bv8)
    ensures Xor(Half(crc), Low(ByteHalf(b))) == Half(Xor(crc, Low(b)))
  {
  }

  lemma OneBit(crc: bv32, b: bv8)
    ensures var x := Xor(crc, Low(b));
            Step(x) == Xor(if Bit0(x) == 1 then Xor(Half(crc), 0xedb8_8320) else Half(crc), Low(ByteHalf(b)))
  {
    var x := Xor(crc, Low(b));
    SideBySide(crc, b);
    BitLinear(x, x);
    assert Tap(1) == 0xedb8_8320 && Tap(0) == 0;
    hide Half, Xor, Bit0, Tap, Low, ByteHalf;
    XorSelf(Half(x));
    XorSelf(Half(crc));
    XorThree(Half(crc), 0xedb8_8320, Low(ByteHalf(b)));
    XorTwo(0xedb8_8320, Low(ByteHalf(b)));
    XorThree(Half(crc), Low(ByteHalf(b)), 0xedb8_8320);
  }

  /** The eight bits of one byte. */
  method TakeByte(crc0: bv32, b0: bv8) returns (crc: bv32)
    ensures crc == ByteStep(crc0, b0)
  {
    hide Step, Xor, Half, Low, Bit0, ByteHalf;
    crc := crc0;
    var b := b0;
    ghost var start := Xor(crc0, Low(b0));
    var bit := 0;
    while bit < 8
      invariant 0 <= bit <= 8 && b == Halves(b0, bit) && Xor(crc, Low(b)) == Steps(start, bit)
    {
      OneBit(crc, b);
      if Bit0(Xor(crc, Low(b))) == 1 {
        crc := Half(crc);
        crc := Xor(crc, 0xedb8_8320);
      } else {
        crc := Half(crc);
      }
      b := ByteHalf(b);
      bit := bit + 1;
    }
    AllHalved(b0);
    XorSelf(crc);
  }

  /** calccrc(): the check sequence of the first bytelen bytes. */
  method Calccrc(bytelen: nat, buf: array<bv32>) returns (crc: bv32)
    requires bytelen <= 4 * buf.Length
    ensures crc == Fcs(Message(buf[..], bytelen))
  {
    hide Register, ByteStep, Swapped, Xor, WordByte;
    crc := ONES;
    StartsWithOnes();
    assert Message(buf[..], 0) == [];
    var bidx := 0;
    while bidx < bytelen
      invariant 0 <= bidx <= bytelen && crc == Register(ONES, Message(buf[..], bidx))
    {
      var b := WordByte(buf[bidx / 4], bidx % 4);
      RegisterMore(ONES, Message(buf[..], bidx), b);
      assert Message(buf[..], bidx + 1) == Message(buf[..], bidx) + [b];
      crc := TakeByte(crc, b);
      bidx := bidx + 1;
    }
    crc := Xor(crc, ONES);
    crc := Swapped(crc);
  }

  lemma StartsWithOnes()
    ensures Register(ONES, []) == ONES
  {
  }

  /** The sequence stored behind a message of whole words. */
  lemma Checked(buf: seq<bv32>)
    ensures var w := Fcs(Message(buf, 4 * |buf|));
            Fcs(Message(buf + [w], 4 * |buf| + 4)) == 0x1cdf_4421
  {
    hide Fcs, WordByte;
    var n := 4 * |buf|;
    var w := Fcs(Message(buf, n));
    assert Message(buf + [w], n + 4) == Message(buf, n) + WordBytes(w);
    Residue(Message(buf, n));
  }

  /** One byte, step by step. */
  lemma ByteIs(r: bv32, b: bv8)
    ensures ByteStep(r, b) == Step(Step(Step(Step(Step(Step(Step(Step(Xor(r, Low(b))))))))))
  {
    hide Step;
    var x := Xor(r, Low(b));
    assert Steps(x, 1) == Step(Steps(x, 0));
    assert Steps(x, 2) == Step(Steps(x, 1));
    assert Steps(x, 3) == Step(Steps(x, 2));
    assert Steps(x, 4) == Step(Steps(x, 3));
    assert Steps(x, 5) == Step(Steps(x, 4));
    assert Steps(x, 6) == Step(Steps(x, 5));
    assert Steps(x, 7) == Step(Steps(x, 6));
  }

  /** The digits 1, 2 and 3. */
  lemma ThreeDigits()
    ensures Fcs([0x31, 0x32, 0x33]) == 0xd2634888
  {
    hide Steps;
    assert Register(ONES, []) == ONES;
    hide Register;
    ByteIs(0xffffffff, 0x31);
    assert ByteStep(0xffffffff, 0x31) == 0x7c231048;
    RegisterMore(ONES, [], 0x31);
    assert [] + [0x31] == [0x31];
    assert Register(ONES, [0x31]) == 0x7c231048;
    ByteIs(0x7c231048, 0x32);
    assert ByteStep(0x7c231048, 0x32) == 0xb0acbb32;
    RegisterMore(ONES, [0x31], 0x32);
    assert [0x31] + [0x32] == [0x31, 0x32];
    assert Register(ONES, [0x31, 0x32]) == 0xb0acbb32;
    ByteIs(0xb0acbb32, 0x33);
    assert ByteStep(0xb0acbb32, 0x33) == 0x77b79c2d;
    RegisterMore(ONES, [0x31, 0x32], 0x33);
    assert [0x31, 0x32] + [0x33] == [0x31, 0x32, 0x33];
    assert Register(ONES, [0x31, 0x32, 0x33]) == 0x77b79c2d;
  }
}
