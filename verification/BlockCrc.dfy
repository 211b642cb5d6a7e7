/** The CRC of an SD card's data blocks, as sim/verilated/sdspisim.cpp computes
    it: CRC-16 of section 4.5 of the SD Physical Layer Simplified Specification. */
module BlockCrc {

  // ---------- Long division ----------

  /** Multiply by x, modulo x^16 + x^12 + x^5 + 1. */
  function Step(r: bv16): bv16 { (r << 1) ^ ((r >> 15) * 0x1021) }

  function Steps(r: bv16, n: nat): bv16 {
    if n == 0 then r else Step(Steps(r, n - 1))
  }

  function Xor(x: bv16, y: bv16): bv16 { x ^ y }

  /** Another bit at the end. */
  function Append(p: bv16, bit: bv16): bv16 { (p << 1) ^ bit }

  /** The next coefficient of the dividend, 0 or 1. */
  function Feed(r: bv16, bit: bv16): bv16 { Step(r) ^ bit }

  /** The remainder of the polynomial with these coefficients, highest first. */
  function Remainder(bits: seq<bv16>): bv16 {
    if bits == [] then 0 else Feed(Remainder(bits[..|bits| - 1]), bits[|bits| - 1])
  }

  function ByteBits(b: bv8): seq<bv16> {
    var w := b as bv16;
    [(w >> 7) & 1, (w >> 6) & 1, (w >> 5) & 1, (w >> 4) & 1, (w >> 3) & 1, (w >> 2) & 1, (w >> 1) & 1, w & 1]
  }

  function Bits(block: seq<bv8>): seq<bv16> {
    if block == [] then [] else Bits(block[..|block| - 1]) + ByteBits(block[|block| - 1])
  }

  function Zeros(n: nat): seq<bv16> { seq(n, _ => 0) }

  lemma StepXor(x: bv16, y: bv16)
    ensures Step(x ^ y) == Step(x) ^ Step(y)
  {
  }

  lemma StepLinear(x: bv16, y: bv16)
    ensures Step(Xor(x, y)) == Xor(Step(x), Step(y))
  {
    hide Step;
    StepXor(x, y);
  }

  lemma {:induction false} StepsLinear(x: bv16, y: bv16, n: nat)
    ensures Steps(Xor(x, y), n) == Xor(Steps(x, n), Steps(y, n))
  {
    hide Step, Xor;
    if n > 0 {
      StepsLinear(x, y, n - 1);
      StepLinear(Steps(x, n - 1), Steps(y, n - 1));
    }
  }

  lemma {:induction false} StepsAdd(x: bv16, m: nat, n: nat)
    ensures Steps(Steps(x, m), n) == Steps(x, m + n)
  {
    hide Step;
    if n > 0 {
      StepsAdd(x, m, n - 1);
      assert m + n - 1 == m + (n - 1);
    }
  }

  lemma StepInjective(x: bv16, y: bv16)
    requires Step(x) == Step(y)
    ensures x == y
  {
  }

  lemma {:induction false} StepsInjective(x: bv16, y: bv16, n: nat)
    requires Steps(x, n) == Steps(y, n)
    ensures x == y
  {
    hide Step;
    if n > 0 {
      StepInjective(Steps(x, n - 1), Steps(y, n - 1));
      StepsInjective(x, y, n - 1);
    }
  }

  // ---------- The register ----------

  function Low(b: bv8): bv16 { b as bv16 }

  function High(b: bv8): bv16 { (b as bv16) << 8 }

  /** A byte enters at the top of the register. */
  function ByteStep(r: bv16, b: bv8): bv16 { Steps(Xor(r, High(b)), 8) }

  function Register(block: seq<bv8>): bv16 {
    if block == [] then 0 else ByteStep(Register(block[..|block| - 1]), block[|block| - 1])
  }

  lemma FeedSome(r: bv16, k: nat, p: bv16, bit: bv16)
    requires p < 0x8000
    ensures Feed(Xor(Steps(r, k), p), bit) == Xor(Steps(r, k + 1), Append(p, bit))
  {
    hide Xor, Append, Step, Feed;
    FeedOne(Steps(r, k), p, bit);
  }

  lemma FeedOne(x: bv16, p: bv16, bit: bv16)
    requires p < 0x8000
    ensures Feed(Xor(x, p), bit) == Xor(Step(x), Append(p, bit))
  {
  }

  lemma RemainderMore(bits: seq<bv16>, bit: bv16)
    ensures Remainder(bits + [bit]) == Feed(Remainder(bits), bit)
  {
    assert (bits + [bit])[..|bits|] == bits;
  }

  function Append4(p: bv16, a: bv16, b: bv16, c: bv16, d: bv16): bv16 {
    Append(Append(Append(Append(p, a), b), c), d)
  }

  /** Four more bits of the dividend. */
  lemma FeedFour(bits: seq<bv16>, r: bv16, k: nat, p: bv16, a: bv16, b: bv16, c: bv16, d: bv16)
    requires p < 0x8000 && Append(p, a) < 0x8000 && Append(Append(p, a), b) < 0x8000
    requires Append(Append(Append(p, a), b), c) < 0x8000 && Remainder(bits) == Xor(Steps(r, k), p)
    ensures Remainder(bits + [a, b, c, d]) == Xor(Steps(r, k + 4), Append4(p, a, b, c, d))
  {
    hide Feed, Remainder, Steps, Append, Xor;
    var p1 := Append(p, a);
    var p2 := Append(p1, b);
    var p3 := Append(p2, c);
    RemainderMore(bits, a);
    FeedSome(r, k, p, a);
    RemainderMore(bits + [a], b);
    FeedSome(r, k + 1, p1, b);
    RemainderMore(bits + [a] + [b], c);
    FeedSome(r, k + 2, p2, c);
    RemainderMore(bits + [a] + [b] + [c], d);
    FeedSome(r, k + 3, p3, d);
    assert bits + [a, b, c, d] == bits + [a] + [b] + [c] + [d];
    assert k + 1 + 1 + 1 + 1 == k + 4;
  }

  /** The bits of a byte, as they come in. */
  lemma ByteJoined(b: bv8)
    ensures var s := ByteBits(b);
            var p := Append4(0, s[0], s[1], s[2], s[3]);
            && Append(0, s[0]) < 0x8000 && Append(Append(0, s[0]), s[1]) < 0x8000
            && Append(Append(Append(0, s[0]), s[1]), s[2]) < 0x8000
            && p < 0x8000 && Append(p, s[4]) < 0x8000 && Append(Append(p, s[4]), s[5]) < 0x8000
            && Append(Append(Append(p, s[4]), s[5]), s[6]) < 0x8000
            && Append4(p, s[4], s[5], s[6], s[7]) == b as bv16
  {
  }

  lemma RemainderByte(bits: seq<bv16>, b: bv8)
    ensures Remainder(bits + ByteBits(b)) == Xor(Steps(Remainder(bits), 8), Low(b))
  {
    hide Remainder, Append4, Append;
    var r, s := Remainder(bits), ByteBits(b);
    assert Steps(r, 0) == r && Xor(r, 0) == r;
    hide Steps, Xor;
    ByteJoined(b);
    hide ByteBits;
    FeedFour(bits, r, 0, 0, s[0], s[1], s[2], s[3]);
    FeedFour(bits + [s[0], s[1], s[2], s[3]], r, 4, Append4(0, s[0], s[1], s[2], s[3]), s[4], s[5], s[6], s[7]);
    assert bits + s == bits + [s[0], s[1], s[2], s[3]] + [s[4], s[5], s[6], s[7]];
  }

  lemma {:induction false} RemainderZeros(bits: seq<bv16>, n: nat)
    ensures Remainder(bits + Zeros(n)) == Steps(Remainder(bits), n)
  {
    hide Step, Remainder;
    if n == 0 {
      assert bits + Zeros(0) == bits;
    } else {
      RemainderZeros(bits, n - 1);
      assert bits + Zeros(n) == bits + Zeros(n - 1) + [0];
      RemainderMore(bits + Zeros(n - 1), 0);
      FeedZero(Steps(Remainder(bits), n - 1));
      hide Feed;
    }
  }

  lemma FeedZero(r: bv16)
    ensures Feed(r, 0) == Step(r)
  {
    hide Step;
  }

  lemma FourUp(x: bv16)
    requires x < 0x1000
    ensures Steps(x, 4) == x << 4
  {
    SmallStep(x);
    SmallStep(x << 1);
    SmallStep(x << 2);
    SmallStep(x << 3);
    assert (x << 1) << 1 == x << 2 && (x << 2) << 1 == x << 3 && (x << 3) << 1 == x << 4;
    hide Step;
    assert Steps(x, 1) == Step(Steps(x, 0));
    assert Steps(x, 2) == Step(Steps(x, 1));
    assert Steps(x, 3) == Step(Steps(x, 2));
    assert Steps(x, 4) == Step(Steps(x, 3));
  }

  lemma SmallStep(x: bv16)
    ensures x < 0x8000 ==> Step(x) == x << 1
  {
  }

  /** A byte that enters from below is at the top eight steps later. */
  lemma ByteUp(b: bv8)
    ensures Steps(Low(b), 8) == High(b)
  {
    var x := b as bv16;
    FourUp(x);
    assert x << 4 < 0x1000 && (x << 4) << 4 == x << 8;
    FourUp(x << 4);
    StepsAdd(x, 4, 4);
    hide Steps;
  }

  /** Entering at the top saves the sixteen steps at the end. */
  lemma TopOrBottom(r: bv16, b: bv8)
    ensures ByteStep(Steps(r, 16), b) == Steps(Xor(Steps(r, 8), Low(b)), 16)
  {
    hide Steps, Xor, High, Low;
    StepsLinear(Steps(r, 16), High(b), 8);
    StepsLinear(Steps(r, 8), Low(b), 16);
    StepsAdd(r, 16, 8);
    StepsAdd(r, 8, 16);
    ByteUp(b);
    StepsAdd(Low(b), 8, 8);
  }

  lemma {:induction false} RegisterDivides(block: seq<bv8>)
    ensures Register(block) == Steps(Remainder(Bits(block)), 16)
  {
    if block == [] {
      assert Bits([]) == [];
      ZeroSteps(16);
    } else {
      hide Steps, Remainder, ByteBits, ByteStep, Xor, Low;
      var init, b := block[..|block| - 1], block[|block| - 1];
      RegisterDivides(init);
      RemainderByte(Bits(init), b);
      TopOrBottom(Remainder(Bits(init)), b);
    }
  }

  lemma {:induction false} ZeroSteps(n: nat)
    ensures Steps(0, n) == 0 == Remainder([])
  {
    if n > 0 {
      ZeroSteps(n - 1);
      assert Step(0) == 0;
    }
  }

  /** The register is the remainder of the block, followed by sixteen zeros, on
      division by the generator. */
  lemma RegisterIsRemainder(block: seq<bv8>)
    ensures Register(block) == Remainder(Bits(block) + Zeros(16))
  {
    hide Register, Remainder, Steps, Bits, Zeros;
    RegisterDivides(block);
    RemainderZeros(Bits(block), 16);
  }

  // ---------- What the CRC is for ----------

  /** The two bytes of the CRC, as add_block_crc() stores them. */
  function CrcBytes(r: bv16): seq<bv8> { [(r >> 8) as bv8, (r & 0xff) as bv8] }

  lemma RegisterMore(block: seq<bv8>, b: bv8)
    ensures Register(block + [b]) == ByteStep(Register(block), b)
  {
    assert (block + [b])[..|block|] == block;
  }

  /** A block of any length with its CRC has the CRC zero. */
  lemma CheckedIsZero(block: seq<bv8>)
    ensures Register(block + CrcBytes(Register(block))) == 0
  {
    var r := Register(block);
    CrcCancels(r);
    hide ByteStep, Register;
    var s := CrcBytes(r);
    var a, b := s[0], s[1];
    assert s == [a, b];
    hide CrcBytes;
    RegisterMore(block, a);
    RegisterMore(block + [a], b);
    assert block + [a, b] == block + [a] + [b];
  }

  lemma CrcCancels(r: bv16)
    ensures var s := CrcBytes(r); ByteStep(ByteStep(r, s[0]), s[1]) == 0
  {
    var s := CrcBytes(r);
    var low := (r & 0xff) as bv8;
    assert Xor(r, High(s[0])) == Low(low) && low == s[1];
    assert Xor(High(low), High(low)) == 0;
    ByteUp(low);
    ZeroSteps(8);
    hide Steps, Xor, High, Low;
  }

  lemma ByteStepInjective(r: bv16, q: bv16, b: bv8)
    requires ByteStep(r, b) == ByteStep(q, b)
    ensures r == q
  {
    StepsInjective(Xor(r, High(b)), Xor(q, High(b)), 8);
    hide Steps;
  }

  lemma {:induction false} TailInjective(x: seq<bv8>, y: seq<bv8>, tail: seq<bv8>)
    requires Register(x + tail) == Register(y + tail)
    ensures Register(x) == Register(y)
  {
    hide Register, ByteStep;
    if tail == [] {
      assert x + tail == x && y + tail == y;
    } else {
      var init, b := tail[..|tail| - 1], tail[|tail| - 1];
      assert x + tail == x + init + [b] && y + tail == y + init + [b];
      RegisterMore(x + init, b);
      RegisterMore(y + init, b);
      ByteStepInjective(Register(x + init), Register(y + init), b);
      TailInjective(x, y, init);
    }
  }

  lemma XorThree(x: bv16, y: bv16, z: bv16)
    ensures Xor(Xor(x, y), z) == Xor(x, Xor(y, z))
  {
  }

  /** Two bytes at once. */
  lemma TwoBytes(r: bv16, a: bv8, b: bv8)
    ensures ByteStep(ByteStep(r, a), b) == Steps(Xor(r, Xor(High(a), Low(b))), 16)
  {
    hide Steps, Xor, High, Low;
    var x := Xor(r, High(a));
    StepsLinear(x, Low(b), 8);
    ByteUp(b);
    XorThree(r, High(a), Low(b));
    StepsAdd(Xor(x, Low(b)), 8, 8);
  }

  lemma TwoBytesInjective(r: bv16, a: bv8, b: bv8, c: bv8, d: bv8)
    requires ByteStep(ByteStep(r, a), b) == ByteStep(ByteStep(r, c), d)
    ensures a == c && b == d
  {
    hide ByteStep, Steps;
    TwoBytes(r, a, b);
    TwoBytes(r, c, d);
    StepsInjective(Xor(r, Xor(High(a), Low(b))), Xor(r, Xor(High(c), Low(d))), 16);
    XorCancels(r, a, b, c, d);
  }

  lemma XorCancels(r: bv16, a: bv8, b: bv8, c: bv8, d: bv8)
    requires Xor(r, Xor(High(a), Low(b))) == Xor(r, Xor(High(c), Low(d)))
    ensures a == c && b == d
  {
  }

  lemma OneByteInjective(r: bv16, a: bv8, c: bv8)
    requires ByteStep(r, a) == ByteStep(r, c)
    ensures a == c
  {
    StepsInjective(Xor(r, High(a)), Xor(r, High(c)), 8);
    hide Steps;
  }

  lemma RegisterTwo(block: seq<bv8>, w: seq<bv8>)
    requires |w| == 2
    ensures Register(block + w) == ByteStep(ByteStep(Register(block), w[0]), w[1])
  {
    hide ByteStep, Register;
    assert block + w == block + [w[0]] + [w[1]];
    RegisterMore(block, w[0]);
    RegisterMore(block + [w[0]], w[1]);
  }

  /** Two blocks that differ only within two neighbouring bytes have different CRCs. */
  lemma BurstIsSeen(head: seq<bv8>, v: seq<bv8>, w: seq<bv8>, tail: seq<bv8>)
    requires |v| == |w| <= 2 && Register(head + v + tail) == Register(head + w + tail)
    ensures v == w
  {
    hide Register, ByteStep;
    TailInjective(head + v, head + w, tail);
    if |v| == 2 {
      RegisterTwo(head, v);
      RegisterTwo(head, w);
      TwoBytesInjective(Register(head), v[0], v[1], w[0], w[1]);
    } else if |v| == 1 {
      assert v == [v[0]] && w == [w[0]];
      RegisterMore(head, v[0]);
      RegisterMore(head, w[0]);
      OneByteInjective(Register(head), v[0], w[0]);
    }
  }

  // ---------- The simulator ----------

  /** The part of the simulator's 32-bit variable that counts. */
  function LowWord(fill: bv32): bv16 { (fill & 0xffff) as bv16 }

  function EnterByte(fill: bv32, b: bv8): bv32 { fill ^ ((b as bv32) << 8) }

  lemma ByteEnters(fill: bv32, b: bv8)
    ensures LowWord(EnterByte(fill, b)) == Xor(LowWord(fill), High(b))
  {
  }

  function Mask(fill: bv32): bv32 { fill & 0xffff }

  /** A byte of the CRC, as it is stored. */
  function UpperByte(fill: bv32): bv8 { ((fill >> 8) & 0xff) as bv8 }

  function LowerByte(fill: bv32): bv8 { (fill & 0xff) as bv8 }

  lemma BitShifts(fill: bv32)
    ensures fill & 0x8000 != 0 ==> LowWord((fill << 1) ^ 0x1021) == Step(LowWord(fill))
    ensures fill & 0x8000 == 0 ==> LowWord(fill << 1) == Step(LowWord(fill))
  {
  }

  /** The eight shifts for one byte; nothing is masked in between. */
  method ShiftByte(fill0: bv32) returns (fill: bv32)
    ensures LowWord(fill) == Steps(LowWord(fill0), 8)
  {
    hide LowWord, Step;
    fill := fill0;
    var j := 0;
    while j < 8
      invariant 0 <= j <= 8 && LowWord(fill) == Steps(LowWord(fill0), j)
    {
      BitShifts(fill);
      if fill & 0x8000 != 0 {
        fill := (fill << 1) ^ 0x1021;
      } else {
        fill := fill << 1;
      }
      j := j + 1;
    }
  }

  /** One byte of blockcrc(). */
  method TakeByte(fill0: bv32, b: bv8) returns (fill: bv32)
    ensures LowWord(fill) == ByteStep(LowWord(fill0), b)
  {
    hide Steps, Xor, High, LowWord, EnterByte;
    ByteEnters(fill0, b);
    fill := EnterByte(fill0, b);
    fill := ShiftByte(fill);
  }

  function Widened(r: bv16): bv32 { r as bv32 }

  /** blockcrc(), of len bytes from some place in a buffer. */
  method Blockcrc(len: nat, buf: array<bv8>, from: nat) returns (fill: bv32)
    requires from + len <= buf.Length
    ensures fill == Widened(Register(buf[from..from + len]))
  {
    hide Register, ByteStep, LowWord, Mask, Widened;
    fill := 0;
    StartsEmpty();
    assert buf[from..from] == [];
    var i := 0;
    while i < len
      invariant 0 <= i <= len && LowWord(fill) == Register(buf[from..from + i])
    {
      RegisterMore(buf[from..from + i], buf[from + i]);
      assert buf[from..from + i] + [buf[from + i]] == buf[from..from + (i + 1)];
      fill := TakeByte(fill, buf[from + i]);
      i := i + 1;
    }
    Masked(fill);
    fill := Mask(fill);
  }

  lemma StartsEmpty()
    ensures LowWord(0) == Register([])
  {
  }

  lemma Masked(fill: bv32)
    ensures Mask(fill) == Widened(LowWord(fill))
  {
  }

  /** add_block_crc(): the CRC behind the block, which starts at buf[1]. */
  method AddBlockCrc(len: nat, buf: array<bv8>)
    requires len + 3 <= buf.Length
    modifies buf
    ensures buf[..len + 1] == old(buf[..len + 1]) && buf[len + 3..] == old(buf[len + 3..])
    ensures Register(buf[1..len + 3]) == 0
    ensures buf[len + 1..len + 3] == CrcBytes(Register(buf[1..len + 1]))
  {
    hide Register, UpperByte, LowerByte, CrcBytes, Widened;
    var fill := Blockcrc(len, buf, 1);
    ghost var block := buf[1..len + 1];
    SplitCrc(Register(block));
    buf[len + 1] := UpperByte(fill);
    buf[len + 2] := LowerByte(fill);
    CheckedIsZero(block);
    assert buf[1..len + 1] == block && buf[1..len + 3] == block + [buf[len + 1], buf[len + 2]];
  }

  lemma SplitCrc(r: bv16)
    ensures CrcBytes(r) == [UpperByte(Widened(r)), LowerByte(Widened(r))]
  {
  }

  /** One byte, step by step. */
  lemma ByteIs(r: bv16, b: bv8)
    ensures ByteStep(r, b) == Step(Step(Step(Step(Step(Step(Step(Step(Xor(r, High(b))))))))))
  {
    hide Step;
    var x := Xor(r, High(b));
    assert Steps(x, 1) == Step(Steps(x, 0));
    assert Steps(x, 2) == Step(Steps(x, 1));
    assert Steps(x, 3) == Step(Steps(x, 2));
    assert Steps(x, 4) == Step(Steps(x, 3));
    assert Steps(x, 5) == Step(Steps(x, 4));
    assert Steps(x, 6) == Step(Steps(x, 5));
    assert Steps(x, 7) == Step(Steps(x, 6));
  }

  /** The digits 1, 2 and 3. */
  lemma ThreeDigits()
    ensures Register([0x31, 0x32, 0x33]) == 0x9752
  {
    hide Steps;
    assert Register([]) == 0;
    hide Register;
    ByteIs(0x0, 0x31);
    assert ByteStep(0x0, 0x31) == 0x2672;
    RegisterMore([], 0x31);
    assert [] + [0x31] == [0x31];
    assert Register([0x31]) == 0x2672;
    ByteIs(0x2672, 0x32);
    assert ByteStep(0x2672, 0x32) == 0x20b5;
    RegisterMore([0x31], 0x32);
    assert [0x31] + [0x32] == [0x31, 0x32];
    assert Register([0x31, 0x32]) == 0x20b5;
    ByteIs(0x20b5, 0x33);
    assert ByteStep(0x20b5, 0x33) == 0x9752;
    RegisterMore([0x31, 0x32], 0x33);
    assert [0x31, 0x32] + [0x33] == [0x31, 0x32, 0x33];
    assert Register([0x31, 0x32, 0x33]) == 0x9752;
  }
}
