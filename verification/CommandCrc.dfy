/** The CRC of an SD card's commands, as sim/verilated/sdspisim.cpp computes and
    checks it: CRC-7, one place to the left of where the standard has it. */
module CommandCrc {

  /** Multiply by x, modulo x^8 + x^4 + x. */
  function Step(r: bv8): bv8 { (r << 1) ^ ((r >> 7) * 0x12) }

  function Steps(r: bv8, n: nat): bv8 {
    if n == 0 then r else Step(Steps(r, n - 1))
  }

  function Xor(x: bv8, y: bv8): bv8 { x ^ y }

  predicate Even(r: bv8) { r & 1 == 0 }

  function ByteStep(r: bv8, b: bv8): bv8 { Steps(Xor(r, b), 8) }

  function Register(command: seq<bv8>): bv8 {
    if command == [] then 0 else ByteStep(Register(command[..|command| - 1]), command[|command| - 1])
  }

  /** The last byte of a command. */
  function Crc(command: seq<bv8>): bv8 { (Register(command) & 0xfe) | 1 }

  // ---------- Long division ----------

  /** The next coefficient of a dividend, 0 or 1: the remainder on division by a
      polynomial of degree seven with these coefficients. */
  function Feed(gen: bv8, r: bv8, bit: bv8): bv8 {
    if r & 0x40 == 0 then (r << 1) ^ bit else ((r << 1) ^ bit) ^ gen
  }

  function Remainder(gen: bv8, bits: seq<bv8>): bv8 {
    if bits == [] then 0 else Feed(gen, Remainder(gen, bits[..|bits| - 1]), bits[|bits| - 1])
  }

  /** A byte, highest bit first. */
  function ByteBits(b: bv8): seq<bv8> {
    [(b >> 7) & 1, (b >> 6) & 1, (b >> 5) & 1, (b >> 4) & 1, (b >> 3) & 1, (b >> 2) & 1, (b >> 1) & 1, b & 1]
  }

  function Bits(command: seq<bv8>): seq<bv8> {
    if command == [] then [] else Bits(command[..|command| - 1]) + ByteBits(command[|command| - 1])
  }

  lemma RemainderMore(gen: bv8, bits: seq<bv8>, bit: bv8)
    ensures Remainder(gen, bits + [bit]) == Feed(gen, Remainder(gen, bits), bit)
  {
    assert (bits + [bit])[..|bits|] == bits;
  }

  // ---------- The register as a remainder ----------

  /** A zero is fed to the remainder by x^7 + x^3 + 1, or n of them. */
  function FeedZero(r: bv8): bv8 { (r << 1) ^ (((r >> 6) & 1) * 0x89) }

  function FeedZeros(r: bv8, n: nat): bv8 {
    if n == 0 then r else FeedZero(FeedZeros(r, n - 1))
  }

  function Twice(r: bv8): bv8 { r << 1 }

  function Append(p: bv8, bit: bv8): bv8 { (p << 1) ^ bit }

  /** A byte by itself, reduced. */
  function Reduced(b: bv8): bv8 { b ^ ((b >> 7) * 0x89) }

  predicate Seven(r: bv8) { r < 0x80 }

  lemma FeedIsSeven(r: bv8)
    requires Seven(r)
    ensures Seven(FeedZero(r))
  {
  }

  /** Feeding a coefficient without a case distinction. */
  lemma FeedIs(r: bv8, bit: bv8)
    ensures Feed(0x89, r, bit) == Xor(FeedZero(r), bit)
  {
    if r & 0x40 == 0 {
      assert (r >> 6) & 1 == 0;
    } else {
      assert (r >> 6) & 1 == 1;
    }
  }

  lemma FeedLinear(x: bv8, y: bv8)
    ensures FeedZero(Xor(x, y)) == Xor(FeedZero(x), FeedZero(y))
  {
  }

  lemma {:induction false} FeedsLinear(x: bv8, y: bv8, n: nat)
    ensures FeedZeros(Xor(x, y), n) == Xor(FeedZeros(x, n), FeedZeros(y, n))
  {
    hide FeedZero, Xor;
    if n > 0 {
      FeedsLinear(x, y, n - 1);
      FeedLinear(FeedZeros(x, n - 1), FeedZeros(y, n - 1));
    }
  }

  lemma {:induction false} FeedsAdd(x: bv8, m: nat, n: nat)
    ensures FeedZeros(FeedZeros(x, m), n) == FeedZeros(x, m + n)
  {
    hide FeedZero;
    if n > 0 {
      FeedsAdd(x, m, n - 1);
      assert m + n - 1 == m + (n - 1);
    }
  }

  lemma {:induction false} FeedsAreSeven(x: bv8, n: nat)
    requires Seven(x)
    ensures Seven(FeedZeros(x, n))
  {
    hide Seven, FeedZero;
    if n > 0 {
      FeedsAreSeven(x, n - 1);
      FeedIsSeven(FeedZeros(x, n - 1));
    }
  }

  lemma StepTwice(r: bv8)
    requires Seven(r)
    ensures Step(Twice(r)) == Twice(FeedZero(r))
  {
  }

  /** The register, which is even, goes on as the remainder at half its value. */
  lemma {:induction false} StepsTwice(r: bv8, n: nat)
    requires Seven(r)
    ensures Steps(Twice(r), n) == Twice(FeedZeros(r, n))
  {
    hide Step, Seven, FeedZero, Twice;
    if n > 0 {
      StepsTwice(r, n - 1);
      FeedsAreSeven(r, n - 1);
      StepTwice(FeedZeros(r, n - 1));
    }
  }

  lemma StepXor(x: bv8, y: bv8)
    ensures Step(Xor(x, y)) == Xor(Step(x), Step(y))
  {
  }

  lemma {:induction false} StepsXor(x: bv8, y: bv8, n: nat)
    ensures Steps(Xor(x, y), n) == Xor(Steps(x, n), Steps(y, n))
  {
    hide Step, Xor;
    if n > 0 {
      StepsXor(x, y, n - 1);
      StepXor(Steps(x, n - 1), Steps(y, n - 1));
    }
  }

  lemma StepReduces(b: bv8)
    ensures Step(b) == Twice(Reduced(b)) && Seven(Reduced(b))
  {
  }

  lemma XorTwice(x: bv8, y: bv8)
    ensures Xor(Twice(x), Twice(y)) == Twice(Xor(x, y))
  {
  }

  lemma FeedSmall(p: bv8, bit: bv8)
    ensures p < 0x40 ==> Xor(FeedZero(p), bit) == Append(p, bit)
    ensures Seven(p) && bit < 2 ==> Xor(FeedZero(p), bit) == Reduced(Append(p, bit))
  {
  }

  lemma XorAssociates(x: bv8, y: bv8, z: bv8)
    ensures Xor(Xor(x, y), z) == Xor(x, Xor(y, z))
  {
  }

  /** A coefficient for a remainder in two parts. */
  lemma FeedParts(r: bv8, p: bv8, bit: bv8)
    ensures Feed(0x89, Xor(r, p), bit) == Xor(FeedZero(r), Xor(FeedZero(p), bit))
  {
    hide Feed, FeedZero, Xor;
    FeedIs(Xor(r, p), bit);
    FeedLinear(r, p);
    XorAssociates(FeedZero(r), FeedZero(p), bit);
  }

  /** The bits of a byte, as they come in. */
  lemma ByteJoined(b: bv8)
    ensures var s := ByteBits(b);
            var p1 := Append(0, s[0]);
            var p2 := Append(p1, s[1]);
            var p3 := Append(p2, s[2]);
            var p4 := Append(p3, s[3]);
            var p5 := Append(p4, s[4]);
            var p6 := Append(p5, s[5]);
            var p7 := Append(p6, s[6]);
            && p1 < 0x40 && p2 < 0x40 && p3 < 0x40 && p4 < 0x40 && p5 < 0x40 && p6 < 0x40 && Seven(p7)
            && Append(p7, s[7]) == b && s[7] < 2
  {
  }

  lemma FeedMore(bits: seq<bv8>, r: bv8, k: nat, p: bv8, bit: bv8)
    requires p < 0x40 && Remainder(0x89, bits) == Xor(FeedZeros(r, k), p)
    ensures Remainder(0x89, bits + [bit]) == Xor(FeedZeros(r, k + 1), Append(p, bit))
  {
    hide Feed, Remainder, Xor, Append, FeedZero;
    RemainderMore(0x89, bits, bit);
    FeedParts(FeedZeros(r, k), p, bit);
    FeedSmall(p, bit);
  }

  function Append3(p: bv8, a: bv8, b: bv8, c: bv8): bv8 { Append(Append(Append(p, a), b), c) }

  /** Three more bits of the dividend. */
  lemma FeedThree(bits: seq<bv8>, r: bv8, k: nat, p: bv8, a: bv8, b: bv8, c: bv8)
    requires p < 0x40 && Append(p, a) < 0x40 && Append(Append(p, a), b) < 0x40
    requires Remainder(0x89, bits) == Xor(FeedZeros(r, k), p)
    ensures Remainder(0x89, bits + [a, b, c]) == Xor(FeedZeros(r, k + 3), Append3(p, a, b, c))
  {
    hide Remainder, FeedZeros, Append, Xor;
    FeedMore(bits, r, k, p, a);
    FeedMore(bits + [a], r, k + 1, Append(p, a), b);
    FeedMore(bits + [a] + [b], r, k + 2, Append(Append(p, a), b), c);
    assert bits + [a, b, c] == bits + [a] + [b] + [c];
    assert k + 1 + 1 + 1 == k + 3;
  }

  /** The last two bits of a byte. */
  lemma FeedLastTwo(bits: seq<bv8>, r: bv8, p: bv8, a: bv8, b: bv8)
    requires p < 0x40 && Seven(Append(p, a)) && b < 2
    requires Remainder(0x89, bits) == Xor(FeedZeros(r, 6), p)
    ensures Remainder(0x89, bits + [a, b]) == Xor(FeedZeros(r, 8), Reduced(Append(Append(p, a), b)))
  {
    hide Feed, Remainder, Append, Xor, Seven, Reduced, FeedZero;
    FeedMore(bits, r, 6, p, a);
    RemainderMore(0x89, bits + [a], b);
    FeedParts(FeedZeros(r, 7), Append(p, a), b);
    FeedSmall(Append(p, a), b);
    assert bits + [a, b] == bits + [a] + [b];
  }

  /** A byte of the dividend. */
  lemma RemainderByte(bits: seq<bv8>, b: bv8)
    ensures Remainder(0x89, bits + ByteBits(b)) == Xor(FeedZeros(Remainder(0x89, bits), 8), Reduced(b))
  {
    hide Remainder;
    var r, s := Remainder(0x89, bits), ByteBits(b);
    ByteJoined(b);
    assert FeedZeros(r, 0) == r && Xor(r, 0) == r;
    hide ByteBits, Append, Xor, Seven, Reduced, FeedZeros;
    var p3 := Append3(0, s[0], s[1], s[2]);
    var p6 := Append3(p3, s[3], s[4], s[5]);
    FeedThree(bits, r, 0, 0, s[0], s[1], s[2]);
    FeedThree(bits + [s[0], s[1], s[2]], r, 3, p3, s[3], s[4], s[5]);
    FeedLastTwo(bits + [s[0], s[1], s[2]] + [s[3], s[4], s[5]], r, p6, s[6], s[7]);
    assert bits + s == bits + [s[0], s[1], s[2]] + [s[3], s[4], s[5]] + [s[6], s[7]];
  }

  lemma {:induction false} RemainderZeros(bits: seq<bv8>, n: nat)
    ensures Remainder(0x89, bits + seq(n, _ => 0)) == FeedZeros(Remainder(0x89, bits), n)
  {
    hide Feed, Remainder;
    if n == 0 {
      assert bits + seq<bv8>(0, _ => 0) == bits;
    } else {
      var z := seq<bv8>(n - 1, _ => 0);
      RemainderZeros(bits, n - 1);
      assert bits + seq<bv8>(n, _ => 0) == bits + z + [0];
      RemainderMore(0x89, bits + z, 0);
      FeedIs(FeedZeros(Remainder(0x89, bits), n - 1), 0);
      var r := FeedZero(FeedZeros(Remainder(0x89, bits), n - 1));
      assert Xor(r, 0) == r;
    }
  }

  lemma {:induction false} RemainderIsSeven(command: seq<bv8>)
    ensures Seven(Remainder(0x89, Bits(command)))
  {
    if command != [] {
      var init, b := command[..|command| - 1], command[|command| - 1];
      RemainderIsSeven(init);
      hide Remainder, ByteBits, Seven, Reduced, Xor, FeedZeros;
      RemainderByte(Bits(init), b);
      FeedsAreSeven(Remainder(0x89, Bits(init)), 8);
      StepReduces(b);
      SevenXor(FeedZeros(Remainder(0x89, Bits(init)), 8), Reduced(b));
    }
  }

  lemma SevenXor(x: bv8, y: bv8)
    requires Seven(x) && Seven(y)
    ensures Seven(Xor(x, y))
  {
  }

  /** A byte enters the register at the top, seven places ahead. */
  lemma ByteEntersRemainder(d: bv8, b: bv8)
    requires Seven(d)
    ensures ByteStep(Twice(FeedZeros(d, 7)), b) == Twice(FeedZeros(Xor(FeedZeros(d, 8), Reduced(b)), 7))
  {
    hide Steps, Step, Seven, Xor, Twice, Reduced, FeedZeros;
    var r := FeedZeros(d, 7);
    FeedsAreSeven(d, 7);
    StepsXor(Twice(r), b, 8);
    StepsTwice(r, 8);
    StepFirst(b, 7);
    StepReduces(b);
    StepsTwice(Reduced(b), 7);
    XorTwice(FeedZeros(r, 8), FeedZeros(Reduced(b), 7));
    FeedsLinear(FeedZeros(d, 8), Reduced(b), 7);
    FeedsAdd(d, 7, 8);
    FeedsAdd(d, 8, 7);
  }

  lemma {:induction false} RegisterDivides(command: seq<bv8>)
    ensures Register(command) == Twice(FeedZeros(Remainder(0x89, Bits(command)), 7))
  {
    if command == [] {
      NothingLeft();
    } else {
      var init, b := command[..|command| - 1], command[|command| - 1];
      RegisterDivides(init);
      RemainderIsSeven(init);
      hide Remainder, ByteBits, ByteStep, FeedZeros, Twice, Xor, Reduced, Seven;
      ByteEntersRemainder(Remainder(0x89, Bits(init)), b);
      RemainderByte(Bits(init), b);
    }
  }

  lemma NothingLeft()
    ensures Register([]) == Twice(FeedZeros(Remainder(0x89, Bits([])), 7))
  {
    FeedsOfNone(7);
    assert Twice(0) == 0;
  }

  lemma {:induction false} FeedsOfNone(n: nat)
    ensures FeedZeros(0, n) == 0
  {
    if n > 0 {
      FeedsOfNone(n - 1);
    }
  }

  /** The CRC of a command is the remainder of its bits, followed by seven zeros, on
      division by x^7 + x^3 + 1, in front of a one: section 4.5 of the SD Physical
      Layer Simplified Specification. */
  lemma CrcIsRemainder(command: seq<bv8>)
    ensures var r := Remainder(0x89, Bits(command) + [0, 0, 0, 0, 0, 0, 0]);
            r < 0x80 && Crc(command) == (r << 1) | 1
  {
    RegisterDivides(command);
    RemainderZeros(Bits(command), 7);
    RemainderIsSeven(command);
    FeedsAreSeven(Remainder(0x89, Bits(command)), 7);
    assert seq<bv8>(7, _ => 0) == [0, 0, 0, 0, 0, 0, 0];
    hide Remainder, Register, FeedZeros;
  }

  lemma StepIsEven(r: bv8)
    ensures Even(Step(r))
  {
  }

  lemma StepsAreEven(r: bv8, n: nat)
    requires Even(r) || n > 0
    ensures Even(Steps(r, n))
  {
    hide Even, Step;
    if n > 0 {
      StepIsEven(Steps(r, n - 1));
    }
  }

  lemma {:induction false} RegisterIsEven(command: seq<bv8>)
    ensures Even(Register(command))
  {
    if command != [] {
      var r, b := Register(command[..|command| - 1]), command[|command| - 1];
      assert Register(command) == ByteStep(r, b);
      hide Even, Steps;
      StepsAreEven(Xor(r, b), 8);
    }
  }

  /** Do two bytes differ by the generator itself? */
  predicate Generator(b: bv8, c: bv8) { b ^ c == 0x89 }

  lemma StepKernel(x: bv8, y: bv8)
    ensures Step(x) == Step(y) <==> x == y || Generator(x, y)
  {
  }

  lemma EvenDiffer(x: bv8, y: bv8)
    requires Even(x) && Even(y)
    ensures !Generator(x, y)
  {
  }

  lemma EvenStep(x: bv8, y: bv8)
    requires Even(x) && Even(y)
    ensures Step(x) == Step(y) <==> x == y
  {
    StepKernel(x, y);
    EvenDiffer(x, y);
  }

  lemma {:induction false} EvenSteps(x: bv8, y: bv8, n: nat)
    requires Even(x) && Even(y)
    ensures Steps(x, n) == Steps(y, n) <==> x == y
  {
    hide Even, Step;
    if n > 0 {
      StepsAreEven(x, n - 1);
      StepsAreEven(y, n - 1);
      EvenStep(Steps(x, n - 1), Steps(y, n - 1));
      EvenSteps(x, y, n - 1);
    }
  }

  lemma XorBoth(r: bv8, b: bv8, c: bv8)
    ensures Generator(Xor(r, b), Xor(r, c)) <==> Generator(b, c)
    ensures Xor(r, b) == Xor(r, c) <==> b == c
  {
  }

  lemma {:induction false} StepFirst(x: bv8, n: nat)
    ensures Steps(x, n + 1) == Steps(Step(x), n)
  {
    hide Step;
    if n > 0 {
      StepFirst(x, n - 1);
      assert n - 1 + 1 == n;
    } else {
      assert Steps(x, 0) == x;
    }
  }

  lemma ByteKernel(r: bv8, b: bv8, c: bv8)
    ensures ByteStep(r, b) == ByteStep(r, c) <==> b == c || Generator(b, c)
  {
    hide Steps, Step, Xor, Generator, Even;
    var x, y := Xor(r, b), Xor(r, c);
    StepFirst(x, 7);
    StepFirst(y, 7);
    StepIsEven(x);
    StepIsEven(y);
    EvenSteps(Step(x), Step(y), 7);
    StepKernel(x, y);
    XorBoth(r, b, c);
  }

  /** The same byte keeps two registers apart. */
  lemma SameByte(r: bv8, q: bv8, b: bv8)
    requires Even(r) && Even(q)
    ensures ByteStep(r, b) == ByteStep(q, b) <==> r == q
  {
    hide Steps, Step, Generator;
    var x, y := Xor(r, b), Xor(q, b);
    SameBit(r, q, b);
    hide Even, Xor;
    StepFirst(x, 7);
    StepFirst(y, 7);
    StepIsEven(x);
    StepIsEven(y);
    EvenSteps(Step(x), Step(y), 7);
    StepKernel(x, y);
  }

  lemma SameBit(r: bv8, q: bv8, b: bv8)
    requires Even(r) && Even(q)
    ensures !Generator(Xor(r, b), Xor(q, b))
    ensures Xor(r, b) == Xor(q, b) <==> r == q
  {
  }

  lemma RegisterMore(command: seq<bv8>, b: bv8)
    ensures Register(command + [b]) == ByteStep(Register(command), b)
  {
    assert (command + [b])[..|command|] == command;
  }

  lemma {:induction false} SameTail(x: seq<bv8>, y: seq<bv8>, tail: seq<bv8>)
    ensures Register(x + tail) == Register(y + tail) <==> Register(x) == Register(y)
  {
    hide Register, ByteStep;
    if tail == [] {
      assert x + tail == x && y + tail == y;
    } else {
      var init, b := tail[..|tail| - 1], tail[|tail| - 1];
      assert x + tail == x + init + [b] && y + tail == y + init + [b];
      RegisterMore(x + init, b);
      RegisterMore(y + init, b);
      RegisterIsEven(x + init);
      RegisterIsEven(y + init);
      SameByte(Register(x + init), Register(y + init), b);
      SameTail(x, y, init);
    }
  }

  /** Commands that differ in one byte have the same CRC just when the difference
      is the generator of the code. */
  lemma Collision(head: seq<bv8>, b: bv8, c: bv8, tail: seq<bv8>)
    ensures Crc(head + [b] + tail) == Crc(head + [c] + tail) <==> b == c || Generator(b, c)
  {
    hide Register, ByteStep, Generator, Even;
    SameTail(head + [b], head + [c], tail);
    RegisterMore(head, b);
    RegisterMore(head, c);
    ByteKernel(Register(head), b, c);
    RegisterIsEven(head + [b] + tail);
    RegisterIsEven(head + [c] + tail);
    SameCrc(Register(head + [b] + tail), Register(head + [c] + tail));
    hide Crc;
  }

  lemma SameCrc(r: bv8, q: bv8)
    requires Even(r) && Even(q)
    ensures (r & 0xfe) | 1 == (q & 0xfe) | 1 <==> r == q
  {
  }

  // ---------- Commands with known CRCs ----------

  /** One byte, step by step. */
  lemma ByteIs(r: bv8, b: bv8)
    ensures ByteStep(r, b) == Step(Step(Step(Step(Step(Step(Step(Step(r ^ b))))))))
  {
    hide Step;
    var x := r ^ b;
    assert Steps(x, 1) == Step(Steps(x, 0));
    assert Steps(x, 2) == Step(Steps(x, 1));
    assert Steps(x, 3) == Step(Steps(x, 2));
    assert Steps(x, 4) == Step(Steps(x, 3));
    assert Steps(x, 5) == Step(Steps(x, 4));
    assert Steps(x, 6) == Step(Steps(x, 5));
    assert Steps(x, 7) == Step(Steps(x, 6));
  }

  /** The five bytes of a command, one after another. */
  lemma FiveBytes(a: bv8, b: bv8, c: bv8, d: bv8, e: bv8)
    ensures Register([a, b, c, d, e]) == ByteStep(ByteStep(ByteStep(ByteStep(ByteStep(0, a), b), c), d), e)
  {
    assert Register([]) == 0;
    hide ByteStep, Register;
    RegisterMore([], a);
    assert [] + [a] == [a];
    RegisterMore([a], b);
    assert [a] + [b] == [a, b];
    RegisterMore([a, b], c);
    assert [a, b] + [c] == [a, b, c];
    RegisterMore([a, b, c], d);
    assert [a, b, c] + [d] == [a, b, c, d];
    RegisterMore([a, b, c, d], e);
    assert [a, b, c, d] + [e] == [a, b, c, d, e];
  }

  /** GO_IDLE_STATE, which every driver sends first. */
  lemma GoIdle()
    ensures Crc([0x40, 0, 0, 0, 0]) == 0x95
  {
    FiveBytes(0x40, 0, 0, 0, 0);
    ByteIs(0x0, 0x40);
    assert ByteStep(0x0, 0x40) == 0xc8;
    ByteIs(0xc8, 0x0);
    assert ByteStep(0xc8, 0x0) == 0xda;
    ByteIs(0xda, 0x0);
    assert ByteStep(0xda, 0x0) == 0xcc;
    ByteIs(0xcc, 0x0);
    assert ByteStep(0xcc, 0x0) == 0x92;
    ByteIs(0x92, 0x0);
    assert ByteStep(0x92, 0x0) == 0x94;
    hide Steps, Register;
  }

  /** SEND_IF_COND for 2.7 to 3.6 volts, with 0xaa to be echoed. */
  lemma SendInterfaceCondition()
    ensures Crc([0x48, 0, 0, 0x1, 0xaa]) == 0x87
  {
    FiveBytes(0x48, 0, 0, 0x1, 0xaa);
    ByteIs(0x0, 0x48);
    assert ByteStep(0x0, 0x48) == 0x58;
    ByteIs(0x58, 0x0);
    assert ByteStep(0x58, 0x0) == 0x6a;
    ByteIs(0x6a, 0x0);
    assert ByteStep(0x6a, 0x0) == 0x18;
    ByteIs(0x18, 0x1);
    assert ByteStep(0x18, 0x1) == 0xb0;
    ByteIs(0xb0, 0xaa);
    assert ByteStep(0xb0, 0xaa) == 0x86;
    hide Steps, Register;
  }

  // ---------- The simulator ----------

  /** The part of the simulator's 32-bit variable that counts. */
  function LowByte(fill: bv32): bv8 { (fill & 0xff) as bv8 }

  /** A char as an int: it is signed. */
  function SignExtended(c: bv8): bv32 {
    (c as bv32) | ((c >> 7) as bv32 * 0xffff_ff00)
  }

  function EnterByte(fill: bv32, c: bv8): bv32 { fill ^ SignExtended(c) }

  lemma ByteEnters(fill: bv32, c: bv8)
    ensures LowByte(EnterByte(fill, c)) == Xor(LowByte(fill), c)
  {
  }

  lemma BitShifts(fill: bv32)
    ensures fill & 0x80 != 0 ==> LowByte((fill << 1) ^ 0x12) == Step(LowByte(fill))
    ensures fill & 0x80 == 0 ==> LowByte(fill << 1) == Step(LowByte(fill))
  {
  }

  /** One byte of cmdcrc(). */
  method TakeByte(fill0: bv32, c: bv8) returns (fill: bv32)
    ensures LowByte(fill) == ByteStep(LowByte(fill0), c)
  {
    hide LowByte, Step, Xor, EnterByte;
    ByteEnters(fill0, c);
    fill := EnterByte(fill0, c);
    ghost var start := LowByte(fill);
    var j := 0;
    while j < 8
      invariant 0 <= j <= 8 && LowByte(fill) == Steps(start, j)
    {
      BitShifts(fill);
      if fill & 0x80 != 0 {
        fill := (fill << 1) ^ 0x12;
      } else {
        fill := fill << 1;
      }
      j := j + 1;
    }
  }

  function Finished(fill: bv32): bv32 { (fill & 0xfe) | 1 }

  function Widened(r: bv8): bv32 { r as bv32 }

  lemma Finishes(fill: bv32, command: seq<bv8>)
    requires LowByte(fill) == Register(command)
    ensures Finished(fill) == Widened(Crc(command))
  {
    hide Register;
  }

  /** cmdcrc(), of the first len bytes of a buffer. */
  method Cmdcrc(len: nat, buf: array<bv8>) returns (fill: bv32)
    requires len <= buf.Length
    ensures fill == Widened(Crc(buf[..len]))
  {
    hide Register, ByteStep, LowByte, Finished, Widened, Crc;
    fill := 0;
    StartsEmpty();
    assert buf[..0] == [];
    var i := 0;
    while i < len
      invariant 0 <= i <= len && LowByte(fill) == Register(buf[..i])
    {
      RegisterMore(buf[..i], buf[i]);
      assert buf[..i] + [buf[i]] == buf[..i + 1];
      fill := TakeByte(fill, buf[i]);
      i := i + 1;
    }
    Finishes(fill, buf[..len]);
    fill := Finished(fill);
  }

  lemma StartsEmpty()
    ensures LowByte(0) == Register([])
  {
  }

  lemma WidenedSame(r: bv8, q: bv8)
    ensures Widened(r) == Widened(q) <==> r == q
  {
  }

  /** check_cmdcrc(): does the sixth byte of a command fit the first five? */
  method CheckCmdcrc(buf: array<bv8>) returns (ok: bool)
    requires buf.Length >= 6
    ensures ok <==> Accepted(buf[..6])
  {
    hide Crc, Widened;
    var fill := Cmdcrc(5, buf);
    ok := fill == Widened(buf[5]);
    WidenedSame(Crc(buf[..5]), buf[5]);
    assert buf[..6][..5] == buf[..5];
  }

  predicate Accepted(command: seq<bv8>)
    requires |command| == 6
  {
    Crc(command[..5]) == command[5]
  }

  /** A command with a good CRC, altered in one byte, is accepted just when the
      altered byte is not the CRC and the alteration is the generator. */
  lemma Altered(command: seq<bv8>, i: nat, b: bv8)
    requires |command| == 6 && i < 6 && Accepted(command) && b != command[i]
    ensures Accepted(command[i := b]) <==> i < 5 && Generator(command[i], b)
  {
    hide Crc, Generator;
    var body := command[..5];
    if i < 5 {
      Collision(body[..i], command[i], b, body[i + 1..]);
      assert body == body[..i] + [command[i]] + body[i + 1..];
      assert command[i := b][..5] == body[..i] + [b] + body[i + 1..];
    } else {
      assert command[i := b][..5] == body;
    }
  }
}
