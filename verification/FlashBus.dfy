/** The controller between the bus and the flash, in SPI mode: a byte is eight
    clock periods, with any number of calls of the device in between. */
module FlashBus {
  import opened Options
  import opened Bytes
  import opened Powers
  import opened Division
  import opened FlashDevice
  import opened FlashSimulator
  import opened FlashReset

  /** The device takes a byte at the SPI pins. */
  predicate Listening(d: Device) {
    && d.Valid() && d.mode == Spi && d.lastSck && d.count % 8 == 0
    && d.state != QuadReadIdle && d.state != DualReadIdle
  }

  /** The effect of a whole byte, but for the passing of time. */
  function ByteStep(d: Device, b: byte): Option<Device>
    requires d.Valid()
  {
    Process(d.(ireg := Entered(d.ireg, b), count := d.count + 8, oreg := Entered(d.oreg, 0)))
  }

  /** A register after a whole byte. */
  function Entered(x: nat, b: byte): nat { (x * 256 + b) % WORD }

  /** The register x after the i highest bits of b have been shifted into it. */
  function Into(x: nat, b: byte, i: nat): nat
    requires i <= 8
  {
    if i == 0 then x else (x * Pow2(i) + b / Pow2(8 - i)) % WORD
  }

  /** i bits of b, the highest first, have been shifted in. */
  function Shifted(d: Device, b: byte, i: nat): Device
    requires i <= 8
  {
    d.(ireg := Into(d.ireg, b, i), count := d.count + i, oreg := Into(d.oreg, 0, i))
  }

  /** Bit i of a byte, counted from the highest. */
  function Bit(b: nat, i: nat): nat
    requires i < 8
  {
    b / Pow2(7 - i) % 2
  }

  lemma ModDouble(x: nat, bit: nat)
    ensures (x % WORD * 2 + bit) % WORD == (2 * x + bit) % WORD
  {
  }

  lemma ShiftReg(x: nat, p: nat, t: nat, bit: nat)
    ensures ((x * p + t) % WORD * 2 + bit) % WORD == (x * (2 * p) + (2 * t + bit)) % WORD
  {
    ModDouble(x * p + t, bit);
    assert x * (2 * p) == 2 * (x * p);
  }

  lemma IntoFirst(x: nat, b: byte)
    ensures (x * 2 + Bit(b, 0)) % WORD == Into(x, b, 1)
  {
    SmallPowers();
    assert b / 128 < 2;
  }

  lemma IntoStep(x: nat, b: byte, i: nat)
    requires i < 8
    ensures (Into(x, b, i) * 2 + Bit(b, i)) % WORD == Into(x, b, i + 1)
  {
    if i == 0 {
      IntoFirst(x, b);
    } else {
      var p, q, t := Pow2(i), Pow2(7 - i), b / Pow2(8 - i);
      assert Pow2(i + 1) == 2 * p && Pow2(8 - i) == 2 * q;
      hide Pow2;
      HalfStep(b, q);
      assert b / q == 2 * t + Bit(b, i);
      ShiftReg(x, p, t, Bit(b, i));
    }
  }

  lemma ShiftBit(d: Device, b: byte, i: nat)
    requires i < 8 && d.mode == Spi
    ensures Bit(b, i) < 2 && Shift(Shifted(d, b, i), Bit(b, i)) == Shifted(d, b, i + 1)
  {
    hide Into;
    IntoStep(d.ireg, b, i);
    IntoStep(d.oreg, 0, i);
    assert Bit(0, i) == 0;
  }

  lemma BitEight(y: nat, bit: nat, z: nat)
    requires bit < 2 && z < 256
    ensures (y * 512 + bit * 256 + z) % WORD / 256 % 2 == bit
  {
    var q, r := y / 0x80_0000, y % 0x80_0000;
    var low := r * 512 + bit * 256 + z;
    DivUnique(y * 512 + bit * 256 + z, WORD, q, low);
    DivUnique(low, 256, 2 * r + bit, z);
    DivUnique(2 * r + bit, 2, r, bit);
  }

  lemma MoveUp(l: nat, p: nat, q: nat, u: nat, bit: nat, r: nat)
    requires p > 0 && q > 0 && p * q == 128 && l == u * (2 * p) + bit * p + r && r < p
    ensures l * (2 * q) == u * 512 + bit * 256 + r * (2 * q) && 0 <= r * (2 * q) < 256
  {
    calc {
      l * (2 * q);
      u * (2 * p) * (2 * q) + bit * p * (2 * q) + r * (2 * q);
      u * (4 * (p * q)) + bit * (2 * (p * q)) + r * (2 * q);
    }
    assert (r + 1) * (2 * q) <= p * (2 * q) == 2 * (p * q);
  }

  /** A bit at weight p, moved up to weight 256. */
  lemma BitOnWire(x: nat, p: nat, q: nat)
    requires p > 0 && q > 0 && p * q == 128
    ensures x * (2 * q) % WORD / 256 % 2 == x % 256 / p % 2
  {
    var h, l := x / 256, x % 256;
    SplitBit(l, p);
    var u, bit, r := l / p / 2, l / p % 2, l % p;
    MoveUp(l, p, q, u, bit, r);
    TwoParts(h, l, q);
    BitEight(h * q + u, bit, r * (2 * q));
  }

  lemma TwoParts(h: nat, l: nat, q: nat)
    ensures (h * 256 + l) * (2 * q) == (h * q) * 512 + l * (2 * q)
  {
  }

  /** The bit that is on the wire after shift i is bit i of what was loaded. */
  lemma OutputBit(d: Device, b: byte, i: nat)
    requires i < 8
    ensures Shifted(d, b, i + 1).oreg / 256 % 2 == Bit(d.oreg % 256, i)
  {
    SmallPowers();
    Pow2Add(7 - i, i);
    BitOnWire(d.oreg, Pow2(7 - i), Pow2(i));
    assert 0 / Pow2(7 - i) == 0;
  }

  lemma AgeNone(d: Device)
    ensures Age(d, 0) == d
  {
  }

  lemma AgeValid(d: Device, n: nat)
    ensures Age(d, n).Valid() == d.Valid()
  {
  }

  lemma ShiftedNone(d: Device, b: byte)
    ensures Shifted(d, b, 0) == d
  {
  }

  lemma ShiftedKeeps(d: Device, b: byte, i: nat)
    requires i <= 8
    ensures var s := Shifted(d, b, i);
            s == d.(ireg := s.ireg, oreg := s.oreg, count := d.count + i)
  {
  }

  lemma AgeAge(d: Device, a: nat, b: nat)
    ensures Age(Age(d, a), b) == Age(d, a + b)
  {
  }

  /** The timer runs independently of the shift registers. */
  lemma AgeApart(d: Device, e: Device, n: nat)
    requires d.timer == e.timer && d.status == e.status
    ensures Age(e, n) == e.(timer := Age(d, n).timer, status := Age(d, n).status)
  {
  }

  lemma ShiftApart(d: Device, dat: nat, timer: nat, status: Status)
    ensures Shift(d.(timer := timer, status := status), dat) == Shift(d, dat).(timer := timer, status := status)
  {
  }

  /** The call at a falling edge: i bits are in before it, i + 1 after it. */
  lemma FallingEdge(d: Device, b: byte, i: nat, n: nat)
    requires Listening(d) && i < 8
    ensures var a := Age(Shifted(d, b, i), n + 1);
            && a.lastSck && Age(Age(Shifted(d, b, i), n), 1) == a
            && Shift(a, Bit(b, i)) == Age(Shifted(d, b, i + 1), n + 1)
  {
    hide Into, Shift, Bit;
    var s := Shifted(d, b, i);
    AgeAge(s, n, 1);
    AgeApart(s, s, n + 1);
    ShiftBit(d, b, i);
    var a := Age(s, n + 1);
    ShiftApart(s, Bit(b, i), a.timer, a.status);
    AgeApart(s, Shifted(d, b, i + 1), n + 1);
  }

  /** A clock period that is not the eighth only shifts and lets time pass. */
  lemma TickShifts(d: Device, b: byte, i: nat, n: nat)
    requires Listening(d) && i < 7
    ensures var s := Age(Shifted(d, b, i), n);
            Tick(s, false, false, Bit(b, i)) == Some(Age(Shifted(d, b, i + 1), n + 1).(lastSck := false))
  {
    FallingEdge(d, b, i, n);
    AgeApart(Shifted(d, b, i + 1), Shifted(d, b, i + 1), n + 1);
    MiddleOfByte(d.count, i);
    ProcessWaits(Age(Shifted(d, b, i + 1), n + 1));
    hide Process, Age, Shift, Bit, Into;
  }

  lemma MiddleOfByte(c: nat, i: nat)
    requires c % 8 == 0 && i < 7
    ensures (c + i + 1) % 8 != 0
  {
  }

  lemma ProcessWaits(d: Device)
    requires |d.pmem| == PAGE && d.count % 8 != 0 && d.state != QuadReadIdle && d.state != DualReadIdle
    ensures Process(d) == Some(d)
  {
  }

  /** The eighth clock period completes the byte. */
  lemma TickCompletes(d: Device, b: byte, n: nat)
    requires Listening(d)
    ensures var s := Age(Shifted(d, b, 7), n);
            Tick(s, false, false, Bit(b, 7)) ==
            match ByteStep(Age(d, n + 1), b) case None => None case Some(e) => Some(e.(lastSck := false))
  {
    hide Process, Age, Shift, Bit, Into;
    FallingEdge(d, b, 7, n);
    WholeByte(d.ireg, b);
    WholeByte(d.oreg, 0);
    AgeApart(d, Shifted(d, b, 8), n + 1);
    AgeApart(d, d, n + 1);
    hide Entered;
  }

  lemma WholeByte(x: nat, b: byte)
    ensures Into(x, b, 8) == Entered(x, b)
  {
    SmallPowers();
  }

  lemma ByteStepClock(d: Device, b: byte)
    requires d.Valid() && ByteStep(d, b).Some?
    ensures ByteStep(d, b).value.Valid() && ByteStep(d, b).value.lastSck == d.lastSck
  {
    hide Decode;
  }

  /** A rising edge, and any other call without a falling edge, only lets time pass. */
  lemma NoFallingEdge(d: Device, n: nat)
    requires d.Valid() && d.lastSck
    ensures Tick(d.(lastSck := false), false, true, 0) == Some(Age(d, 1))
    ensures Tick(Age(d, n), false, true, 0) == Some(Age(d, n + 1))
  {
    AgeAge(d, n, 1);
  }

  /** Completing a byte left its last output bit on the wire. */
  predicate SameWire(d: Device, e: Device) { e.mode == Spi && e.oreg / 256 % 2 == d.oreg % 2 }

  /** In SPI mode the device drives bit 8 of its output register on line 1. */
  lemma Miso(d: Device, dat: nat)
    requires d.mode == Spi && dat < 2
    ensures d.Output(dat) / 2 % 2 == d.oreg / 256 % 2
  {
  }

  /** Calling with the chip select high again and again changes nothing more. */
  lemma RiseAgain(d: Device, n: nat)
    requires d.Valid()
    ensures Tick(Age(CsRise(d), n), true, true, 0) == Some(Age(CsRise(d), n + 1))
    ensures EventsOf(Age(CsRise(d), n), true) == []
  {
    hide Age;
    AgeNone(CsRise(d));
    AgeApart(CsRise(d), CsRise(d), n);
    AgeApart(CsRise(d), CsRise(d), n + 1);
    AgeAge(CsRise(d), n, 1);
  }

  /** What the i-th clock period of a byte does, for i < 7. */
  lemma EarlierBit(d: Device, b: byte, i: nat, n: nat)
    requires Listening(d) && i < 7
    ensures var e := Age(Shifted(d, b, i + 1), n + 1);
            && e.Valid() && e.lastSck && e.mode == Spi
            && Tick(Age(Shifted(d, b, i), n), false, false, Bit(b, i)) == Some(e.(lastSck := false))
            && Age(e, 1) == Age(Shifted(d, b, i + 1), n + 2)
            && e.oreg / 256 % 2 == Bit(d.oreg % 256, i)
    ensures Bit(b, i) < 2
    ensures d.oreg % 256 / Pow2(7 - i) == 2 * (d.oreg % 256 / Pow2(8 - i)) + Bit(d.oreg % 256, i)
  {
    hide Tick, Age, Shifted;
    var e := Shifted(d, b, i + 1);
    TickShifts(d, b, i, n);
    OutputBit(d, b, i);
    ShiftedKeeps(d, b, i + 1);
    AgeApart(e, e, n + 1);
    AgeAge(e, n + 1, 1);
    HalfStep(d.oreg % 256, Pow2(7 - i));
  }

  /** What the last clock period of a byte does. */
  lemma LastBit(d: Device, b: byte, n: nat)
    requires Listening(d) && Age(d, n + 1).Valid()
    ensures var next := ByteStep(Age(d, n + 1), b);
            && Tick(Age(Shifted(d, b, 7), n), false, false, Bit(b, 7)) ==
               (match next case None => None case Some(e) => Some(e.(lastSck := false)))
            && (next.Some? ==> next.value.Valid() && next.value.lastSck)
            && (next.Some? && SameWire(d, next.value) ==> next.value.oreg / 256 % 2 == Bit(d.oreg % 256, 7))
    ensures Bit(b, 7) < 2 && d.oreg % 256 / Pow2(1) < 128
    ensures d.oreg % 256 == 2 * (d.oreg % 256 / Pow2(1)) + Bit(d.oreg % 256, 7)
  {
    hide Tick, Age, Shifted, ByteStep, Bit;
    LastBits(b, d.oreg);
    TickCompletes(d, b, n);
    AgeApart(d, d, n + 1);
    if ByteStep(Age(d, n + 1), b).Some? {
      ByteStepClock(Age(d, n + 1), b);
    }
  }

  lemma LastBits(b: byte, x: nat)
    ensures Bit(b, 7) < 2 && Bit(x % 256, 7) == x % 2 && x % 256 / Pow2(1) < 128
    ensures x % 256 == 2 * (x % 256 / Pow2(1)) + Bit(x % 256, 7)
  {
    assert Pow2(0) == 1 && Pow2(1) == 2;
    var q, r := x / 256, x % 256;
    DivUnique(x, 2, 128 * q + r / 2, r % 2);
  }

  class SpiBus {
    const flash: FlashSim

    constructor (flash: FlashSim)
      ensures this.flash == flash
    {
      this.flash := flash;
    }

    /** Raise the chip select, and keep it high for a while. */
    method EndCommand() returns (ghost n: nat)
      requires flash.Valid()
      modifies flash, flash.mem, flash.pmem
      ensures flash.Valid() && flash.View() == Age(CsRise(Age(old(flash.View()), 1)), n)
      ensures flash.log == old(flash.log) + EventsOf(old(flash.View()), true)
    {
      ghost var e := CsRise(Age(flash.View(), 1));
      ghost var log := flash.log + EventsOf(flash.View(), true);
      var _, _ := flash.Operator(true, true, 0);
      n := 0;
      var ticks: nat := *;
      while ticks > 0
        invariant flash.Valid() && flash.View() == Age(e, n) && flash.log == log
        invariant e.Valid()
      {
        RiseAgain(Age(old(flash.View()), 1), n);
        var _, _ := flash.Operator(true, true, 0);
        n, ticks := n + 1, ticks - 1;
      }
    }

    /** A falling edge with a bit on the wire, then a rising edge, unless the
        part stops at the former. */
    method Clock(bit: nat, ghost next: Option<Device>) returns (alive: bool, miso: nat)
      requires bit < 2 && flash.Valid() && (next.Some? ==> next.value.Valid() && next.value.lastSck)
      requires Tick(flash.View(), false, false, bit) ==
               match next case None => None case Some(e) => Some(e.(lastSck := false))
      modifies flash, flash.mem, flash.pmem
      ensures alive <==> next.Some?
      ensures alive ==>
        && flash.Valid() && flash.View() == Age(next.value, 1) && flash.log == old(flash.log)
        && miso < 2 && (next.value.mode == Spi ==> miso == next.value.oreg / 256 % 2)
    {
      hide Tick, Age, Device.Output;
      var lines;
      alive, lines := flash.Operator(false, false, bit);
      if !alive {
        return false, 0;
      }
      NoFallingEdge(next.value, 0);
      if next.value.mode == Spi {
        Miso(next.value.(lastSck := false), bit);
      }
      miso := lines / 2 % 2;
      var _, _ := flash.Operator(false, true, 0);
    }

    /** Shift one byte out and one byte in, after a pause of any length.  What
        comes back is the byte the device had loaded before; what the device
        does is ByteStep, at the moment of the fifteenth call after the pause.
        Whether it survives the byte must not depend on that moment. */
    method Send(b: byte, ghost fine: bool) returns (alive: bool, got: byte, ghost n: nat)
      requires flash.Valid() && Listening(flash.View())
      requires forall k: nat :: ByteStep(Age(flash.View(), k), b).Some? <==> fine
      modifies flash, flash.mem, flash.pmem
      ensures alive <==> fine
      ensures alive ==>
        && flash.Valid() && n >= 15 && flash.log == old(flash.log)
        && flash.View() == Age(ByteStep(Age(old(flash.View()), n), b).value, 1)
        && (SameWire(old(flash.View()), ByteStep(Age(old(flash.View()), n), b).value) ==>
              got == old(flash.oreg) % 256)
    {
      hide Tick, Age, ByteStep, Shifted, Bit, Into;
      ghost var d := flash.View();
      SmallPowers();
      AgeNone(d);
      ShiftedNone(d, b);
      n := 0;
      var pause: nat := *;
      while pause > 0
        invariant flash.Valid() && flash.View() == Age(d, n) && flash.log == old(flash.log)
      {
        NoFallingEdge(d, n);
        var _, _ := flash.Operator(false, true, 0);
        n, pause := n + 1, pause - 1;
      }
      var r, miso := 0, 0;
      for i := 0 to 7
        invariant flash.Valid() && flash.log == old(flash.log)
        invariant n >= 2 * i && flash.View() == Age(Shifted(d, b, i), n)
        invariant r == d.oreg % 256 / Pow2(8 - i)
      {
        EarlierBit(d, b, i, n);
        alive, miso := Clock(Bit(b, i), Some(Age(Shifted(d, b, i + 1), n + 1)));
        r, n := 2 * r + miso, n + 2;
      }
      AgeValid(d, n + 1);
      LastBit(d, b, n);
      alive, miso := Clock(Bit(b, 7), ByteStep(Age(d, n + 1), b));
      got, n := if alive then 2 * r + miso else 0, n + 1;
    }

    /** Shift a byte of ones out to a part in whatever mode, with anything on the
        other lines and pauses of any length. */
    method SendOnes(ghost d: Device, ghost i: nat)
      requires flash.Valid() && Selected(d) && flash.View().lastSck && Resetting(d, flash.View(), i)
      modifies flash, flash.mem, flash.pmem
      ensures flash.Valid() && flash.View().lastSck && Resetting(d, flash.View(), i + 8)
      ensures flash.log == old(flash.log)
    {
      hide Tick, Resetting, Selected;
      for k := 0 to 8
        invariant flash.Valid() && flash.View().lastSck && flash.log == old(flash.log)
        invariant Resetting(d, flash.View(), i + k)
      {
        var pause: nat := *;
        while pause > 0
          invariant flash.Valid() && flash.View().lastSck && flash.log == old(flash.log)
          invariant Resetting(d, flash.View(), i + k)
        {
          ResetStep(d, flash.View(), i + k, 1);
          var _, _ := flash.Operator(false, true, 0);
          pause := pause - 1;
        }
        var lines: int := *;
        lines := lines % 8;
        ResetStep(d, flash.View(), i + k, 2 * lines + 1);
        var _, _ := flash.Operator(false, false, 2 * lines + 1);
        var _, _ := flash.Operator(false, true, 0);
      }
    }
  }
}
