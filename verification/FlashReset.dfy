/** What ends the continuous read modes of the flash: the chip select, and clock
    periods with the data line to the part held high, whatever the other three
    lines carry. */
module FlashReset {
  import opened Options
  import opened Bytes
  import opened Powers
  import Division
  import opened FlashDevice

  /** The clock periods of the six bytes that the driver sends. */
  const RESET_CLOCKS: nat := 48

  predicate QuadReading(s: State) { s in {QuadReadCmd, QuadRead} }

  predicate DualReading(s: State) { s in {DualReadCmd, DualRead} }

  /** The next rising chip select does not go into a continuous read. */
  predicate Ending(d: Device) { d.modeByte / 16 != 0xa }

  /** In SPI mode, and a rising chip select starts nothing. */
  predicate Calm(d: Device) {
    && d.mode == Spi
    && (|| d.state in {Idle, Rdsr, Rdcr, Rdid, SlowRead, FastRead, Invalid}
        || ((QuadReading(d.state) || DualReading(d.state)) && Ending(d)))
  }

  /** Reading four or two bits at a time. */
  predicate Wide(d: Device) {
    || (d.mode == Qspi && (d.state == QuadReadIdle || QuadReading(d.state)))
    || (d.mode == Dspi && (d.state == DualReadIdle || DualReading(d.state)))
  }

  /** No write is in progress or pending; the part is idle, in a command that
      only reads, or in a continuous read. */
  predicate Settled(d: Device) {
    d.Valid() && d.timer == 0 && !d.status.wip && !d.status.dpd && (Calm(d) || Wide(d))
  }

  /** Settled, and the chip select has just been high. */
  predicate Selected(d: Device) {
    && Settled(d) && d.lastSck && d.count == 0 && d.ireg == 0
    && !(d.mode == Qspi && QuadReading(d.state)) && !(d.mode == Dspi && DualReading(d.state))
  }

  lemma RiseSettles(d: Device)
    requires Settled(d)
    ensures var e := CsRise(d);
            && Selected(e)
            && e == d.(lastSck := true, ireg := 0, oreg := 0xfe, count := 0, state := e.state, mode := e.mode)
  {
  }

  /** A device that has had i ones clocked in since the chip select was high on d. */
  predicate Resetting(d: Device, e: Device, i: nat) {
    && e == d.(state := e.state, mode := e.mode, ireg := e.ireg, oreg := e.oreg, count := e.count,
               addr := e.addr, modeByte := e.modeByte)
    && if d.state == QuadReadIdle then QuadResetting(e, i)
       else if d.state == DualReadIdle then DualResetting(e, i)
       else SpiResetting(d, e, i)
  }

  /** The six clock periods of an address, two of a mode byte, and data. */
  predicate QuadResetting(e: Device, i: nat) {
    && e.mode == Qspi && e.count == 4 * i
    && e.state == (if i < 6 then QuadReadIdle else QuadRead)
    && (i > 0 ==> e.ireg % 2 == 1) && (i >= 8 ==> e.modeByte / 16 % 2 == 1)
  }

  /** The same two bits at a time. */
  predicate DualResetting(e: Device, i: nat) {
    && e.mode == Dspi && e.count == 2 * i
    && e.state == (if i < 12 then DualReadIdle else DualRead)
    && (i > 0 ==> e.ireg % 2 == 1) && (i > 1 ==> e.ireg / 4 % 2 == 1) && (i >= 16 ==> e.modeByte / 16 % 2 == 1)
  }

  /** A command byte of ones, and more that are ignored. */
  predicate SpiResetting(d: Device, e: Device, i: nat) {
    && e.mode == Spi && e.count == i
    && (if i < 8 then e.state == d.state && e.ireg == Pow2(i) - 1 && e.modeByte == d.modeByte else e.state == Idle)
  }

  lemma StartsResetting(d: Device)
    requires Selected(d)
    ensures Resetting(d, d, 0)
  {
    assert Pow2(0) == 1;
  }

  /** A register that p has been shifted up in, with r below. */
  lemma ShiftedIn(x: nat, p: nat, q: nat, r: nat)
    requires p > 0 && q > 0 && p * q == WORD && r < p
    ensures (x * p + r) % WORD == x % q * p + r
    ensures (x * p + r) % WORD / p == x % q && (x * p + r) % WORD % p == r
  {
    var h, l := x / q, x % q;
    assert x * p + r == h * WORD + (l * p + r) by {
      assert x == h * q + l;
    }
    assert l * p + r < WORD by {
      assert (l + 1) * p <= q * p;
    }
    Division.DivUnique(x * p + r, WORD, h, l * p + r);
    Division.DivUnique(l * p + r, p, l, r);
  }

  /** Four odd bits: the one before them is bit 4. */
  lemma OddNibble(x: nat, dat: nat)
    requires dat % 2 == 1
    ensures var y := (x * 16 + dat % 16) % WORD; y % 2 == 1 && y % 256 / 16 % 2 == x % 2
  {
    var y := (x * 16 + dat % 16) % WORD;
    ShiftedIn(x, 16, 0x1000_0000, dat % 16);
    LowNibble(y);
    SameParity(y, 16);
    SameParity(dat, 16);
    SameParity(x, 0x1000_0000);
  }

  /** Two odd bits: those before them are bits 2 and 4. */
  lemma OddPair(x: nat, dat: nat)
    requires dat % 2 == 1
    ensures var y := (x * 4 + dat % 4) % WORD;
            y % 2 == 1 && y / 4 % 2 == x % 2 && y % 256 / 16 % 2 == x / 4 % 2
  {
    var q := 0x4000_0000;
    var y := (x * 4 + dat % 4) % WORD;
    ShiftedIn(x, 4, q, dat % 4);
    LowNibble(y);
    SameParity(y, 4);
    SameParity(dat, 4);
    SameParity(x, q);
    Quarter(y);
    QuarterOf(x);
  }

  lemma Quarter(y: nat)
    ensures y / 16 == y / 4 / 4
  {
    var a, b := y / 4, y % 4;
    assert y == 16 * (a / 4) + (4 * (a % 4) + b);
    Division.DivUnique(y, 16, a / 4, 4 * (a % 4) + b);
  }

  lemma QuarterOf(x: nat)
    ensures x % 0x4000_0000 / 4 % 2 == x / 4 % 2
  {
    var z, k := x / 4, x % 4;
    var h, m := z / 0x1000_0000, z % 0x1000_0000;
    Division.DivUnique(x, 0x4000_0000, h, 4 * m + k);
    Division.DivUnique(4 * m + k, 4, m, k);
    SameParity(z, 0x1000_0000);
  }

  lemma SameParity(x: nat, m: nat)
    requires m > 0 && m % 2 == 0
    ensures x % m % 2 == x % 2
  {
    Division.ModOfProduct(x, 2, m / 2);
  }

  lemma LowNibble(y: nat)
    ensures y % 256 / 16 % 2 == y / 16 % 2
  {
    var z, k := y / 16, y % 16;
    var h, m := z / 16, z % 16;
    Division.DivUnique(y, 256, h, 16 * m + k);
    Division.DivUnique(16 * m + k, 16, m, k);
    SameParity(z, 16);
  }

  /** Eight ones in a row. */
  lemma OnesIn(i: nat)
    requires i < 8
    ensures Pow2(i) <= 128 && (Pow2(i) - 1) * 2 + 1 == Pow2(i + 1) - 1
    ensures i == 7 ==> Pow2(i + 1) - 1 == 0xff
  {
    SmallPowers();
  }

  lemma QuadStep(d: Device, e: Device, i: nat, dat: nat)
    requires Selected(d) && d.state == QuadReadIdle && Resetting(d, e, i) && dat % 2 == 1
    ensures Process(Shift(e, dat)).Some? && Resetting(d, Process(Shift(e, dat)).value, i + 1)
  {
    OddNibble(e.ireg, dat);
  }

  lemma DualStep(d: Device, e: Device, i: nat, dat: nat)
    requires Selected(d) && d.state == DualReadIdle && Resetting(d, e, i) && dat % 2 == 1
    ensures Process(Shift(e, dat)).Some? && Resetting(d, Process(Shift(e, dat)).value, i + 1)
  {
    OddPair(e.ireg, dat);
  }

  /** A bit of the first byte, or of a byte that is ignored. */
  lemma SpiBit(d: Device, e: Device, i: nat, dat: nat)
    requires Selected(d) && d.mode == Spi && Resetting(d, e, i) && dat % 2 == 1 && i != 7
    ensures Process(Shift(e, dat)).Some? && Resetting(d, Process(Shift(e, dat)).value, i + 1)
  {
    hide Pow2, Command;
    if i < 8 {
      OnesIn(i);
    }
  }

  /** The eighth bit of the first byte. */
  lemma SpiCommand(d: Device, e: Device, dat: nat)
    requires Selected(d) && d.mode == Spi && Resetting(d, e, 7) && dat % 2 == 1
    ensures Process(Shift(e, dat)).Some? && Resetting(d, Process(Shift(e, dat)).value, 8)
  {
    OnesIn(7);
    hide Pow2, Process;
    var x := Shift(e, dat);
    assert x == e.(ireg := 0xff, count := 8, oreg := x.oreg);
    ByteOfOnes(x);
  }

  lemma ByteOfOnes(x: Device)
    requires |x.pmem| == PAGE && x.mode == Spi && x.count == 8 && x.ireg == 0xff && !x.status.dpd
    requires x.state != QuadReadIdle && x.state != DualReadIdle
    ensures Process(x).Some?
    ensures var e := Process(x).value; e == x.(state := Idle, oreg := e.oreg)
  {
    DecodeOnes(x.state, x.status, x.timer, x.creg);
    hide Decode, DataByte;
  }

  lemma DecodeOnes(state: State, s: Status, timer: nat, creg: byte)
    requires !s.dpd
    ensures Decode(0xff, state, Spi, s, timer, creg) == Some(Decoded(Idle, Spi, s, timer, 0xa5))
  {
  }

  /** One more clock period. */
  lemma ResetStep(d: Device, e: Device, i: nat, dat: nat)
    requires Selected(d) && e.lastSck && Resetting(d, e, i) && dat % 2 == 1
    ensures var t := Tick(e, false, false, dat);
            && t.Some? && Resetting(d, t.value.(lastSck := true), i + 1) && !t.value.lastSck
            && Tick(t.value, false, true, 0) == Some(t.value.(lastSck := true))
            && Tick(e, false, true, 0) == Some(e)
  {
    assert Age(e, 1) == e;
    if d.state == QuadReadIdle {
      QuadStep(d, e, i, dat);
    } else if d.state == DualReadIdle {
      DualStep(d, e, i, dat);
    } else if i == 7 {
      SpiCommand(d, e, dat);
    } else {
      SpiBit(d, e, i, dat);
    }
    hide Process, Shift;
  }

  /** After the last of them the chip select ends the mode. */
  lemma ResetEnds(d: Device, e: Device)
    requires Selected(d) && Resetting(d, e, RESET_CLOCKS)
    ensures Settled(e)
    ensures var f := CsRise(e);
            Selected(f) && f.mode == Spi && f.mem == d.mem && f.status == d.status
  {
  }
}
