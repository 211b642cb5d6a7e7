/** Commands of the flash that the driver does not use: its registers written and
    read back, the erasure of the whole part, and the fast read. */
module FlashCommands {
  import opened Options
  import opened Bytes
  import opened FlashDevice
  import opened FlashReset
  import opened FlashBus
  import opened FlashDriver

  /** The device after some bytes of a command. */
  function After(d: Device, bytes: seq<byte>): Option<Device> {
    if bytes == [] then Some(d)
    else
      match After(d, bytes[..|bytes| - 1])
      case None => None
      case Some(e) => if e.Valid() then ByteStep(e, bytes[|bytes| - 1]) else None
  }

  lemma AfterMore(d: Device, bytes: seq<byte>, b: byte)
    requires After(d, bytes).Some? && After(d, bytes).value.Valid()
    ensures After(d, bytes + [b]) == ByteStep(After(d, bytes).value, b)
  {
    assert (bytes + [b])[..|bytes|] == bytes;
  }

  lemma AfterOne(d: Device, b: byte)
    requires d.Valid()
    ensures After(d, [b]) == ByteStep(d, b)
  {
    assert [b][..0] == [] && After(d, []) == Some(d);
  }

  /** The first byte of a command that takes more. */
  lemma CommandByte(d: Device, op: byte, state: State)
    requires AtStart(d) && Ready(d) && op in {0x01, 0x0b, 0xc7} && (op != 0x0b ==> d.status.WriteAllowed())
    requires state == if op == 0x01 then Wrsr else if op == 0x0b then FastRead else BulkErase
    ensures After(d, [op]).Some? && d.Valid() && d.timer == 0 && !d.status.wip && !d.status.dpd && d.mode == Spi
    ensures var e := After(d, [op]).value;
            e.Valid() && e == d.(ireg := op, oreg := e.oreg, count := 8, state := state)
  {
    DecodeOf(d, op);
    FirstByte(d, op);
    AfterOne(d, op);
    hide Decode, ByteStep, After;
  }

  lemma DecodeOf(d: Device, op: byte)
    requires op in {0x01, 0x0b, 0xc7} && !d.status.dpd && (op != 0x0b ==> d.status.WriteAllowed())
    ensures Decode(op, d.state, d.mode, d.status, d.timer, d.creg) ==
            Some(Decoded(if op == 0x01 then Wrsr else if op == 0x0b then FastRead else BulkErase,
                         d.mode, d.status, d.timer, 0xa5))
  {
  }

  // ---------- The status and the configuration register ----------

  /** The first byte of a write to the registers. */
  lemma StatusEntered(d: Device, b: byte)
    requires d.Valid() && d.count == 8 && d.state == Wrsr
    ensures ByteStep(d, b).Some?
    ensures var e := ByteStep(d, b).value;
            && e == d.(ireg := e.ireg, oreg := e.oreg, count := 16, status := e.status)
            && e.status == d.status.(block := b / 4 % 8, srwd := b / 128 % 2 == 1, wel := false, dpd := false)
  {
    LastByteIn(d.ireg, b);
  }

  /** The second. */
  lemma ConfigEntered(d: Device, b: byte)
    requires d.Valid() && d.count == 16 && d.state == Wrsr
    ensures ByteStep(d, b).Some?
    ensures var e := ByteStep(d, b).value;
            && e == d.(ireg := e.ireg, oreg := e.oreg, count := 24, creg := e.creg)
            && e.creg == d.creg - d.creg / 2 % 2 * 2 + b / 2 % 2 * 2
  {
    LastByteIn(d.ireg, b);
  }

  /** A write of both registers, in the bits that it changes: block protection and
      write disable of the status, bit 1 of the configuration.  The part is busy
      for a while, with its write enable used up. */
  lemma RegistersWritten(d: Device, b0: byte, b1: byte)
    requires AtStart(d) && Ready(d) && d.status.WriteAllowed()
    ensures After(d, [0x01, b0, b1]).Some? && After(d, [0x01, b0, b1]).value.Valid()
    ensures var e := CsRise(After(d, [0x01, b0, b1]).value);
            && AtStart(e) && e.mem == d.mem && e.timer == 5000
            && e.status == d.status.(wip := true, wel := false, block := b0 / 4 % 8, srwd := b0 / 128 % 2 == 1)
            && e.creg == d.creg - d.creg / 2 % 2 * 2 + b1 / 2 % 2 * 2
  {
    CommandByte(d, 0x01, Wrsr);
    BytesOfWrite(d, b0, b1);
    hide After, AtStart, Ready, CsRise, Status.WriteAllowed;
    RegistersBusy(After(d, [0x01, b0, b1]).value);
  }

  lemma RegistersBusy(e: Device)
    requires e.Valid() && e.mode == Spi && e.state == Wrsr && !e.status.dpd
    ensures var f := CsRise(e);
            && AtStart(f) && f.mem == e.mem && f.timer == 5000 && f.creg == e.creg
            && f.status == e.status.(wip := true, wel := false)
  {
  }

  lemma BytesOfWrite(d: Device, b0: byte, b1: byte)
    requires AtStart(d) && Ready(d) && d.status.WriteAllowed()
    ensures After(d, [0x01, b0, b1]).Some?
    ensures var e := After(d, [0x01, b0, b1]).value;
            && e == d.(ireg := e.ireg, oreg := e.oreg, count := 24, state := Wrsr, status := e.status, creg := e.creg)
            && e.status == d.status.(wel := false, block := b0 / 4 % 8, srwd := b0 / 128 % 2 == 1)
            && e.creg == d.creg - d.creg / 2 % 2 * 2 + b1 / 2 % 2 * 2
  {
    CommandByte(d, 0x01, Wrsr);
    hide ByteStep, After, AtStart, Ready, Status.WriteAllowed;
    var d1 := After(d, [0x01]).value;
    StatusEntered(d1, b0);
    AfterMore(d, [0x01], b0);
    var d2 := ByteStep(d1, b0).value;
    assert d2.Valid();
    assert [0x01] + [b0] == [0x01, b0] && [0x01, b0] + [b1] == [0x01, b0, b1];
    ConfigEntered(d2, b1);
    AfterMore(d, [0x01, b0], b1);
  }

  /** The status register in eight bits. */
  lemma LowByteOf(s: Status)
    requires s.block < 8 && s.errors < 4
    ensures s.Low() % 256 ==
            (if s.wip then 1 else 0) + (if s.wel then 2 else 0) + s.block * 4 + s.errors * 32
            + (if s.srwd then 128 else 0)
  {
  }

  /** What the reads of the two registers load. */
  lemma RegistersRead(d: Device)
    requires AtStart(d)
    ensures ByteStep(d, 0x05).Some? && ByteStep(d, 0x35).Some?
    ensures ByteStep(d, 0x05).value.oreg % 256 == d.status.Low() % 256
    ensures ByteStep(d, 0x35).value.oreg % 256 == d.creg
  {
    hide Status.Low, ByteStep;
    FirstByte(d, 0x05);
    FirstByte(d, 0x35);
  }

  /** The write of the registers ends when its time is over. */
  lemma WriteEnds(e: Device)
    requires AtStart(e) && e.timer == 5000
    ensures var f := Age(e, 5000);
            AtStart(f) && Ready(f) && f.status == e.status.Expired() && f.creg == e.creg
  {
  }

  /** The reads while the write is in progress, and when it is over. */
  lemma ReadBack(e: Device, b0: byte)
    requires AtStart(e) && e.timer == 5000 && e.status == Status(true, false, b0 / 4 % 8, 0, b0 / 128 % 2 == 1, false)
    ensures var f := Age(e, 5000);
            && AtStart(f) && Ready(f)
            && ByteStep(e, 0x05).Some? && ByteStep(f, 0x05).Some? && ByteStep(f, 0x35).Some?
            && ByteStep(e, 0x05).value.oreg % 256 == 1 + b0 / 4 % 8 * 4 + b0 / 128 % 2 * 128
            && ByteStep(f, 0x05).value.oreg % 256 == b0 / 4 % 8 * 4 + b0 / 128 % 2 * 128
            && ByteStep(f, 0x35).value.oreg % 256 == e.creg
  {
    hide ByteStep, AtStart, Ready, Age, Status.Low;
    var f := Age(e, 5000);
    WriteEnds(e);
    RegistersRead(e);
    RegistersRead(f);
    LowByteOf(e.status);
    LowByteOf(f.status);
  }

  /** So the registers read back as written. */
  lemma RegistersReadBack(d: Device, b0: byte, b1: byte)
    requires AtStart(d) && Ready(d) && d.status.WriteAllowed() && d.status.errors == 0
    ensures After(d, [0x01, b0, b1]).Some? && After(d, [0x01, b0, b1]).value.Valid()
    ensures var e := CsRise(After(d, [0x01, b0, b1]).value);
            var f := Age(e, 5000);
            && AtStart(e) && AtStart(f) && Ready(f)
            && ByteStep(e, 0x05).Some? && ByteStep(f, 0x05).Some? && ByteStep(f, 0x35).Some?
            && ByteStep(e, 0x05).value.oreg % 256 == 1 + b0 / 4 % 8 * 4 + b0 / 128 % 2 * 128
            && ByteStep(f, 0x05).value.oreg % 256 == b0 / 4 % 8 * 4 + b0 / 128 % 2 * 128
            && ByteStep(f, 0x35).value.oreg % 256 == d.creg - d.creg / 2 % 2 * 2 + b1 / 2 % 2 * 2
  {
    RegistersWritten(d, b0, b1);
    hide ByteStep, After, AtStart, Ready, CsRise, Age, Device.Valid;
    WriteIsAllowed(d.status);
    ReadBack(CsRise(After(d, [0x01, b0, b1]).value), b0);
  }

  lemma WriteIsAllowed(s: Status)
    ensures s.WriteAllowed() ==> s.wel && !s.wip && !s.dpd
  {
  }

  // ---------- The whole part erased ----------

  /** The command 0xc7 clears the part. */
  lemma BulkErases(d: Device)
    requires AtStart(d) && Ready(d) && d.status.WriteAllowed()
    ensures After(d, [0xc7]).Some?
    ensures var e := CsRise(After(d, [0xc7]).value);
            && AtStart(e) && e.mem == seq(MEMBYTES, _ => 255)
            && e.status == d.status.(wip := true, wel := false) && e.timer == 3_200_000_000
  {
    CommandByte(d, 0xc7, BulkErase);
    var e := After(d, [0xc7]).value;
    hide After;
    ErasedAll(e.mem);
    hide Erase;
  }

  lemma ErasedAll(mem: seq<byte>)
    ensures Erase(mem, 0, |mem|) == seq(|mem|, _ => 255)
  {
  }

  // ---------- The fast read ----------

  /** Two address bytes of the fast read are only shifted in. */
  lemma FastMiddle(d: Device, b: byte)
    requires d.Valid() && (d.count == 8 || d.count == 16) && d.state == FastRead
    ensures ByteStep(d, b).Some?
    ensures var e := ByteStep(d, b).value;
            e == d.(ireg := Entered(d.ireg, b), count := d.count + 8, oreg := e.oreg)
  {
  }

  /** The last one sets the address. */
  lemma FastAddress(d: Device, b: byte)
    requires d.Valid() && d.count == 24 && d.state == FastRead
    ensures ByteStep(d, b).Some?
    ensures var e := ByteStep(d, b).value;
            e == d.(ireg := e.ireg, count := 32, oreg := e.oreg, addr := Entered(d.ireg, b) % MEMBYTES)
  {
  }

  /** From the dummy byte on, each byte fetches one. */
  lemma FastByte(d: Device, b: byte)
    requires d.Valid() && d.count >= 32 && d.count % 8 == 0 && d.state == FastRead && !d.status.wip
    ensures ByteStep(d, b).Some?
    ensures var e := ByteStep(d, b).value;
            && e == d.(ireg := e.ireg, count := d.count + 8, oreg := e.oreg, addr := d.addr + 1)
            && e.oreg % 256 == d.MemByte() && e.oreg / 256 % 2 == d.oreg % 2
  {
    hide Process, Device.WithLow, Entered;
    var x := d.(ireg := Entered(d.ireg, b), count := d.count + 8, oreg := Entered(d.oreg, 0));
    WireBit(d.oreg);
    assert x.MemByte() == d.MemByte() && |x.mem| == MEMBYTES && |x.pmem| == PAGE && ByteStep(d, b) == Process(x);
    hide Device.MemByte, Device.Valid, ByteStep;
    FastFetches(x);
  }

  lemma FastFetches(x: Device)
    requires |x.mem| == MEMBYTES && |x.pmem| == PAGE && x.count >= 40 && x.count % 8 == 0
    requires x.state == FastRead && !x.status.wip
    ensures Process(x).Some?
    ensures var e := Process(x).value;
            && e == x.(oreg := e.oreg, addr := x.addr + 1)
            && e.oreg % 256 == x.MemByte() && e.oreg / 256 == x.oreg / 256
  {
    hide Device.WithLow;
    WithLowSets(x, 0);
    WithLowSets(x.WithLow(0), x.MemByte());
  }

  /** A command, three bytes of an address, and a dummy byte; then the bytes from
      the address on are loaded one by one, each while the one before goes out. */
  lemma {:induction false} FastReads(d: Device, hi: byte, mid: byte, lo: byte, dummies: seq<byte>)
    requires AtStart(d) && Ready(d) && |dummies| > 0
    requires hi * 0x1_0000 + mid * 0x100 + lo + |dummies| <= MEMBYTES
    ensures After(d, [0x0b, hi, mid, lo] + dummies).Some?
    ensures var e, a := After(d, [0x0b, hi, mid, lo] + dummies).value, hi * 0x1_0000 + mid * 0x100 + lo;
            && e == d.(ireg := e.ireg, oreg := e.oreg, count := 32 + 8 * |dummies|, state := FastRead,
                       addr := a + |dummies|)
            && e.oreg % 256 == d.mem[a + |dummies| - 1]
    decreases |dummies|
  {
    hide ByteStep, After, Entered;
    var start, n := [0x0b, hi, mid, lo], |dummies|;
    var init, last := dummies[..n - 1], dummies[n - 1];
    assert start + dummies == start + init + [last];
    if n == 1 {
      FastStarts(d, hi, mid, lo);
      assert start + init == start;
    } else {
      FastReads(d, hi, mid, lo, init);
    }
    var e := After(d, start + init).value;
    AfterMore(d, start + init, last);
    FastByte(e, last);
  }

  lemma FastStarts(d: Device, hi: byte, mid: byte, lo: byte)
    requires AtStart(d) && Ready(d)
    ensures After(d, [0x0b, hi, mid, lo]).Some?
    ensures var e := After(d, [0x0b, hi, mid, lo]).value;
            e == d.(ireg := e.ireg, oreg := e.oreg, count := 32, state := FastRead,
                    addr := hi * 0x1_0000 + mid * 0x100 + lo)
  {
    AddressBytes(0x0b, hi, mid, lo);
    assert Entered(Entered(Entered(0x0b, hi), mid), lo) % MEMBYTES == hi * 0x1_0000 + mid * 0x100 + lo;
    hide ByteStep, After, Entered;
    FastHigh(d, hi, mid);
    var d3 := After(d, [0x0b, hi, mid]).value;
    FastAddress(d3, lo);
    AfterMore(d, [0x0b, hi, mid], lo);
    assert [0x0b, hi, mid] + [lo] == [0x0b, hi, mid, lo];
  }

  lemma FastHigh(d: Device, hi: byte, mid: byte)
    requires AtStart(d) && Ready(d)
    ensures After(d, [0x0b, hi, mid]).Some?
    ensures var e := After(d, [0x0b, hi, mid]).value;
            e == d.(ireg := Entered(Entered(0x0b, hi), mid), oreg := e.oreg, count := 24, state := FastRead)
  {
    CommandByte(d, 0x0b, FastRead);
    hide ByteStep, After, Entered, AtStart, Ready;
    var d1 := After(d, [0x0b]).value;
    FastMiddle(d1, hi);
    AfterMore(d, [0x0b], hi);
    var d2 := ByteStep(d1, hi).value;
    assert d2.Valid();
    assert [0x0b] + [hi] == [0x0b, hi] && [0x0b, hi] + [mid] == [0x0b, hi, mid];
    FastMiddle(d2, mid);
    AfterMore(d, [0x0b, hi], mid);
  }
}
