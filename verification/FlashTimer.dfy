/** A run of the flash device in which its write timer rises while a write is in
    progress: the wake-up command 0xab starts it again. */
module FlashTimer {
  import opened Options
  import opened Bytes
  import opened FlashDevice
  import opened FlashRuns
  import opened FlashBus
  import FlashDriver

  /** A run that ends in d. */
  ghost predicate Reaches(ds: seq<Device>, ps: seq<Pins>, d: Device) {
    IsRun(ds, ps) && ds[|ps|] == d && |d.pmem| == PAGE
  }

  /** One more call. */
  lemma Extend(ds: seq<Device>, ps: seq<Pins>, d: Device, p: Pins, e: Device) returns (ds': seq<Device>, ps': seq<Pins>)
    requires Reaches(ds, ps, d) && Step(d, p) == Some(e) && |e.pmem| == PAGE
    ensures Reaches(ds', ps', e) && ps' == ps + [p] && ds' == ds + [e]
  {
    hide Tick, PowerOn;
    ds', ps' := ds + [e], ps + [p];
    forall i | 0 <= i < |ps'|
      ensures |ds'[i].pmem| == PAGE && Step(ds'[i], ps'[i]) == Some(ds'[i + 1])
    {
      if i < |ps| {
        StepOf(ds, ps, i);
      }
    }
  }

  /** A clock period. */
  lemma Period(ds: seq<Device>, ps: seq<Pins>, d: Device, bit: nat, e: Device)
    returns (ds': seq<Device>, ps': seq<Pins>)
    requires Reaches(ds, ps, d) && e.Valid() && e.lastSck
    requires Tick(d, false, false, bit) == Some(e.(lastSck := false))
    ensures Reaches(ds', ps', Age(e, 1))
  {
    AgeValid(e, 1);
    NoFallingEdge(e, 0);
    hide Tick, Age, IsRun;
    var x := e.(lastSck := false);
    ds', ps' := Extend(ds, ps, d, Pins(false, false, bit), x);
    ds', ps' := Extend(ds', ps', x, Pins(false, true, 0), Age(e, 1));
  }

  lemma RiseStep(d: Device)
    requires |d.pmem| == PAGE
    ensures Step(d, Pins(true, true, 0)) == Some(CsRise(Age(d, 1))) && |CsRise(Age(d, 1)).pmem| == PAGE
  {
  }

  /** The chip select goes high. */
  lemma Rise(ds: seq<Device>, ps: seq<Pins>, d: Device) returns (ds': seq<Device>, ps': seq<Pins>)
    requires Reaches(ds, ps, d)
    ensures Reaches(ds', ps', CsRise(Age(d, 1))) && |ps'| == |ps| + 1 && ds'[|ps|] == d
  {
    hide PowerOn, Tick;
    assert Step(d, Pins(true, true, 0)) == Some(CsRise(Age(d, 1))) by { RiseStep(d); }
    ds', ps' := Extend(ds, ps, d, Pins(true, true, 0), CsRise(Age(d, 1)));
  }

  /** A byte without pauses. */
  lemma SendByte(ds: seq<Device>, ps: seq<Pins>, d: Device, b: byte) returns (ds': seq<Device>, ps': seq<Pins>)
    requires Reaches(ds, ps, d) && Listening(d) && Age(d, 15).Valid() && ByteStep(Age(d, 15), b).Some?
    ensures Reaches(ds', ps', Age(ByteStep(Age(d, 15), b).value, 1))
  {
    hide Tick, Age, ByteStep, Shifted, Bit, Reaches;
    AgeNone(d);
    ShiftedNone(d, b);
    ds', ps' := ds, ps;
    for i := 0 to 7
      invariant Reaches(ds', ps', Age(Shifted(d, b, i), 2 * i))
    {
      EarlierBit(d, b, i, 2 * i);
      ds', ps' := Period(ds', ps', Age(Shifted(d, b, i), 2 * i), Bit(b, i), Age(Shifted(d, b, i + 1), 2 * i + 1));
    }
    LastBit(d, b, 14);
    ds', ps' := Period(ds', ps', Age(Shifted(d, b, 7), 14), Bit(b, 7), ByteStep(Age(d, 15), b).value);
  }

  /** A command byte and the chip select, on a part at the start of a command. */
  lemma SendCommand(ds: seq<Device>, ps: seq<Pins>, d: Device, b: byte, next: Decoded)
    returns (ds': seq<Device>, ps': seq<Pins>, e: Device)
    requires Reaches(ds, ps, d) && Listening(d) && d.count == 0 && d.ireg == 0 && (d.timer == 0 || d.timer > 17)
    requires var a := Age(d, 15); Decode(b, a.state, a.mode, a.status, a.timer, a.creg) == Some(next)
    requires next.timer == 0 <==> d.timer == 0
    ensures Reaches(ds', ps', e)
    ensures e == Age(d, 15).(ireg := b, oreg := e.oreg, count := 8, state := next.state, mode := next.mode,
                             status := next.status, timer := e.timer)
    ensures e.timer == if next.timer == 0 then 0 else next.timer - 1
  {
    AgeValid(d, 15);
    FlashDriver.FirstByte(Age(d, 15), b);
    hide ByteStep, Decode, Reaches;
    e := Age(ByteStep(Age(d, 15), b).value, 1);
    ds', ps' := SendByte(ds, ps, d, b);
  }

  /** Right after power-up. */
  function PowerUp(): Device {
    Device(seq(MEMBYTES, _ => 255), seq(PAGE, _ => 0), Idle, Spi, true, 0, 0, 0, STATUS0, 1, 0, 0, 0)
  }

  lemma Starts()
    ensures Reaches([PowerUp()], [], PowerUp())
  {
  }

  /** A run to a part that is busy erasing, at the start of a command. */
  lemma BusyErasing() returns (ds: seq<Device>, ps: seq<Pins>, d: Device)
    ensures Reaches(ds, ps, d) && Listening(d) && d.count == 0 && d.ireg == 0
    ensures d.status.wip && !d.status.dpd && d.timer == T_SE && d.state == Idle
  {
    hide ProgramPage, Erase, Reaches;
    var d0 := PowerUp();
    ds, ps := [d0], [];
    Starts();
    ds, ps := Rise(ds, ps, d0);
    var e;
    ds, ps, e := SendCommand(ds, ps, CsRise(d0), 0x06, Decoded(Idle, Spi, STATUS0.(wel := true), 0, 0xa5));
    ds, ps := Rise(ds, ps, e);
    ds, ps, e := SendCommand(ds, ps, CsRise(e), 0xd8, Decoded(SectorErase, Spi, e.status, 0, 0xa5));
    d := CsRise(e);
    ds, ps := Rise(ds, ps, e);
  }

  /** The input on which the timer rises although a write is in progress: the
      wake-up command to a part that is erasing. */
  lemma TimerRises() returns (ds: seq<Device>, ps: seq<Pins>, i: nat)
    ensures IsRun(ds, ps) && i < |ps|
    ensures ds[i].status.wip && ds[i + 1].status.wip && ds[i].timer < T_SE && ds[i + 1].timer == T_RES
  {
    hide ProgramPage, Erase;
    var d, e;
    ds, ps, d := BusyErasing();
    ds, ps, e := SendCommand(ds, ps, d, 0xab, Decoded(Release, Spi, d.status, T_SE - 15, 0xa5));
    i := |ps|;
    ds, ps := Rise(ds, ps, e);
  }
}
