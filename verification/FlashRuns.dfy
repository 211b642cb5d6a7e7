/** What holds in every run of the flash device, whatever its pins are driven with. */
module FlashRuns {
  import opened Options
  import opened Bytes
  import opened FlashDevice

  datatype Pins = Pins(csn: bool, sck: bool, dat: nat)

  /** The part after power-up: any contents, any leftovers in the registers the
      constructor does not set. */
  predicate PowerOn(d: Device) {
    && d.Valid() && d.state == Idle && d.mode == Spi && d.lastSck && d.timer == 0
    && d.status == STATUS0
  }

  function Step(d: Device, p: Pins): Option<Device>
    requires |d.pmem| == PAGE
  {
    Tick(d, p.csn, p.sck, p.dat)
  }

  /** ds lists the states the device goes through when it is driven with ps. */
  ghost predicate IsRun(ds: seq<Device>, ps: seq<Pins>) {
    && |ds| == |ps| + 1
    && PowerOn(ds[0])
    && forall i :: 0 <= i < |ps| ==> |ds[i].pmem| == PAGE && Step(ds[i], ps[i]) == Some(ds[i + 1])
  }

  /** A program or an erase has been accepted and waits for the chip select to rise. */
  predicate Armed(d: Device) { d.state in {PP, QPP, SectorErase, BulkErase} }

  /** Invariant of every run. */
  predicate Inv(d: Device) { Sound(d) && (Pending(d) ==> d.count >= 8) }

  /** A write, of whatever kind, waits for the chip select to rise. */
  predicate Pending(d: Device) { Armed(d) || d.state == Wrsr }

  predicate Sound(d: Device) {
    && d.Valid() && d.state != DeepPowerDown
    && (d.status.wip ==> d.timer > 0)
    && (d.status.dpd ==> !d.status.wip)
    && (Pending(d) ==> !d.status.wip && !d.status.dpd)
  }

  /** With this call the device accepts a program or erase command: its eighth
      bit arrives, the write enable is set, and no write is in progress. */
  predicate Accepts(d: Device, p: Pins) {
    var a := Age(d, 1);
    && !p.csn && a.lastSck && !p.sck
    && var e := Shift(a, p.dat);
       && e.count == 8
       && e.ireg % 256 in {0x02, 0x32, 0xd8, 0xc7}
       && e.status.WriteAllowed()
  }

  /** after differs from before by an AND inside one page, or by one erased
      sector, or by the erasure of the whole part. */
  ghost predicate OneOperation(before: seq<byte>, after: seq<byte>, ticks: nat) {
    || (ticks == T_PP && exists base: nat, data: seq<byte> ::
          base % PAGE == 0 && |data| == PAGE && after == ProgramPage(before, base, data))
    || (ticks == T_SE && exists base: nat :: base % SECTOR == 0 && after == Erase(before, base, SECTOR))
    || (ticks == T_BE && after == Erase(before, 0, |before|))
  }

  function Decoding(d: Device): Option<Decoded> {
    Decode(d.ireg % 256, d.state, d.mode, d.status, d.timer, d.creg)
  }

  lemma DecodeSound(d: Device)
    requires Sound(d) && !Pending(d) && Decoding(d).Some?
    ensures var r := Decoding(d).value;
            && Sound(d.(state := r.state, mode := r.mode, status := r.status, timer := r.timer))
            && (r.state in {PP, QPP, SectorErase, BulkErase} ==>
                  d.ireg % 256 in {0x02, 0x32, 0xd8, 0xc7} && d.status.WriteAllowed())
  {
  }

  lemma CommandSound(d: Device)
    requires Sound(d) && !Pending(d) && Command(d).Some?
    ensures var e := Command(d).value;
            && Sound(e) && e.mem == d.mem && e.count == d.count
            && (Armed(e) ==> d.ireg % 256 in {0x02, 0x32, 0xd8, 0xc7} && d.status.WriteAllowed())
  {
    hide Decode;
    DecodeSound(d);
  }

  lemma DataByteSound(d: Device)
    requires Sound(d) && d.count > 8 && DataByte(d).Some?
    ensures var e := DataByte(d).value;
            Sound(e) && e.mem == d.mem && e.state == d.state && e.count == d.count
  {
    hide PageData;
    match d.state
    case PP | QPP => PageDataSound(d.WithLow(0));
    case _ =>
  }

  lemma PageDataSound(d: Device)
    requires Sound(d)
    ensures var e := PageData(d);
            e.Valid() && e.mem == d.mem && e.state == d.state && e.count == d.count
            && e.status == d.status && e.timer == d.timer
  {
  }

  lemma ProcessSound(d: Device)
    requires Sound(d) && (Pending(d) ==> d.count > 8) && Process(d).Some?
    ensures var e := Process(d).value;
            && Sound(e) && e.mem == d.mem && e.count == d.count
            && (Pending(e) ==> e.count >= 8)
            && (Armed(e) && !Armed(d) ==>
                  d.count == 8 && d.ireg % 256 in {0x02, 0x32, 0xd8, 0xc7} && d.status.WriteAllowed())
  {
    if d.state == QuadReadIdle || d.state == DualReadIdle {
    } else if d.count == 8 {
      CommandSound(d);
    } else if d.count % 8 == 0 && d.count != 0 {
      DataByteSound(d);
    }
  }

  lemma AgeSound(d: Device)
    requires Inv(d)
    ensures var a := Age(d, 1); Inv(a) && a == d.(timer := a.timer, status := a.status)
  {
  }

  lemma CsRiseSound(d: Device)
    requires Inv(d)
    ensures var e := CsRise(d); Inv(e) && !Pending(e) && (e.mem != d.mem ==> Armed(d))
  {
  }

  lemma ShiftSound(d: Device, dat: nat)
    requires Inv(d)
    ensures var e := Shift(d, dat);
            && Sound(e) && e.count > d.count && e.state == d.state && e.mem == d.mem
            && e.status == d.status && e.timer == d.timer
  {
  }

  lemma InvStep(d: Device, p: Pins)
    requires Inv(d) && Step(d, p).Some?
    ensures Inv(Step(d, p).value)
    ensures Armed(Step(d, p).value) ==> Accepts(d, p) || (Armed(d) && !p.csn)
    ensures Step(d, p).value.mem != d.mem ==> Armed(d) && p.csn
  {
    hide Process, Shift, CsRise;
    AgeSound(d);
    var a := Age(d, 1);
    if p.csn {
      CsRiseSound(a);
    } else if a.lastSck && !p.sck {
      ShiftSound(a, p.dat);
      ProcessSound(Shift(a, p.dat));
    }
  }

  lemma DecodeTimer(d: Device)
    requires Sound(d) && Decoding(d).Some?
    ensures Decoding(d).value.status.wip == d.status.wip
    ensures !d.status.dpd ==> Decoding(d).value.timer == d.timer
  {
  }

  lemma ProcessTimer(d: Device)
    requires Sound(d) && Process(d).Some?
    ensures Process(d).value.status.wip == d.status.wip
    ensures !d.status.dpd ==> Process(d).value.timer == d.timer
  {
    if d.state == QuadReadIdle || d.state == DualReadIdle {
    } else if d.count == 8 {
      DecodeTimer(d);
    } else if d.count % 8 == 0 && d.count != 0 {
      DataTimer(d);
      hide DataByte;
    }
  }

  lemma DataTimer(d: Device)
    requires Sound(d) && DataByte(d).Some?
    ensures DataByte(d).value.status.wip == d.status.wip && DataByte(d).value.timer == d.timer
  {
    match d.state
    case PP | QPP => PageDataSound(d);
    case _ =>
  }

  lemma TimerStep(d: Device, p: Pins)
    requires Inv(d) && Step(d, p).Some? && d.status.wip
    ensures var e := Step(d, p).value;
            && (if p.csn && d.state == Release then e.timer == T_RES else e.timer == d.timer - 1)
            && (e.status.wip <==> d.timer > 1)
  {
    hide Process, Shift, ProgramPage, Erase;
    AgeSound(d);
    var a := Age(d, 1);
    if p.csn {
    } else if a.lastSck && !p.sck {
      ShiftSound(a, p.dat);
      ProcessTimer(Shift(a, p.dat));
    }
  }

  /** A call that changes memory performs one operation and leaves the part busy. */
  lemma ChangeStep(d: Device, p: Pins)
    requires Inv(d) && Armed(d) && p.csn
    ensures Step(d, p).Some?
    ensures var e := Step(d, p).value;
            && OneOperation(d.mem, e.mem, e.timer)
            && e.status.wip && !e.status.wel && !Armed(e)
  {
    AgeSound(d);
    RiseChanges(Age(d, 1));
  }

  lemma RiseChanges(d: Device)
    requires d.Valid() && Armed(d)
    ensures var e := CsRise(d);
            && OneOperation(d.mem, e.mem, e.timer)
            && e.status.wip && !e.status.wel && !Armed(e)
  {
    hide ProgramPage, Erase;
    if d.state == SectorErase {
      assert SectorOf(d.addr) % SECTOR == 0;
      assert CsRise(d).mem == Erase(d.mem, SectorOf(d.addr), SECTOR);
    } else if d.state != BulkErase {
      assert PageOf(d.addr) % PAGE == 0;
      assert CsRise(d).mem == ProgramPage(d.mem, PageOf(d.addr), d.pmem);
    }
  }

  lemma StepOf(ds: seq<Device>, ps: seq<Pins>, i: nat)
    requires IsRun(ds, ps) && i < |ps|
    ensures |ds[i].pmem| == PAGE && Step(ds[i], ps[i]) == Some(ds[i + 1])
  {
  }

  lemma {:induction false} RunInv(ds: seq<Device>, ps: seq<Pins>, i: nat)
    requires IsRun(ds, ps) && i < |ds|
    ensures Inv(ds[i])
  {
    if i > 0 {
      RunInv(ds, ps, i - 1);
      StepOf(ds, ps, i - 1);
      InvStep(ds[i - 1], ps[i - 1]);
    }
  }

  /** An armed device accepted its command in the current chip select. */
  lemma {:induction false} ArmedBy(ds: seq<Device>, ps: seq<Pins>, i: nat) returns (j: nat)
    requires IsRun(ds, ps) && i < |ds| && Armed(ds[i])
    ensures j < i && Accepts(ds[j], ps[j])
    ensures forall k :: j <= k < i ==> !ps[k].csn
  {
    assert i > 0;
    RunInv(ds, ps, i - 1);
    StepOf(ds, ps, i - 1);
    InvStep(ds[i - 1], ps[i - 1]);
    if Accepts(ds[i - 1], ps[i - 1]) {
      j := i - 1;
    } else {
      j := ArmedBy(ds, ps, i - 1);
    }
  }

  /** In every run, memory changes only when the chip select rises on a command
      that was accepted, under the same chip select, with WEL set and WIP clear;
      the change is one page program or one erase, and it leaves the part busy
      with its write enable used up. */
  lemma MemoryChanges(ds: seq<Device>, ps: seq<Pins>, i: nat)
    requires IsRun(ds, ps) && i < |ps|
    requires ds[i + 1].mem != ds[i].mem
    ensures ps[i].csn
    ensures exists j :: 0 <= j < i && Accepts(ds[j], ps[j]) && forall k :: j <= k < i ==> !ps[k].csn
    ensures OneOperation(ds[i].mem, ds[i + 1].mem, ds[i + 1].timer)
    ensures ds[i + 1].status.wip && !ds[i + 1].status.wel
    ensures ds[i + 1].timer in {1_200, 1_500_000, 3_200_000_000}
  {
    RunInv(ds, ps, i);
    StepOf(ds, ps, i);
    InvStep(ds[i], ps[i]);
    ChangeStep(ds[i], ps[i]);
    var j := ArmedBy(ds, ps, i);
  }

  /** While a write is in progress memory does not change. */
  lemma BusyKeepsMemory(ds: seq<Device>, ps: seq<Pins>, i: nat)
    requires IsRun(ds, ps) && i < |ps| && ds[i].status.wip
    ensures ds[i + 1].mem == ds[i].mem
  {
    RunInv(ds, ps, i);
    StepOf(ds, ps, i);
    InvStep(ds[i], ps[i]);
  }

  /** A write in progress has a positive timer.  The timer falls on the next
      call unless the chip select rises on a wake-up command (0xab), which
      starts the timer again from T_RES. */
  lemma TimerFalls(ds: seq<Device>, ps: seq<Pins>, i: nat)
    requires IsRun(ds, ps) && i < |ps| && ds[i].status.wip
    ensures ds[i].timer > 0
    ensures ds[i + 1].timer < ds[i].timer
       <==> !(ps[i].csn && ds[i].state == Release) || T_RES < ds[i].timer
    ensures !ds[i + 1].status.wip <==> ds[i].timer == 1
  {
    RunInv(ds, ps, i);
    StepOf(ds, ps, i);
    TimerStep(ds[i], ps[i]);
  }
}
