/** The simulator object FLASHSIM: its fields, and operator() as it updates them in place. */
module FlashSimulator {
  import opened Options
  import opened Bytes
  import opened FlashDevice

  /** The operations on the memory array, in the order they happen. */
  datatype Event = Programmed(page: nat) | Erased(sector: nat) | ErasedAll

  /** The operation that a call with the chip select high performs. */
  function EventsOf(d: Device, csn: bool): seq<Event> {
    if !csn then []
    else match d.state
    case PP | QPP => [Programmed(PageOf(d.addr))]
    case SectorErase => [Erased(SectorOf(d.addr))]
    case BulkErase => [ErasedAll]
    case _ => []
  }

  /** The output register when its low byte has been loaded. */
  function LowSet(x: nat, v: nat): nat { x - x % 256 + v % 256 }

  /** The byte loaded last is the one that is shifted out. */
  lemma LowSetTwice(x: nat, u: nat)
    ensures forall v :: LowSet(LowSet(x, u), v) == LowSet(x, v)
  {
  }

  class FlashSim {
    const mem: array<byte>
    const pmem: array<byte>
    var state: State
    var mode: Mode
    var lastSck: bool
    var writeCount: nat
    var ireg: nat
    var oreg: nat
    var sreg: Status
    var creg: byte
    var addr: nat
    var count: nat
    var modeByte: byte
    ghost var log: seq<Event>

    ghost predicate Valid()
      reads this, mem, pmem
    {
      && mem != pmem
      && View().Valid()
    }

    /** The object as a value of the pure model. */
    ghost function View(): Device
      reads this, mem, pmem
    {
      Device(mem[..], pmem[..], state, mode, lastSck, writeCount, ireg, oreg, sreg, creg, addr, count, modeByte)
    }

    constructor ()
      ensures Valid() && fresh(mem) && fresh(pmem) && log == []
      ensures state == Idle && mode == Spi && lastSck && writeCount == 0
      ensures sreg == STATUS0
      ensures mem[..] == seq(MEMBYTES, _ => 255)
    {
      var m, p := new byte[MEMBYTES](_ => 255), new byte[PAGE](_ => 0);
      mem, pmem := m, p;
      state, mode, lastSck, writeCount := Idle, Spi, true, 0;
      ireg, oreg, sreg, creg := 0, 0, STATUS0, 1;
      addr, count, modeByte := 0, 0, 0;
      log := [];
    }

    /** One call of operator().  It is dead when an assertion fired or the
        process ended, otherwise it returns the four data lines. */
    method Operator(csn: bool, sck: bool, dat: nat) returns (alive: bool, out: nat)
      requires Valid()
      modifies this, mem, pmem
      ensures Valid()
      ensures alive <==> Tick(old(View()), csn, sck, dat).Some?
      ensures alive ==> View() == Tick(old(View()), csn, sck, dat).value
      ensures alive ==> out == if csn then dat else View().Output(dat)
      ensures log == old(log) + EventsOf(old(View()), csn)
    {
      if writeCount > 0 {
        writeCount := writeCount - 1;
        if writeCount == 0 {
          sreg := sreg.Expired();
        }
      }
      assert View() == Age(old(View()), 1);
      if csn {
        ChipSelectHigh();
        return true, dat;
      }
      if !lastSck || sck == lastSck {
        lastSck := sck;
      } else {
        ShiftIn(dat);
        alive := ProcessBits();
        if !alive {
          return false, 0;
        }
        lastSck := sck;
      }
      return true, CurrentOutput(dat);
    }

    function CurrentOutput(dat: nat): (r: nat)
      reads this, mem, pmem
      ensures r == View().Output(dat)
    {
      match mode
      case Qspi => oreg / 256 % 16
      case Dspi => oreg / 256 % 4 + dat / 4 % 4 * 4
      case Spi => (if oreg / 256 % 2 == 1 then 2 else 0) + dat / 4 % 4 * 4 + dat % 2
    }

    method StartTimer(ticks: nat)
      modifies this`writeCount, this`state, this`sreg
      ensures writeCount == ticks && state == Idle && sreg == old(sreg).(wel := false, wip := true)
    {
      writeCount := ticks;
      state := Idle;
      sreg := sreg.(wel := false, wip := true);
    }

    /** m_mem[base + i] &= m_pmem[i] for the 256 bytes of a page. */
    method AndPage(base: nat)
      requires Valid()
      modifies mem
      ensures mem[..] == ProgramPage(old(mem[..]), base, pmem[..])
    {
      for i := 0 to PAGE
        invariant forall j :: 0 <= j < mem.Length ==>
          mem[j] == if base <= j < base + i then And8(old(mem[j]), pmem[j - base]) else old(mem[j])
      {
        if base + i < mem.Length {
          mem[base + i] := And8(mem[base + i], pmem[i]);
        }
      }
    }

    /** m_mem[base + i] = 0xff for n bytes. */
    method EraseFrom(base: nat, n: nat)
      requires Valid()
      modifies mem
      ensures mem[..] == Erase(old(mem[..]), base, n)
    {
      for i := 0 to n
        invariant forall j :: 0 <= j < mem.Length ==>
          mem[j] == if base <= j < base + i then 255 else old(mem[j])
      {
        if base + i < mem.Length {
          mem[base + i] := 255;
        }
      }
    }

    method FinishProgram()
      requires Valid()
      modifies this`writeCount, this`state, this`sreg, this`mode, mem
      ensures Valid()
      ensures View() == old(View().Busy(T_PP).(mem := ProgramPage(mem[..], PageOf(addr), pmem[..]), mode := Spi))
    {
      StartTimer(T_PP);
      AndPage(PageOf(addr));
      mode := Spi;
    }

    method FinishSectorErase()
      requires Valid()
      modifies this`writeCount, this`state, this`sreg, this`addr, mem
      ensures Valid()
      ensures View() == old(View().Busy(T_SE).(addr := SectorOf(addr), mem := Erase(mem[..], SectorOf(addr), SECTOR)))
    {
      StartTimer(T_SE);
      addr := SectorOf(addr);
      EraseFrom(addr, SECTOR);
    }

    method FinishBulkErase()
      requires Valid()
      modifies this`writeCount, this`state, this`sreg, mem
      ensures Valid()
      ensures View() == old(View().Busy(T_BE).(mem := Erase(mem[..], 0, |mem[..]|)))
    {
      StartTimer(T_BE);
      EraseFrom(0, mem.Length);
    }

    method FinishRead(idle: State)
      modifies this`mode, this`state
      ensures if modeByte / 16 != 0xa then mode == Spi && state == old(state)
              else mode == old(mode) && state == idle
    {
      if modeByte / 16 != 0xa { mode := Spi; } else { state := idle; }
    }

    /** The branch of operator() for a high chip select. */
    method ChipSelectHigh()
      requires Valid()
      modifies this, mem
      ensures Valid()
      ensures View() == CsRise(old(View()))
      ensures log == old(log) + EventsOf(old(View()), true)
    {
      log := log + EventsOf(View(), true);
      lastSck, ireg, oreg, count := true, 0, 0xfe, 0;
      EndCommand();
    }

    /** What the chip select finishes when it rises, by state. */
    method EndCommand()
      requires Valid() && lastSck && ireg == 0 && oreg == 0xfe && count == 0
      modifies this`writeCount, this`state, this`sreg, this`mode, this`addr, mem
      ensures Valid() && View() == CsRise(old(View()))
    {
      match state
      case PP | QPP => FinishProgram();
      case SectorErase => FinishSectorErase();
      case Wrsr => StartTimer(T_W);
      case Clsr => state := Idle; sreg := sreg.(errors := 0, dpd := false);
      case BulkErase => FinishBulkErase();
      case DeepPowerDown => writeCount, state := T_DP, Idle;
      case Release => writeCount, state := T_RES, Idle;
      case QuadReadCmd | QuadRead => FinishRead(QuadReadIdle);
      case DualReadCmd | DualRead => FinishRead(DualReadIdle);
      case _ =>
    }

    method ShiftIn(dat: nat)
      requires Valid()
      modifies this`ireg, this`count, this`oreg
      ensures Valid() && View() == Shift(old(View()), dat)
    {
      match mode
      case Qspi => ireg, count, oreg := (ireg * 16 + dat % 16) % WORD, count + 4, oreg * 16 % WORD;
      case Dspi => ireg, count, oreg := (ireg * 4 + dat % 4) % WORD, count + 2, oreg * 4 % WORD;
      case Spi => ireg, count, oreg := (ireg * 2 + dat % 2) % WORD, count + 1, oreg * 2 % WORD;
    }

    method SetLow(v: nat)
      requires Valid()
      modifies this`oreg
      ensures Valid() && View() == old(View()).WithLow(v)
    {
      oreg := oreg - oreg % 256 + v % 256;
    }

    method FetchByte()
      requires Valid()
      modifies this`oreg, this`addr
      ensures Valid() && View() == old(View()).Fetch()
    {
      SetLow(if addr < mem.Length then mem[addr] else 0);
      addr := addr + 1;
    }

    method ProcessBits() returns (alive: bool)
      requires Valid()
      modifies this, pmem
      ensures Valid() && log == old(log)
      ensures alive <==> Process(old(View())).Some?
      ensures alive ==> View() == Process(old(View())).value
    {
      hide Command, DataByte;
      alive := true;
      if state == QuadReadIdle || state == DualReadIdle {
        if sreg.dpd || mode != (if state == QuadReadIdle then Qspi else Dspi) {
          return false;
        }
        if count == 24 {
          addr := ireg % MEMBYTES;
          state := if state == QuadReadIdle then QuadRead else DualRead;
        }
        oreg := 0;
      } else if count == 8 {
        alive := DecodeCommand();
      } else if count % 8 == 0 && count != 0 {
        alive := TakeByte();
      }
    }

    /** A command that needs the write enable, and no write in progress. */
    method Accept(next: State)
      modifies this`state
      ensures state == if sreg.WriteAllowed() then next else Invalid
    {
      if !sreg.wel || sreg.wip || sreg.dpd {
        state := Invalid;
      } else {
        state := next;
      }
    }

    method Load(v: nat)
      modifies this`oreg
      ensures oreg == LowSet(old(oreg), v)
    {
      oreg := oreg - oreg % 256 + v % 256;
    }

    /** The command byte is complete. */
    method DecodeCommand() returns (alive: bool)
      requires Valid()
      modifies this
      ensures Valid() && log == old(log)
      ensures alive <==> Command(old(View())).Some?
      ensures alive ==> View() == Command(old(View())).value
    {
      hide Decode;
      alive := Switch(ireg % 256);
    }

    /** The switch over the command byte. */
    method Switch(cmd: nat) returns (alive: bool)
      modifies this`state, this`mode, this`sreg, this`writeCount, this`oreg
      ensures var r := Decode(cmd, old(state), old(mode), old(sreg), old(writeCount), creg);
              && (alive <==> r.Some?)
              && (alive ==> r.value == Decoded(state, mode, sreg, writeCount, r.value.low)
                            && oreg == LowSet(old(oreg), r.value.low))
    {
      hide LowSet, Status.Low;
      alive := true;
      Load(0xa5);
      LowSetTwice(old(oreg), 0xa5);
      if sreg.dpd && cmd != 0xab {
        return;
      }
      match cmd
      case 0x01 => Accept(Wrsr);
      case 0x02 => Accept(PP);
      case 0x03 => state := SlowRead;
      case 0x04 => state := Idle; sreg := sreg.(wel := false);
      case 0x05 => state := Rdsr; Load(sreg.Low());
      case 0x06 => state := Idle; sreg := sreg.(wel := true);
      case 0x0b => state := FastRead;
      case 0x30 => state := Clsr;
      case 0x32 => Accept(QPP);
      case 0x35 => state := Rdcr; Load(creg);
      case 0x50 => state := Idle; Load(0);
      case 0x61 => state := Idle; Load(0);
      case 0x70 => state := Idle; Load(0);
      case 0x81 => Load(0);
      case 0x9f => state := Rdid; Load(DEVID / 0x100_0000);
      case 0xab =>
        if sreg.dpd {
          sreg := sreg.(dpd := false);
          writeCount := T_RES;
        }
        state := Release;
      case 0xb9 =>
        if sreg.wip {
          state := Invalid;
        } else {
          sreg := sreg.(dpd := true);
          state := Idle;
        }
      case 0xbb => state := DualReadCmd; mode := Dspi;
      case 0xc7 => Accept(BulkErase);
      case 0xd8 => Accept(SectorErase);
      case 0xeb => state := QuadReadCmd; mode := Qspi;
      case 0x00 => state := Idle; mode := Spi;
      case 0x31 => state := Idle; mode := Spi;
      case 0xff => state := Idle; mode := Spi;
      case _ => state := Invalid; alive := false;
    }

    method ClearPageBuffer()
      requires Valid()
      modifies pmem
      ensures mem[..] == old(mem[..]) && pmem[..] == seq(PAGE, _ => 255)
    {
      for i := 0 to PAGE
        invariant mem[..] == old(mem[..])
        invariant forall j :: 0 <= j < i ==> pmem[j] == 255
      {
        pmem[i] := 255;
      }
    }

    method TakePageData()
      requires Valid()
      modifies this`addr, this`mode, pmem
      ensures Valid() && View() == PageData(old(View()))
    {
      if count == 32 {
        addr := ireg % MEMBYTES;
        if state == QPP { mode := Qspi; }
        ClearPageBuffer();
      } else if count >= 40 {
        pmem[addr % PAGE] := ireg % 256;
        addr := PageOf(addr) + (addr + 1) % PAGE;
      }
    }

    method TakeReadByte()
      requires Valid()
      modifies this`addr, this`modeByte, this`oreg
      ensures Valid() && View() == ReadData(old(View()))
    {
      var low := ireg % 256;
      match state
      case SlowRead =>
        if count == 32 { addr := ireg % MEMBYTES; FetchByte(); }
        else if count >= 40 && !sreg.wip { FetchByte(); }
        else { oreg := 0; }
      case FastRead =>
        if count == 32 { addr := ireg % MEMBYTES; SetLow(0xc3); }
        else if count >= 40 && !sreg.wip { FetchByte(); }
        else { oreg := 0; }
      case DualReadCmd =>
        if count == 32 { addr := ireg % MEMBYTES; }
        else if count == 40 && !sreg.wip { modeByte := low; FetchByte(); }
        else if count > 40 && !sreg.wip { FetchByte(); }
        else { oreg := 0; }
      case QuadReadCmd =>
        if count == 32 { addr := ireg % MEMBYTES; }
        else if count == 40 { modeByte := low; }
        else if count > 32 + 4 * NDUMMY && !sreg.wip { FetchByte(); }
        else { oreg := 0; }
      case DualRead =>
        if count == 32 { modeByte := low; }
        FetchByte();
      case QuadRead =>
        if count == 32 { modeByte := low; }
        else if count >= 24 + 4 * NDUMMY && !sreg.wip { FetchByte(); }
        else { oreg := 0; }
      case _ =>
    }

    method TakeByte() returns (alive: bool)
      requires Valid()
      modifies this, pmem
      ensures Valid() && log == old(log)
      ensures alive <==> DataByte(old(View())).Some?
      ensures alive ==> View() == DataByte(old(View())).value
    {
      hide ReadData, PageData;
      alive := true;
      SetLow(0);
      var low := ireg % 256;
      match state
      case Wrsr =>
        if count == 16 {
          sreg := sreg.(block := low / 4 % 8, srwd := low / 128 % 2 == 1, wel := false, dpd := false);
        } else if count == 24 {
          creg := creg - creg / 2 % 2 * 2 + low / 2 % 2 * 2;
        } else {
          alive := false;
        }
      case Clsr => alive := false;
      case Rdid =>
        SetLow(if count == 16 then DEVID / 0x1_0000 else if count == 24 then DEVID / 256
               else if count == 32 then DEVID else 0);
      case Rdsr => SetLow(sreg.Low());
      case Rdcr => SetLow(creg);
      case SlowRead | FastRead | DualReadCmd | QuadReadCmd | DualRead | QuadRead => TakeReadByte();
      case PP | QPP => TakePageData();
      case SectorErase =>
        if count == 32 {
          addr := ireg % MEMBYTES / 0x4000 * 0x4000;
          alive := addr < ERASABLE;
        }
      case Release =>
        if count >= 32 { SetLow(DEVESD); }
      case _ =>
    }
  }
}
