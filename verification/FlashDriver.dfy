/** The flash driver of sw/host/flashdrvr.cpp, built for an SPI flash, on top
    of the simulated part. */
module FlashDriver {
  import opened Options
  import opened Bytes
  import opened FlashDevice
  import opened FlashSimulator
  import opened FlashReset
  import opened FlashBus
  import opened FlashSpec
  import Division

  // FLASHBASE of sw/host/regdefs.h:175
  const FLASHBASE: nat := 0x900_0000

  // The commands the driver sends (sw/host/flashdrvr.cpp:72-82)
  const F_PP: byte := 0x02
  const F_READ: byte := 0x03
  const F_WRDI: byte := 0x04
  const F_RDSR1: byte := 0x05
  const F_WREN: byte := 0x06
  const F_SE: byte := 0xd8
  const F_MFRID: byte := 0x9f

  // What the driver takes for the identity of a part it has not asked
  const FLASH_UNKNOWN: nat := 0

  /** The part takes bytes at its SPI pins; a write may be in progress. */
  predicate Awake(d: Device) {
    && d.Valid() && Calm(d) && d.lastSck && d.count % 8 == 0 && !d.status.dpd
    && (d.status.wip <==> d.timer > 0)
  }

  /** No write is in progress. */
  predicate Ready(d: Device) { Awake(d) && d.timer == 0 }

  /** Awake, at the start of a command. */
  predicate AtStart(d: Device) { Awake(d) && d.count == 0 && d.ireg == 0 }

  lemma ReadySettles(d: Device)
    requires Ready(d)
    ensures Settled(d)
  {
  }

  lemma SelectedStarts(d: Device)
    requires Selected(d) && d.mode == Spi
    ensures Ready(d) && AtStart(d)
  {
  }

  lemma AwakeAge(d: Device, n: nat)
    requires Awake(d)
    ensures Awake(Age(d, n)) && Age(d, n) == d.(timer := Age(d, n).timer, status := Age(d, n).status)
    ensures Age(d, n).timer <= d.timer && (n > 0 && d.timer > 0 ==> Age(d, n).timer < d.timer)
    ensures Age(d, n).timer > 0 || d.timer == 0 ==> Age(d, n).status == d.status
  {
  }

  lemma RiseCalm(d: Device)
    requires Awake(d)
    ensures CsRise(d) == d.(ireg := 0, oreg := 0xfe, count := 0) && AtStart(CsRise(d))
    ensures EventsOf(d, true) == []
  {
  }

  /** The first byte of a command sets what Decode says. */
  lemma FirstByte(d: Device, b: byte)
    requires d.Valid() && d.count == 0 && d.ireg == 0 && d.state != QuadReadIdle && d.state != DualReadIdle
    ensures match Decode(b, d.state, d.mode, d.status, d.timer, d.creg)
            case None => ByteStep(d, b) == None
            case Some(r) =>
              && ByteStep(d, b).Some?
              && var e := ByteStep(d, b).value;
              && e == d.(ireg := b, oreg := e.oreg, count := 8,
                         state := r.state, mode := r.mode, status := r.status, timer := r.timer)
              && e.oreg % 256 == r.low % 256
  {
    hide Decode;
  }

  /** The high and the middle address byte are only shifted in. */
  lemma MiddleByte(d: Device, b: byte)
    requires d.Valid() && (d.count == 8 || d.count == 16) && d.state in {PP, SectorErase, SlowRead}
    ensures ByteStep(d, b).Some?
    ensures var e := ByteStep(d, b).value;
            e == d.(ireg := Entered(d.ireg, b), count := d.count + 8, oreg := e.oreg)
  {
  }

  /** The last address byte gives the command its address. */
  lemma ProgramAddress(d: Device, b: byte)
    requires d.Valid() && d.count == 24 && d.state == PP
    ensures ByteStep(d, b).Some?
    ensures var e := ByteStep(d, b).value;
            e == d.(ireg := e.ireg, count := 32, oreg := e.oreg,
                    addr := Entered(d.ireg, b) % MEMBYTES, pmem := seq(PAGE, _ => 255))
  {
  }

  lemma EraseAddress(d: Device, b: byte)
    requires d.Valid() && d.count == 24 && d.state == SectorErase
    ensures ByteStep(d, b).Some? <==> Entered(d.ireg, b) % MEMBYTES < ERASABLE
    ensures ByteStep(d, b).Some? ==>
            var e := ByteStep(d, b).value;
            e == d.(ireg := e.ireg, count := 32, oreg := e.oreg,
                    addr := Entered(d.ireg, b) % MEMBYTES / 0x4000 * 0x4000)
  {
    Rounded(Entered(d.ireg, b) % MEMBYTES);
    hide Entered;
  }

  lemma Rounded(a: nat)
    ensures a / 0x4000 * 0x4000 < ERASABLE <==> a < ERASABLE
  {
  }

  /** An input on which the part stops: the erase of the sector at 0x400000. */
  lemma EraseStops(d: Device)
    requires d.Valid() && d.count == 24 && d.state == SectorErase && d.ireg == 0xd84000
    ensures ByteStep(d, 0) == None
  {
    EraseAddress(d, 0);
  }

  lemma ReadAddress(d: Device, b: byte)
    requires d.Valid() && d.count == 24 && d.state == SlowRead
    ensures ByteStep(d, b).Some?
    ensures var e, a := ByteStep(d, b).value, Entered(d.ireg, b) % MEMBYTES;
            && e == d.(ireg := e.ireg, count := 32, oreg := e.oreg, addr := a + 1)
            && e.oreg % 256 == d.mem[a]
  {
    var x := d.(ireg := Entered(d.ireg, b), count := 32, oreg := Entered(d.oreg, 0));
    assert |x.mem| == MEMBYTES && |x.pmem| == PAGE && ByteStep(d, b) == Process(x);
    hide Process, Device.Valid, ByteStep, Entered;
    AddressFetches(x);
  }

  /** The reading command fetches its first byte when it has its address. */
  lemma AddressFetches(x: Device)
    requires |x.mem| == MEMBYTES && |x.pmem| == PAGE && x.count == 32 && x.state == SlowRead
    ensures Process(x).Some?
    ensures var e, a := Process(x).value, x.ireg % MEMBYTES;
            && e == x.(oreg := e.oreg, addr := a + 1) && e.oreg % 256 == x.mem[a]
  {
    hide Device.WithLow;
    WithLowSets(x, 0);
    var y := x.WithLow(0).(addr := x.ireg % MEMBYTES);
    WithLowSets(y, y.MemByte());
  }

  /** Loading the output register changes nothing else, and not the bit on the wire. */
  lemma WithLowSets(d: Device, v: nat)
    ensures var e := d.WithLow(v);
            e == d.(oreg := e.oreg) && e.oreg % 256 == v % 256 && e.oreg / 256 == d.oreg / 256
  {
  }

  /** e is d after the last byte of the address a. */
  predicate Addressed(d: Device, e: Device, a: nat) {
    && e == d.(ireg := e.ireg, count := 32, oreg := e.oreg, addr := e.addr, pmem := e.pmem)
    && (d.state == PP ==> e.addr == a && e.pmem == seq(PAGE, _ => 255))
    && (d.state == SectorErase ==> e.addr == a / 0x4000 * 0x4000)
    && (d.state == SlowRead ==> a < |d.mem| && e.addr == a + 1 && e.oreg % 256 == d.mem[a])
    && (d.state != PP ==> e.pmem == d.pmem)
  }

  /** The part takes the address for what it is doing. */
  predicate Addressable(state: State, a: nat) { state == SectorErase ==> a < ERASABLE }

  lemma LastAddressByte(d: Device, b: byte, a: nat)
    requires d.Valid() && d.count == 24 && d.state in {PP, SectorErase, SlowRead}
    requires a == Entered(d.ireg, b) % MEMBYTES
    ensures ByteStep(d, b).Some? <==> Addressable(d.state, a)
    ensures ByteStep(d, b).Some? ==>
              ByteStep(d, b).value.timer == d.timer && Addressed(d, ByteStep(d, b).value, a)
  {
    hide ByteStep;
    if d.state == PP {
      ProgramAddress(d, b);
    } else if d.state == SectorErase {
      EraseAddress(d, b);
    } else {
      ReadAddress(d, b);
    }
  }

  lemma AddressedFrom(d: Device, e: Device, a: nat)
    requires e == d.(ireg := e.ireg, count := 24, oreg := e.oreg)
    ensures forall f :: Addressed(e, f, a) ==> Addressed(d, f, a)
  {
  }

  /** A command and the three bytes of an address, as the device has them. */
  lemma AddressBytes(op: byte, hi: nat, mid: nat, lo: nat)
    requires hi < 256 && mid < 256 && lo < 256
    ensures (((op * 256 + hi) % WORD * 256 + mid) % WORD * 256 + lo) % WORD % MEMBYTES
            == hi * 0x1_0000 + mid * 256 + lo
  {
    var low := hi * 0x1_0000 + mid * 256 + lo;
    Division.DivUnique(op * 256 + hi, WORD, 0, op * 256 + hi);
    Division.DivUnique((op * 256 + hi) * 256 + mid, WORD, 0, (op * 256 + hi) * 256 + mid);
    Division.DivUnique(op * MEMBYTES + low, WORD, 0, op * MEMBYTES + low);
    Division.DivUnique(op * MEMBYTES + low, MEMBYTES, op, low);
  }

  lemma SplitAddress(a: nat)
    requires a < MEMBYTES
    ensures a / 0x1_0000 < 256 && a / 0x1_0000 * 0x1_0000 + a / 256 % 256 * 256 + a % 256 == a
  {
    assert a / 256 == a / 0x1_0000 * 256 + a / 256 % 256;
  }

  /** The wire carries the bit that was lowest before the byte. */
  lemma WireBit(x: nat)
    ensures Entered(x, 0) / 256 % 2 == x % 2
  {
    BitEight(x / 2, x % 2, 0);
    assert x * 256 == x / 2 * 512 + x % 2 * 256;
  }

  lemma LastByteIn(x: nat, b: byte)
    ensures Entered(x, b) % 256 == b
  {
    var q, r := x / 0x100_0000, x % 0x100_0000;
    Division.DivUnique(x * 256 + b, WORD, q, r * 256 + b);
    Division.DivUnique(r * 256 + b, 256, r, b);
  }

  /** A byte of page data goes into the page buffer. */
  lemma ProgramByte(d: Device, b: byte)
    requires d.Valid() && d.count >= 32 && d.count % 8 == 0 && d.state == PP
    ensures ByteStep(d, b).Some?
    ensures var e := ByteStep(d, b).value;
            e == d.(ireg := e.ireg, count := d.count + 8, oreg := e.oreg,
                    pmem := d.pmem[d.addr % PAGE := b], addr := PageOf(d.addr) + (d.addr + 1) % PAGE)
  {
    LastByteIn(d.ireg, b);
  }

  lemma SectorInFlash(sector: nat)
    requires sector % SECTOR == 0
    ensures sector % MEMBYTES % SECTOR == 0 && sector % MEMBYTES + SECTOR <= MEMBYTES
  {
  }

  /** While a byte of memory is shifted out the next one is fetched. */
  lemma ReadByte(d: Device, b: byte)
    requires d.Valid() && d.count >= 32 && d.count % 8 == 0 && d.state == SlowRead && !d.status.wip
    ensures ByteStep(d, b).Some?
    ensures var e := ByteStep(d, b).value;
            && e == d.(ireg := e.ireg, count := d.count + 8, oreg := e.oreg, addr := d.addr + 1)
            && e.oreg % 256 == d.MemByte() && e.oreg / 256 % 2 == d.oreg % 2
  {
    hide Process, Device.WithLow, Entered;
    var x := d.(ireg := Entered(d.ireg, b), count := d.count + 8, oreg := Entered(d.oreg, 0));
    WireBit(d.oreg);
    assert x.MemByte() == d.MemByte() && |x.mem| == MEMBYTES && |x.pmem| == PAGE && ByteStep(d, b) == Process(x);
    hide Device.MemByte, Device.Valid, ByteStep;
    ReadFetches(x);
  }

  lemma ReadFetches(x: Device)
    requires |x.mem| == MEMBYTES && |x.pmem| == PAGE && x.count >= 40 && x.count % 8 == 0
    requires x.state == SlowRead && !x.status.wip
    ensures Process(x).Some?
    ensures var e := Process(x).value;
            && e == x.(oreg := e.oreg, addr := x.addr + 1)
            && e.oreg % 256 == x.MemByte() && e.oreg / 256 == x.oreg / 256
  {
    hide Device.WithLow;
    WithLowSets(x, 0);
    WithLowSets(x.WithLow(0), x.MemByte());
  }

  /** While the status is shifted out it is loaded again. */
  lemma StatusByte(d: Device, b: byte)
    requires d.Valid() && d.count >= 8 && d.count % 8 == 0 && d.state == Rdsr
    ensures ByteStep(d, b).Some?
    ensures var e := ByteStep(d, b).value;
            && e == d.(ireg := e.ireg, count := d.count + 8, oreg := e.oreg)
            && e.oreg % 256 == d.status.Low() % 256 && e.oreg / 256 % 2 == d.oreg % 2
  {
    hide Process, Device.WithLow, Entered, Status.Low;
    var x := d.(ireg := Entered(d.ireg, b), count := d.count + 8, oreg := Entered(d.oreg, 0));
    WireBit(d.oreg);
    assert |x.pmem| == PAGE && ByteStep(d, b) == Process(x);
    hide Device.Valid, ByteStep;
    StatusLoads(x);
  }

  lemma StatusLoads(x: Device)
    requires |x.pmem| == PAGE && x.count >= 16 && x.count % 8 == 0 && x.state == Rdsr
    ensures Process(x).Some?
    ensures var e := Process(x).value;
            e == x.(oreg := e.oreg) && e.oreg % 256 == x.status.Low() % 256 && e.oreg / 256 == x.oreg / 256
  {
    hide Device.WithLow;
    WithLowSets(x, 0);
    WithLowSets(x.WithLow(0), x.status.Low());
  }

  /** The bytes of the identity, the highest first. */
  function IdByte(i: nat): byte
    requires i < 4
  {
    match i case 0 => 0x01 case 1 => 0x15 case 2 => 0x23 case 3 => 0x40
  }

  lemma IdBytes()
    ensures ((IdByte(0) * 256 + IdByte(1)) * 256 + IdByte(2)) * 256 + IdByte(3) == DEVID
  {
  }

  /** While a byte of the identity is shifted out the next one is loaded. */
  lemma IdStep(d: Device, i: nat)
    requires d.Valid() && i < 4 && d.count == 8 * i + 8 && d.state == Rdid
    ensures ByteStep(d, 0).Some?
    ensures var e := ByteStep(d, 0).value;
            && e == d.(ireg := e.ireg, count := 8 * i + 16, oreg := e.oreg)
            && e.oreg / 256 % 2 == d.oreg % 2 && (i < 3 ==> e.oreg % 256 == IdByte(i + 1))
  {
    var x := d.(ireg := Entered(d.ireg, 0), count := d.count + 8, oreg := Entered(d.oreg, 0));
    WireBit(d.oreg);
    assert |x.pmem| == PAGE && ByteStep(d, 0) == Process(x);
    hide Process, Device.WithLow, Device.Valid, ByteStep, Entered;
    IdLoads(x, i);
  }

  lemma IdLoads(x: Device, i: nat)
    requires |x.pmem| == PAGE && i < 4 && x.count == 8 * i + 16 && x.state == Rdid
    ensures Process(x).Some?
    ensures var e := Process(x).value;
            && e == x.(oreg := e.oreg) && e.oreg / 256 == x.oreg / 256
            && (i < 3 ==> e.oreg % 256 == IdByte(i + 1))
  {
    hide Device.WithLow;
    WithLowSets(x, 0);
    var v := if x.count == 16 then DEVID / 0x1_0000 else if x.count == 24 then DEVID / 256
             else if x.count == 32 then DEVID else 0;
    WithLowSets(x.WithLow(0), v);
  }

  /** The same some calls later. */
  lemma PollStep(d: Device, k: nat)
    requires Awake(d) && d.count >= 8 && d.state == Rdsr
    ensures Awake(Age(d, k)) && ByteStep(Age(d, k), 0).Some?
    ensures var e := ByteStep(Age(d, k), 0).value;
            && Awake(e) && e.mem == d.mem && e.state == Rdsr && e.count >= 8 && SameWire(d, e)
            && e.oreg % 256 == e.status.Low() % 256 && e.timer == Age(d, k).timer <= d.timer
  {
    hide ByteStep, Age, Process;
    AwakeAge(d, k);
    StatusByte(Age(d, k), 0);
  }

  /** Bit 0 of the status register is WIP. */
  lemma WipBit(s: Status)
    ensures s.Low() % 256 % 2 == (if s.wip then 1 else 0)
  {
  }

  lemma PageAddress(a: nat, i: nat)
    requires a % PAGE + i < PAGE
    ensures var x := PageOf(a) + (a + i) % PAGE;
            x % PAGE == a % PAGE + i && PageOf(x) == PageOf(a) && (x + 1) % PAGE == (a + i + 1) % PAGE
  {
    assert (a + i) % PAGE == a % PAGE + i;
  }

  lemma SamePage(a: nat, n: nat)
    requires n > 0 && PageOf(a) == PageOf(a + n - 1)
    ensures a % PAGE + n <= PAGE
  {
  }

  /** The flash begins at a multiple of its size. */
  lemma DeviceAddress(addr: nat)
    requires FLASHBASE <= addr < FLASHBASE + MEMBYTES
    ensures addr % MEMBYTES == addr - FLASHBASE
    ensures PageOf(addr) == PageOf(addr - FLASHBASE) + FLASHBASE
    ensures SectorOf(addr) == SectorOf(addr - FLASHBASE) + FLASHBASE
  {
  }

  /** e is d after the first i bytes of page data for address a. */
  predicate LoadedTo(d: Device, e: Device, a: nat, data: seq<byte>, i: nat)
    requires i <= |data|
  {
    e == d.(ireg := e.ireg, count := 32 + 8 * i, oreg := e.oreg,
            addr := PageOf(a) + (a + i) % PAGE, pmem := Loaded(a % PAGE, data[..i]))
  }

  lemma LoadedStarts(d: Device, a: nat, data: seq<byte>)
    requires d.addr == a && d.pmem == seq(PAGE, _ => 255) && d.count == 32
    ensures LoadedTo(d, d, a, data, 0)
  {
    hide Loaded;
    LoadedNone(a % PAGE);
    assert data[..0] == [];
  }

  lemma LoadedEnds(d: Device, e: Device, a: nat, data: seq<byte>)
    requires LoadedTo(d, e, a, data, |data|)
    ensures e == d.(ireg := e.ireg, count := 32 + 8 * |data|, oreg := e.oreg, addr := e.addr, pmem := e.pmem)
    ensures PageOf(e.addr) == PageOf(a) && e.pmem == Loaded(a % PAGE, data)
  {
    assert data[..|data|] == data;
    StaysInPage(a, a + |data|);
    hide Loaded, PageOf;
  }

  lemma StaysInPage(a: nat, x: nat)
    ensures PageOf(PageOf(a) + x % PAGE) == PageOf(a)
  {
    var q, r := a / PAGE, x % PAGE;
    Division.DivUnique(q * PAGE + r, PAGE, q, r);
  }

  /** What the chip select will do to an accepted erase command. */
  lemma EraseArmed(d: Device, a: nat)
    requires d.Valid() && d.state == SectorErase && d.addr == a / 0x4000 * 0x4000 && a % SECTOR == 0
    ensures CsRise(d).mem == Erase(d.mem, a, SECTOR) && EventsOf(d, true) == [Erased(a)]
  {
    SectorAddress(a);
  }

  lemma SectorAddress(a: nat)
    requires a % SECTOR == 0
    ensures a / 0x4000 * 0x4000 == a && SectorOf(a) == a
  {
    var k := a / SECTOR;
    assert a == k * SECTOR;
    Division.DivUnique(a, 0x4000, 4 * k, 0);
  }

  /** What the chip select will do to an accepted program command. */
  lemma ProgramArmed(d: Device, a: nat, data: seq<byte>)
    requires d.Valid() && d.state == PP && PageOf(d.addr) == PageOf(a)
    requires a % PAGE + |data| <= PAGE && d.pmem == Loaded(a % PAGE, data)
    ensures CsRise(d).mem == AfterProgram(d.mem, a, data) && EventsOf(d, true) == [Programmed(PageOf(a))]
  {
    hide ProgramPage, AfterProgram, Loaded;
    ProgramIs(d.mem, a, data);
  }

  lemma ErasedReads(mem: seq<byte>, a: nat)
    requires a + SECTOR <= |mem|
    ensures forall i :: a <= i < a + SECTOR ==> Erase(mem, a, SECTOR)[i] == 255
  {
  }

  /** k is the first index at which two buffers differ. */
  predicate FirstDifference(sbuf: seq<byte>, dp: seq<byte>, k: nat) {
    k < |sbuf| && k < |dp| && sbuf[k] != dp[k] && sbuf[..k] == dp[..k]
  }

  /** The page of p, from its number. */
  lemma PageIs(p: nat, k: nat)
    requires k * PAGE <= p < k * PAGE + PAGE
    ensures PageOf(p) == k * PAGE
  {
    Division.DivUnique(p, PAGE, k, p - k * PAGE);
  }

  lemma PageNumber(p: nat) returns (k: nat)
    ensures k * PAGE <= p < k * PAGE + PAGE && PageOf(p) == k * PAGE
  {
    k := p / PAGE;
    PageIs(p, k);
  }

  lemma NextPage(p: nat)
    requires p % 4 == 0 && p >= FLASHBASE
    ensures PageOf(p + PAGE) == PageOf(p) + PAGE && PageOf(p) % 4 == 0 && PageOf(p) >= FLASHBASE
    ensures PageOf(p) <= p < PageOf(p) + PAGE
    ensures PageOf(p - FLASHBASE) == PageOf(p) - FLASHBASE
  {
    hide PageOf;
    var k := PageNumber(p);
    PageIs(p + PAGE, k + 1);
    PageIs(p - FLASHBASE, k - 0x9_0000);
    FourInPage(k);
  }

  lemma FourInPage(k: nat)
    ensures k * PAGE % 4 == 0
  {
    Division.DivUnique(k * PAGE, 4, 64 * k, 0);
  }

  /** The last byte of [p, e) lies in the page of p exactly when e does not go beyond it. */
  lemma InPage(p: nat, e: nat)
    requires p < e
    ensures PageOf(e - 1) == PageOf(p) <==> e <= PageOf(p) + PAGE
    ensures PageOf(PageOf(p) + PAGE - 1) == PageOf(p)
  {
    var k := PageNumber(p);
    var j := PageNumber(e - 1);
    PageIs(k * PAGE + PAGE - 1, k);
    hide PageOf;
  }

  /** Clipping to the page: where a page program that starts at p ends. */
  lemma Clip(addr: nat, n: nat, s: nat, p: nat)
    requires addr % 4 == 0 && n % 4 == 0 && p % 4 == 0 && s % SECTOR == 0
    requires FLASHBASE <= s <= p && addr <= p < Hi(addr, n, s)
    ensures var len := if PageOf(addr + n - 1) != PageOf(p) then PageOf(p + PAGE) - p else addr + n - p;
            && 0 < len <= PAGE && len % 4 == 0 && PageOf(p) == PageOf(p + len - 1)
            && p + len == PageEnd(p, Hi(addr, n, s))
    ensures PageOf(p + PAGE) == PageOf(p) + PAGE && PageOf(p) % 4 == 0 && PageOf(p) >= FLASHBASE
    ensures PageEnd(p, Hi(addr, n, s)) - FLASHBASE == PageEnd(p - FLASHBASE, Hi(addr, n, s) - FLASHBASE)
    ensures p < PageEnd(p, Hi(addr, n, s)) <= Hi(addr, n, s)
    ensures PageEnd(p, Hi(addr, n, s)) == Hi(addr, n, s) || PageEnd(p, Hi(addr, n, s)) == PageOf(p + PAGE)
    ensures PageEnd(p, Hi(addr, n, s)) == Hi(addr, n, s) ==> PageOf(p + PAGE) >= Hi(addr, n, s)
  {
    hide PageOf;
    NextPage(p);
    InPage(p, addr + n);
    PageInSector(p, s);
  }

  /** One page of the sector, seen from the loop. */
  lemma PageAfterPage(addr: nat, data: seq<byte>, s: nat, p: nat, mem: seq<byte>, q: nat, hi: nat)
    requires addr % 4 == 0 && |data| % 4 == 0 && p % 4 == 0 && s % SECTOR == 0 && FLASHBASE <= s <= p
    requires FLASHBASE <= addr <= p < Hi(addr, |data|, s) == hi + FLASHBASE && addr + |data| <= FLASHBASE + |mem|
    requires addr - FLASHBASE <= q <= p - FLASHBASE && Programmable(mem, addr - FLASHBASE, data, q, hi)
    ensures var a, x, end := addr - FLASHBASE, p - FLASHBASE, PageEnd(p, hi + FLASHBASE) - FLASHBASE;
            && x < end <= hi && PageOf(p + PAGE) % 4 == 0 && PageOf(p + PAGE) > p
            && end == (if PageOf(p + PAGE) - FLASHBASE < hi then PageOf(p + PAGE) - FLASHBASE else hi)
            && Filled(Filled(mem, a, data, q, x), a, data, x, end) == Filled(mem, a, data, q, end)
            && Programmable(Filled(mem, a, data, q, x), a, data, x, end)
            && PageLog(a, data, x, hi) ==
                 (if Blank(data[x - a..end - a]) then [] else [Programmed(PageOf(x))]) + PageLog(a, data, end, hi)
  {
    hide Programmable, Filled, PageLog, PageOf, PageEnd, Blank;
    var a, x, end := addr - FLASHBASE, p - FLASHBASE, PageEnd(p, hi + FLASHBASE) - FLASHBASE;
    Clip(addr, |data|, s, p);
    FilledNext(mem, a, data, q, x, end, hi);
    PageLogNext(a, data, x, hi);
  }

  lemma PageInSector(p: nat, s: nat)
    requires s % SECTOR == 0 && s <= p < s + SECTOR
    ensures PageOf(p) + PAGE <= s + SECTOR
  {
    var k := PageNumber(p);
    var m := s / SECTOR;
    assert s == m * SECTOR;
    hide PageOf;
  }

  /** What the comparison of the buffers says about the sector. */
  lemma ScanMeans(mem: seq<byte>, a: nat, data: seq<byte>, t: nat, sbuf: seq<byte>, dp: seq<byte>)
    requires InRange(mem, a, data) && Lo(a, t) <= Hi(a, |data|, t)
    requires sbuf == mem[Lo(a, t)..Hi(a, |data|, t)] && dp == data[Lo(a, t) - a..Hi(a, |data|, t) - a]
    ensures NeedsErase(mem, a, data, t) <==> exists i :: 0 <= i < |dp| && And8(sbuf[i], dp[i]) != dp[i]
    ensures Matches(mem, a, data, t) <==> sbuf == dp
  {
    var lo, hi := Lo(a, t), Hi(a, |data|, t);
    assert a <= lo <= hi <= a + |data| <= |mem|;
    hide And8, Lo, Hi;
    RangeMeans(mem, a, data, lo, hi, sbuf, dp);
  }

  lemma RangeMeans(mem: seq<byte>, a: nat, data: seq<byte>, lo: nat, hi: nat, sbuf: seq<byte>, dp: seq<byte>)
    requires a <= lo <= hi <= a + |data| <= |mem|
    requires sbuf == mem[lo..hi] && dp == data[lo - a..hi - a]
    ensures (exists i :: lo <= i < hi && And8(mem[i], data[i - a]) != data[i - a]) <==>
            exists i :: 0 <= i < |dp| && And8(sbuf[i], dp[i]) != dp[i]
    ensures (forall i :: lo <= i < hi ==> mem[i] == data[i - a]) <==> sbuf == dp
  {
    hide And8;
    if i :| lo <= i < hi && And8(mem[i], data[i - a]) != data[i - a] {
      assert And8(sbuf[i - lo], dp[i - lo]) != dp[i - lo];
    }
    if sbuf == dp {
      forall i | lo <= i < hi
        ensures mem[i] == data[i - a]
      {
        assert sbuf[i - lo] == dp[i - lo];
      }
    }
  }

  lemma FirstDifferenceMeans(mem: seq<byte>, a: nat, data: seq<byte>, lo: nat, hi: nat,
                             sbuf: seq<byte>, dp: seq<byte>, k: nat)
    requires a <= lo <= hi <= a + |data| <= |mem|
    requires sbuf == mem[lo..hi] && dp == data[lo - a..hi - a]
    requires FirstDifference(sbuf, dp, k)
    ensures lo + k < hi && FirstDiff(mem, a, data, lo, hi) == lo + k
  {
    forall j | lo <= j < lo + k
      ensures mem[j] == data[j - a]
    {
      assert sbuf[..k][j - lo] == dp[..k][j - lo];
    }
    FirstDiffIs(mem, a, data, lo, hi, lo + k);
  }

  lemma StartIs(mem: seq<byte>, a: nat, data: seq<byte>, t: nat, k: nat)
    requires InRange(mem, a, data) && Lo(a, t) + k < Hi(a, |data|, t) && !NeedsErase(mem, a, data, t)
    requires FirstDiff(mem, a, data, Lo(a, t), Hi(a, |data|, t)) == Lo(a, t) + k
    ensures Start(mem, a, data, t) == Lo(a, t) + k - k % 4
    ensures Lo(a, t) <= Start(mem, a, data, t) < Hi(a, |data|, t)
  {
    hide NeedsErase, FirstDiff;
    assert Lo(a, t) + k - Lo(a, t) == k;
  }

  lemma ScanStart(mem: seq<byte>, a: nat, data: seq<byte>, t: nat, sbuf: seq<byte>, dp: seq<byte>, k: nat)
    requires InRange(mem, a, data) && Lo(a, t) <= Hi(a, |data|, t) && !NeedsErase(mem, a, data, t)
    requires sbuf == mem[Lo(a, t)..Hi(a, |data|, t)] && dp == data[Lo(a, t) - a..Hi(a, |data|, t) - a]
    requires FirstDifference(sbuf, dp, k)
    ensures Start(mem, a, data, t) == Lo(a, t) + k - k % 4
    ensures Lo(a, t) <= Start(mem, a, data, t) < Hi(a, |data|, t)
  {
    hide NeedsErase;
    FirstDifferenceMeans(mem, a, data, Lo(a, t), Hi(a, |data|, t), sbuf, dp, k);
    StartIs(mem, a, data, t, k);
  }

  lemma SectorStart(addr: nat)
    requires addr >= FLASHBASE
    ensures FLASHBASE <= SectorOf(addr) && SectorOf(addr) % SECTOR == 0
    ensures SectorOf(addr) - FLASHBASE == SectorOf(addr - FLASHBASE)
  {
  }

  lemma StartAligned(mem: seq<byte>, addr: nat, data: seq<byte>, s: nat)
    requires addr % 4 == 0 && s % SECTOR == 0 && FLASHBASE <= addr && FLASHBASE <= s
    requires InRange(mem, addr - FLASHBASE, data) && Lo(addr, s) <= Hi(addr, |data|, s)
    ensures (Start(mem, addr - FLASHBASE, data, s - FLASHBASE) + FLASHBASE) % 4 == 0 && Lo(addr, s) % 4 == 0
  {
    hide NeedsErase, FirstDiff;
    var a, t := addr - FLASHBASE, s - FLASHBASE;
    LoAligned(addr, s);
    var f := FirstDiff(mem, a, data, Lo(a, t), Hi(a, |data|, t));
    Round(Lo(a, t), f);
  }

  lemma LoAligned(addr: nat, s: nat)
    requires addr % 4 == 0 && s % SECTOR == 0 && FLASHBASE <= addr && FLASHBASE <= s
    ensures Lo(addr, s) % 4 == 0 && Lo(addr - FLASHBASE, s - FLASHBASE) % 4 == 0
  {
    var k := s / SECTOR;
    assert s == 4 * (k * 0x4000);
  }

  lemma Round(lo: nat, f: nat)
    requires lo <= f && lo % 4 == 0
    ensures (f - (f - lo) % 4 + FLASHBASE) % 4 == 0
  {
    assert f - (f - lo) % 4 == lo + (f - lo) / 4 * 4;
  }

  /** What is to be done about a sector whose contents are mem, and from where. */
  ghost predicate Plan(mem: seq<byte>, a: nat, data: seq<byte>, t: nat, q: nat, hi: nat)
    requires InRange(mem, a, data) && Lo(a, t) <= Hi(a, |data|, t) && t + SECTOR <= |mem|
  {
    var e := if NeedsErase(mem, a, data, t) then Erase(mem, t, SECTOR) else mem;
    && t <= q && a <= q <= hi <= a + |data|
    && Programmable(e, a, data, q, hi) && SectorWritten(mem, a, data, t) == Filled(e, a, data, q, hi)
    && SectorLog(mem, a, data, t) ==
         (if NeedsErase(mem, a, data, t) then [Erased(t)] else []) + PageLog(a, data, q, hi)
  }

  lemma PlanFits(mem: seq<byte>, a: nat, data: seq<byte>, t: nat)
    requires InRange(mem, a, data) && Lo(a, t) <= Hi(a, |data|, t) && t % SECTOR == 0 && t + SECTOR <= |mem|
    requires !Matches(mem, a, data, t)
    ensures Plan(mem, a, data, t, Start(mem, a, data, t), Hi(a, |data|, t))
    ensures NeedsErase(mem, a, data, t) ==> Start(mem, a, data, t) == Lo(a, t)
  {
    assert a <= Lo(a, t) && t <= Lo(a, t) && Hi(a, |data|, t) <= a + |data|;
    hide SectorWritten, Filled, Programmable, PageLog, Erase, NeedsErase, Matches, Start, Lo, Hi;
    if NeedsErase(mem, a, data, t) {
      ErasedSectorFilled(mem, a, data, t);
      StartOfErased(mem, a, data, t);
    } else {
      SectorFilled(mem, a, data, t);
      StartInSector(mem, a, data, t);
    }
  }

  /** The bounds of the sector, on the bus and in the device. */
  lemma BusBounds(addr: nat, n: nat, s: nat)
    requires FLASHBASE <= addr && FLASHBASE <= s < FLASHBASE + MEMBYTES && s % SECTOR == 0
    requires Lo(addr, s) <= Hi(addr, n, s)
    ensures Lo(addr - FLASHBASE, s - FLASHBASE) == Lo(addr, s) - FLASHBASE
    ensures Hi(addr - FLASHBASE, n, s - FLASHBASE) == Hi(addr, n, s) - FLASHBASE
    ensures s % MEMBYTES == s - FLASHBASE && (s - FLASHBASE) % SECTOR == 0 && s - FLASHBASE + SECTOR <= MEMBYTES
  {
    Division.DivUnique(s, MEMBYTES, FLASHBASE / MEMBYTES, s - FLASHBASE);
    var k := s / SECTOR;
    Division.DivUnique(s - FLASHBASE, SECTOR, k - FLASHBASE / SECTOR, 0);
  }

  /** The plan for the sector at t, in full. */
  lemma SectorPlan(mem: seq<byte>, a: nat, data: seq<byte>, t: nat)
    requires InRange(mem, a, data) && Lo(a, t) <= Hi(a, |data|, t) && t % SECTOR == 0 && t + SECTOR <= |mem|
    ensures var q, hi := Start(mem, a, data, t), Hi(a, |data|, t);
            if Matches(mem, a, data, t) then SectorWritten(mem, a, data, t) == mem && SectorLog(mem, a, data, t) == []
            else
              var e := if NeedsErase(mem, a, data, t) then Erase(mem, t, SECTOR) else mem;
              && (NeedsErase(mem, a, data, t) ==> q == Lo(a, t))
              && t <= q && a <= q <= hi <= a + |data|
              && Programmable(e, a, data, q, hi) && SectorWritten(mem, a, data, t) == Filled(e, a, data, q, hi)
              && SectorLog(mem, a, data, t) ==
                   (if NeedsErase(mem, a, data, t) then [Erased(t)] else []) + PageLog(a, data, q, hi)
  {
    hide SectorWritten, SectorLog, Filled, Programmable, PageLog, Erase, NeedsErase, Matches, Start, Lo, Hi;
    if Matches(mem, a, data, t) {
      MatchesAlready(mem, a, data, t);
    } else {
      PlanFits(mem, a, data, t);
    }
  }

  lemma MatchesAlready(mem: seq<byte>, a: nat, data: seq<byte>, t: nat)
    requires InRange(mem, a, data) && Lo(a, t) <= Hi(a, |data|, t) && t % SECTOR == 0 && Matches(mem, a, data, t)
    ensures SectorWritten(mem, a, data, t) == mem && SectorLog(mem, a, data, t) == []
  {
    hide SectorWritten, PageLog, NeedsErase, Start;
    MatchingSector(mem, a, data, t);
  }

  lemma StartOfErased(mem: seq<byte>, a: nat, data: seq<byte>, t: nat)
    requires InRange(mem, a, data) && Lo(a, t) <= Hi(a, |data|, t) && NeedsErase(mem, a, data, t)
    ensures Start(mem, a, data, t) == Lo(a, t)
  {
  }

  lemma StartInSector(mem: seq<byte>, a: nat, data: seq<byte>, t: nat)
    requires InRange(mem, a, data) && Lo(a, t) <= Hi(a, |data|, t)
    ensures Lo(a, t) <= Start(mem, a, data, t) <= Hi(a, |data|, t)
  {
    hide NeedsErase;
    var lo, hi := Lo(a, t), Hi(a, |data|, t);
    assert a <= lo <= hi <= a + |data|;
    hide Lo, Hi, FirstDiff;
  }

  /** The sector loop: where it starts, that each sector meets the data, where it ends. */
  lemma SectorSteps(addr: nat, n: nat, s: nat)
    requires addr >= FLASHBASE && SectorOf(addr) <= s && s % SECTOR == 0
    ensures FLASHBASE <= SectorOf(addr) && SectorOf(addr) % SECTOR == 0
    ensures SectorOf(addr) - FLASHBASE == SectorOf(addr - FLASHBASE) && (s - FLASHBASE) % SECTOR == 0
    ensures s < SectorOf(addr + n + SECTOR - 1) ==>
              Lo(addr, s) <= Hi(addr, n, s) && s < addr + n
    ensures s >= SectorOf(addr + n + SECTOR - 1) ==> addr + n <= s
  {
  }

  class FlashDriver {
    const bus: SpiBus
    var id: nat

    constructor (bus: SpiBus)
      ensures this.bus == bus && id == FLASH_UNKNOWN
    {
      this.bus := bus;
      id := FLASH_UNKNOWN;
    }

    /** What the driver sees of the part. */
    ghost function Part(): Device
      reads bus.flash, bus.flash.mem, bus.flash.pmem
    {
      bus.flash.View()
    }

    /** Writing F_END to the control register. */
    method End()
      requires bus.flash.Valid() && Awake(Part())
      modifies bus.flash, bus.flash.mem, bus.flash.pmem
      ensures bus.flash.Valid() && AtStart(Part()) && bus.flash.log == old(bus.flash.log)
      ensures Part().mem == old(Part().mem) && Part().timer <= old(Part().timer)
      ensures Part().timer > 0 || old(Part().timer) == 0 ==> Part().status == old(Part().status)
    {
      ghost var d := Part();
      AwakeAge(d, 1);
      RiseCalm(d);
      RiseCalm(Age(d, 1));
      ghost var n := bus.EndCommand();
      AwakeAge(CsRise(Age(d, 1)), n);
    }

    /** Writing a byte while no write is in progress: the device takes one step,
        or it stops. */
    method Try(b: byte) returns (alive: bool, got: byte)
      requires bus.flash.Valid() && Listening(Part()) && Part().timer == 0
      requires ByteStep(Part(), b).Some? ==> ByteStep(Part(), b).value.timer == 0
      modifies bus.flash, bus.flash.mem, bus.flash.pmem
      ensures alive <==> ByteStep(old(Part()), b).Some?
      ensures alive ==>
        && bus.flash.Valid() && Part() == ByteStep(old(Part()), b).value && bus.flash.log == old(bus.flash.log)
        && (SameWire(old(Part()), Part()) ==> got == old(Part().oreg) % 256)
    {
      hide ByteStep;
      ghost var n;
      alive, got, n := bus.Send(b, ByteStep(Part(), b).Some?);
    }

    /** Writing a byte that the part takes. */
    method Put(b: byte) returns (got: byte)
      requires bus.flash.Valid() && Listening(Part()) && Part().timer == 0
      requires ByteStep(Part(), b).Some? && ByteStep(Part(), b).value.timer == 0
      modifies bus.flash, bus.flash.mem, bus.flash.pmem
      ensures bus.flash.Valid() && Part() == ByteStep(old(Part()), b).value
      ensures SameWire(old(Part()), Part()) ==> got == old(Part().oreg) % 256
      ensures bus.flash.log == old(bus.flash.log)
    {
      hide ByteStep;
      var alive;
      alive, got := Try(b);
    }

    /** The first byte of a command. */
    method Command(op: byte)
      requires bus.flash.Valid() && AtStart(Part()) && Ready(Part())
      requires var r := Decode(op, Part().state, Spi, Part().status, 0, Part().creg);
               r.Some? && r.value.timer == 0
      modifies bus.flash, bus.flash.mem, bus.flash.pmem
      ensures bus.flash.Valid() && bus.flash.log == old(bus.flash.log)
      ensures var r := Decode(op, old(Part().state), Spi, old(Part().status), 0, old(Part().creg)).value;
              Part() == old(Part()).(ireg := op, oreg := Part().oreg, count := 8,
                                     state := r.state, mode := r.mode, status := r.status)
    {
      hide ByteStep, Decode;
      FirstByte(Part(), op);
      var _ := Put(op);
    }

    /** A byte the device only shifts in. */
    method PutMiddle(b: byte)
      requires bus.flash.Valid() && Listening(Part()) && Part().timer == 0
      requires (Part().count == 8 || Part().count == 16) && Part().state in {PP, SectorErase, SlowRead}
      modifies bus.flash, bus.flash.mem, bus.flash.pmem
      ensures bus.flash.Valid() && bus.flash.log == old(bus.flash.log)
      ensures Part() == old(Part()).(ireg := (old(Part().ireg) * 256 + b) % WORD,
                                     count := old(Part().count) + 8, oreg := Part().oreg)
    {
      hide ByteStep;
      MiddleByte(Part(), b);
      var _ := Put(b);
    }

    method PutAddress(hi: byte, mid: byte, lo: byte, ghost a: nat) returns (alive: bool)
      requires bus.flash.Valid() && Listening(Part()) && Part().timer == 0
      requires Part().count == 8 && Part().state in {PP, SectorErase, SlowRead}
      requires a == (((Part().ireg * 256 + hi) % WORD * 256 + mid) % WORD * 256 + lo) % WORD % MEMBYTES
      modifies bus.flash, bus.flash.mem, bus.flash.pmem
      ensures alive <==> Addressable(old(Part().state), a)
      ensures alive ==> bus.flash.Valid() && bus.flash.log == old(bus.flash.log) && Addressed(old(Part()), Part(), a)
    {
      hide ByteStep, Addressed;
      ghost var d := Part();
      PutMiddle(hi);
      PutMiddle(mid);
      ghost var e := Part();
      LastAddressByte(e, lo, a);
      AddressedFrom(d, e, a);
      var got;
      alive, got := Try(lo);
    }

    /** Three address bytes, the highest first. */
    method Address(a: nat) returns (alive: bool)
      requires bus.flash.Valid() && Listening(Part()) && Part().timer == 0 && a < MEMBYTES
      requires Part().count == 8 && Part().ireg < 256 && Part().state in {PP, SectorErase, SlowRead}
      modifies bus.flash, bus.flash.mem, bus.flash.pmem
      ensures alive <==> Addressable(old(Part().state), a)
      ensures alive ==> bus.flash.Valid() && bus.flash.log == old(bus.flash.log) && Addressed(old(Part()), Part(), a)
    {
      hide Addressed;
      SplitAddress(a);
      AddressBytes(Part().ireg, a / 0x1_0000, a / 256 % 256, a % 256);
      alive := PutAddress(a / 0x1_0000, a / 256 % 256, a % 256, a);
    }

    /** Writing F_END while no write is in progress or pending. */
    method Deselect()
      requires bus.flash.Valid() && Settled(Part())
      modifies bus.flash, bus.flash.mem, bus.flash.pmem
      ensures bus.flash.Valid() && bus.flash.log == old(bus.flash.log)
      ensures Part() == CsRise(old(Part())) && Selected(Part())
      ensures Part().mem == old(Part().mem) && Part().status == old(Part().status) && Part().lastSck
    {
      RiseSettles(Part());
      assert Age(Part(), 1) == Part();
      ghost var n := bus.EndCommand();
    }

    /** Six bytes of ones end whatever mode the part is in. */
    method TakeOffline()
      requires bus.flash.Valid() && Settled(Part())
      modifies bus.flash, bus.flash.mem, bus.flash.pmem
      ensures bus.flash.Valid() && Ready(Part()) && AtStart(Part()) && bus.flash.log == old(bus.flash.log)
      ensures Part().mem == old(Part().mem) && Part().status == old(Part().status)
    {
      hide Resetting, CsRise, Settled, Selected, Ready, AtStart, Device.Valid;
      Deselect();
      ghost var d := Part();
      StartsResetting(d);
      for i := 0 to 6
        invariant bus.flash.Valid() && bus.flash.log == old(bus.flash.log)
        invariant Part().lastSck && Resetting(d, Part(), 8 * i)
      {
        bus.SendOnes(d, 8 * i);
      }
      ResetEnds(d, Part());
      Deselect();
      SelectedStarts(Part());
    }

    /** A byte of the identity. */
    method PutId(ghost i: nat) returns (got: byte)
      requires bus.flash.Valid() && Ready(Part()) && Part().state == Rdid
      requires i < 4 && Part().count == 8 * i + 8 && Part().oreg % 256 == IdByte(i)
      modifies bus.flash, bus.flash.mem, bus.flash.pmem
      ensures bus.flash.Valid() && bus.flash.log == old(bus.flash.log)
      ensures Part() == old(Part()).(ireg := Part().ireg, count := 8 * i + 16, oreg := Part().oreg)
      ensures got == IdByte(i) && (i < 3 ==> Part().oreg % 256 == IdByte(i + 1))
    {
      hide ByteStep;
      IdStep(Part(), i);
      got := Put(0);
    }

    /** flashid(): the identity of the part, asked for once. */
    method FlashId()
      requires bus.flash.Valid() && Settled(Part()) && (id == FLASH_UNKNOWN || (id == DEVID && Ready(Part())))
      modifies this`id, bus.flash, bus.flash.mem, bus.flash.pmem
      ensures bus.flash.Valid() && Ready(Part()) && id == DEVID && bus.flash.log == old(bus.flash.log)
      ensures Part().mem == old(Part().mem) && Part().status == old(Part().status)
    {
      if id != FLASH_UNKNOWN {
        return;
      }
      TakeOffline();
      StartId();
      id := ReadId();
    }

    /** The four bytes of the identity. */
    method ReadId() returns (r: nat)
      requires bus.flash.Valid() && Ready(Part()) && Part().state == Rdid
      requires Part().count == 8 && Part().oreg % 256 == IdByte(0)
      modifies bus.flash, bus.flash.mem, bus.flash.pmem
      ensures bus.flash.Valid() && Ready(Part()) && r == DEVID && bus.flash.log == old(bus.flash.log)
      ensures Part().mem == old(Part().mem) && Part().status == old(Part().status)
    {
      IdBytes();
      hide IdByte;
      var got := PutId(0);
      r := got;
      got := PutId(1);
      r := r * 256 + got;
      got := PutId(2);
      r := r * 256 + got;
      got := PutId(3);
      r := r * 256 + got;
    }

    method StartId()
      requires bus.flash.Valid() && Ready(Part()) && AtStart(Part())
      modifies bus.flash, bus.flash.mem, bus.flash.pmem
      ensures bus.flash.Valid() && bus.flash.log == old(bus.flash.log)
      ensures Part() == old(Part()).(ireg := Part().ireg, count := 8, oreg := Part().oreg, state := Rdid)
      ensures Part().oreg % 256 == IdByte(0)
    {
      hide ByteStep;
      FirstByte(Part(), F_MFRID);
      var _ := Put(F_MFRID);
    }

    /** The status register is being read: loaded is the device as it was when
        it loaded its status into the output register, one call ago. */
    ghost predicate Reading(loaded: Device)
      reads bus.flash, bus.flash.mem, bus.flash.pmem
    {
      && Part() == Age(loaded, 1) && Awake(loaded)
      && loaded.state == Rdsr && loaded.count >= 8 && loaded.oreg % 256 == loaded.status.Low() % 256
    }

    method StartStatus() returns (ghost loaded: Device)
      requires bus.flash.Valid() && AtStart(Part())
      modifies bus.flash, bus.flash.mem, bus.flash.pmem
      ensures bus.flash.Valid() && Reading(loaded) && bus.flash.log == old(bus.flash.log)
      ensures loaded.mem == old(Part().mem)
    {
      hide ByteStep, Age;
      ghost var d := Part();
      forall k: nat
        ensures (AwakeAge(d, k); ByteStep(Age(d, k), F_RDSR1).Some?)
      {
        AwakeAge(d, k);
        FirstByte(Age(d, k), F_RDSR1);
      }
      var _, _, n := bus.Send(F_RDSR1, true);
      AwakeAge(d, n);
      FirstByte(Age(d, n), F_RDSR1);
      loaded := ByteStep(Age(d, n), F_RDSR1).value;
    }

    /** Shift the status out, and load it again. */
    method PollStatus(ghost loaded: Device) returns (sr: byte, ghost next: Device)
      requires bus.flash.Valid() && Reading(loaded)
      modifies bus.flash, bus.flash.mem, bus.flash.pmem
      ensures bus.flash.Valid() && Reading(next) && bus.flash.log == old(bus.flash.log)
      ensures next.mem == loaded.mem
      ensures sr == loaded.status.Low() % 256
      ensures loaded.timer > 0 ==> next.timer < loaded.timer
      ensures loaded.timer == 0 ==> next.timer == 0
    {
      AwakeAge(loaded, 1);
      hide ByteStep, Age, Process, Device.Valid;
      ghost var was := Part();
      forall k: nat
        ensures (AwakeAge(was, k); ByteStep(Age(was, k), 0).Some?)
      {
        PollStep(was, k);
      }
      var alive;
      ghost var m;
      alive, sr, m := bus.Send(0, true);
      PollStep(was, m);
      next := ByteStep(Age(was, m), 0).value;
    }

    /** Poll the status register until no write is in progress. */
    method Wait()
      requires bus.flash.Valid() && Awake(Part())
      modifies bus.flash, bus.flash.mem, bus.flash.pmem
      ensures bus.flash.Valid() && Ready(Part()) && AtStart(Part()) && bus.flash.log == old(bus.flash.log)
      ensures Part().mem == old(Part().mem)
    {
      hide Age;
      End();
      ghost var mem := Part().mem;
      ghost var loaded := StartStatus();
      var sr: byte := 1;
      while sr % 2 == 1
        invariant bus.flash.Valid() && Reading(loaded) && bus.flash.log == old(bus.flash.log)
        invariant loaded.mem == mem
        invariant sr % 2 == 0 ==> loaded.timer == 0
        decreases sr % 2, loaded.timer
      {
        WipBit(loaded.status);
        sr, loaded := PollStatus(loaded);
      }
      AwakeAge(loaded, 1);
      End();
    }

    method WriteEnable()
      requires bus.flash.Valid() && Ready(Part())
      modifies bus.flash, bus.flash.mem, bus.flash.pmem
      ensures bus.flash.Valid() && Ready(Part()) && AtStart(Part()) && bus.flash.log == old(bus.flash.log)
      ensures Part().mem == old(Part().mem) && Part().status.WriteAllowed()
    {
      End();
      Command(F_WREN);
      End();
    }

    /** Writing F_END while a program or an erase waits for it. */
    method Finish()
      requires bus.flash.Valid() && Listening(Part()) && Part().timer == 0
      requires Part().state in {PP, SectorErase} && !Part().status.dpd
      modifies bus.flash, bus.flash.mem, bus.flash.pmem
      ensures bus.flash.Valid() && Awake(Part())
      ensures Part().mem == CsRise(old(Part())).mem
      ensures bus.flash.log == old(bus.flash.log) + EventsOf(old(Part()), true)
    {
      hide ProgramPage, Erase;
      ghost var n := bus.EndCommand();
    }

    /** Start a command that takes an address. */
    method StartAt(op: byte, a: nat) returns (alive: bool)
      requires bus.flash.Valid() && Ready(Part()) && AtStart(Part()) && a < MEMBYTES
      requires op == F_READ || (op in {F_PP, F_SE} && Part().status.WriteAllowed())
      modifies bus.flash, bus.flash.mem, bus.flash.pmem
      ensures alive <==> (op == F_SE ==> a < ERASABLE)
      ensures alive ==>
        && bus.flash.Valid() && bus.flash.log == old(bus.flash.log)
        && Part() == old(Part()).(
                state := if op == F_READ then SlowRead else if op == F_PP then PP else SectorErase,
                ireg := Part().ireg, count := 32, oreg := Part().oreg, addr := Part().addr, pmem := Part().pmem)
        && (op == F_READ ==> Part().addr == a + 1 && Part().oreg % 256 == Part().mem[a])
        && (op == F_PP ==> Part().addr == a && Part().pmem == seq(PAGE, _ => 255))
        && (op == F_SE ==> Part().addr == a / 0x4000 * 0x4000)
    {
      Command(op);
      alive := Address(a);
    }

    /** A read of the flash's memory window: the controller issues a read
        command and shifts out n bytes. */
    method ReadBytes(a: nat, n: nat) returns (s: seq<byte>)
      requires bus.flash.Valid() && Ready(Part()) && a + n <= MEMBYTES
      modifies bus.flash, bus.flash.mem, bus.flash.pmem
      ensures bus.flash.Valid() && Ready(Part()) && bus.flash.log == old(bus.flash.log)
      ensures Part().mem == old(Part().mem) && Part().status == old(Part().status)
      ensures s == Part().mem[a..a + n]
    {
      s := [];
      if n == 0 {
        return;
      }
      End();
      var _ := StartAt(F_READ, a);
      s := ShiftOut(a, n);
      End();
    }

    method ShiftOut(a: nat, n: nat) returns (s: seq<byte>)
      requires bus.flash.Valid() && Ready(Part()) && Part().state == SlowRead && Part().count == 32
      requires a + n <= MEMBYTES && n > 0 && Part().addr == a + 1 && Part().oreg % 256 == Part().mem[a]
      modifies bus.flash, bus.flash.mem, bus.flash.pmem
      ensures bus.flash.Valid() && bus.flash.log == old(bus.flash.log)
      ensures Part() == old(Part()).(ireg := Part().ireg, count := 32 + 8 * n, oreg := Part().oreg, addr := a + n + 1)
      ensures s == old(Part().mem)[a..a + n]
    {
      ghost var d := Part();
      s := [];
      for i := 0 to n
        invariant bus.flash.Valid() && bus.flash.log == old(bus.flash.log)
        invariant Part() == d.(ireg := Part().ireg, count := 32 + 8 * i, oreg := Part().oreg, addr := a + i + 1)
        invariant a + i < MEMBYTES ==> Part().oreg % 256 == d.mem[a + i]
        invariant s == d.mem[a..a + i]
      {
        var got := PutRead();
        assert d.mem[a..a + i] + [d.mem[a + i]] == d.mem[a..a + i + 1];
        s := s + [got];
      }
    }

    method PutRead() returns (got: byte)
      requires bus.flash.Valid() && Ready(Part()) && Part().count >= 32 && Part().state == SlowRead
      modifies bus.flash, bus.flash.mem, bus.flash.pmem
      ensures bus.flash.Valid() && bus.flash.log == old(bus.flash.log)
      ensures Part() == old(Part()).(ireg := Part().ireg, count := old(Part().count) + 8, oreg := Part().oreg,
                                     addr := old(Part().addr) + 1)
      ensures Part().oreg % 256 == old(Part().MemByte()) && got == old(Part().oreg) % 256
    {
      hide ByteStep;
      ReadByte(Part(), 0);
      got := Put(0);
    }

    /** Enable writing, send the erase command, and wait. */
    method EraseAt(a: nat) returns (alive: bool)
      requires bus.flash.Valid() && Ready(Part()) && a % SECTOR == 0 && a < MEMBYTES
      modifies bus.flash, bus.flash.mem, bus.flash.pmem
      ensures alive <==> a < ERASABLE
      ensures alive ==>
        && bus.flash.Valid() && Ready(Part())
        && Part().mem == Erase(old(Part().mem), a, SECTOR)
        && bus.flash.log == old(bus.flash.log) + [Erased(a)]
    {
      hide Erase, ProgramPage, CsRise;
      WriteEnable();
      alive := StartAt(F_SE, a);
      if alive {
        EraseArmed(Part(), a);
        Finish();
        Wait();
      }
    }

    /** Enable writing, send the program command and the data, and wait. */
    method ProgramAt(a: nat, data: seq<byte>)
      requires bus.flash.Valid() && Ready(Part()) && a % PAGE + |data| <= PAGE && a < MEMBYTES
      modifies bus.flash, bus.flash.mem, bus.flash.pmem
      ensures bus.flash.Valid() && Ready(Part())
      ensures Part().mem == AfterProgram(old(Part().mem), a, data)
      ensures bus.flash.log == old(bus.flash.log) + [Programmed(PageOf(a))]
    {
      hide Erase, ProgramPage, CsRise, AfterProgram, Loaded, PageOf;
      WriteEnable();
      var _ := StartAt(F_PP, a);
      ShiftIn(a, data);
      ProgramArmed(Part(), a, data);
      Finish();
      Wait();
    }

    /** Erase the sector at a bus address; with verify, read it back.  The part
        stops on the sectors from ERASABLE on. */
    method EraseSector(sector: nat, verify: bool) returns (alive: bool, ok: bool)
      requires bus.flash.Valid() && Ready(Part()) && sector % SECTOR == 0
      modifies bus.flash, bus.flash.mem, bus.flash.pmem
      ensures alive <==> sector % MEMBYTES < ERASABLE
      ensures alive ==>
        && ok && bus.flash.Valid() && Ready(Part())
        && Part().mem == Erase(old(Part().mem), sector % MEMBYTES, SECTOR)
        && bus.flash.log == old(bus.flash.log) + [Erased(sector % MEMBYTES)]
    {
      hide Erase, Ready;
      var flashaddr := sector % MEMBYTES;
      SectorInFlash(sector);
      ReadySettles(Part());
      TakeOffline();
      alive := EraseAt(flashaddr);
      if !alive {
        return false, false;
      }
      ErasedReads(old(Part().mem), flashaddr);
      ok := true;
      if verify {
        ok := VerifyErased(flashaddr);
      }
    }

    method VerifyErased(a: nat) returns (ok: bool)
      requires bus.flash.Valid() && Ready(Part()) && a + SECTOR <= MEMBYTES
      modifies bus.flash, bus.flash.mem, bus.flash.pmem
      ensures bus.flash.Valid() && Ready(Part()) && bus.flash.log == old(bus.flash.log)
      ensures Part().mem == old(Part().mem)
      ensures ok <==> forall i :: a <= i < a + SECTOR ==> Part().mem[i] == 255
    {
      ghost var mem := Part().mem;
      for i := 0 to 256
        invariant bus.flash.Valid() && Ready(Part()) && bus.flash.log == old(bus.flash.log)
        invariant Part().mem == mem
        invariant forall k :: a <= k < a + i * PAGE ==> mem[k] == 255
      {
        var page := ReadBytes(a + i * PAGE, PAGE);
        for j := 0 to PAGE
          invariant forall k :: a + i * PAGE <= k < a + i * PAGE + j ==> mem[k] == 255
        {
          if page[j] != 255 {
            assert mem[a + i * PAGE + j] != 255;
            return false;
          }
        }
      }
      return true;
    }

    /** Is a page of words all ones? */
    method EmptyPage(data: seq<byte>) returns (empty: bool)
      requires |data| % 4 == 0
      ensures empty <==> Blank(data)
    {
      empty := true;
      var i := 0;
      while i < |data|
        invariant i % 4 == 0 && 0 <= i <= |data|
        invariant empty <==> Blank(data[..i])
      {
        var word := data[i..i + 4];
        assert data[..i + 4] == data[..i] + word;
        if word != [255, 255, 255, 255] {
          empty := false;
        }
        i := i + 4;
      }
      assert data[..|data|] == data;
    }

    /** Compare what was read with what was wanted, word by word. */
    method SameWords(buf: seq<byte>, data: seq<byte>) returns (same: bool)
      requires |buf| == |data| && |data| % 4 == 0
      ensures same <==> buf == data
    {
      for i := 0 to |data| / 4
        invariant buf[..4 * i] == data[..4 * i]
      {
        if buf[4 * i..4 * i + 4] != data[4 * i..4 * i + 4] {
          return false;
        }
        assert buf[..4 * i + 4] == buf[..4 * i] + buf[4 * i..4 * i + 4];
        assert data[..4 * i + 4] == data[..4 * i] + data[4 * i..4 * i + 4];
      }
      return true;
    }

    /** A byte of page data. */
    method PutData(b: byte)
      requires bus.flash.Valid() && Listening(Part()) && Part().timer == 0
      requires Part().state == PP && Part().count >= 32
      modifies bus.flash, bus.flash.mem, bus.flash.pmem
      ensures bus.flash.Valid() && bus.flash.log == old(bus.flash.log)
      ensures var d := old(Part());
              Part() == d.(ireg := Part().ireg, count := d.count + 8, oreg := Part().oreg,
                           pmem := d.pmem[d.addr % PAGE := b], addr := PageOf(d.addr) + (d.addr + 1) % PAGE)
    {
      hide ByteStep;
      ProgramByte(Part(), b);
      var _ := Put(b);
    }

    method PutNth(ghost d: Device, a: nat, data: seq<byte>, i: nat)
      requires bus.flash.Valid() && Listening(d) && d.timer == 0 && d.state == PP && d.count == 32
      requires i < |data| && a % PAGE + |data| <= PAGE && LoadedTo(d, Part(), a, data, i)
      modifies bus.flash, bus.flash.mem, bus.flash.pmem
      ensures bus.flash.Valid() && bus.flash.log == old(bus.flash.log)
      ensures LoadedTo(d, Part(), a, data, i + 1)
    {
      hide Loaded;
      PageAddress(a, i);
      LoadedMore(a % PAGE, data, i);
      PutData(data[i]);
    }

    /** Shift the page data in. */
    method ShiftIn(a: nat, data: seq<byte>)
      requires bus.flash.Valid() && Listening(Part()) && Part().timer == 0 && Part().state == PP && Part().count == 32
      requires Part().addr == a && Part().pmem == seq(PAGE, _ => 255)
      requires a % PAGE + |data| <= PAGE
      modifies bus.flash, bus.flash.mem, bus.flash.pmem
      ensures bus.flash.Valid() && bus.flash.log == old(bus.flash.log)
      ensures Part() == old(Part()).(ireg := Part().ireg, count := 32 + 8 * |data|, oreg := Part().oreg,
                                     addr := Part().addr, pmem := Part().pmem)
      ensures PageOf(Part().addr) == PageOf(a)
      ensures Part().pmem == Loaded(a % PAGE, data)
    {
      hide Loaded, LoadedTo;
      ghost var d := Part();
      LoadedStarts(d, a, data);
      for i := 0 to |data|
        invariant bus.flash.Valid() && bus.flash.log == old(bus.flash.log)
        invariant LoadedTo(d, Part(), a, data, i)
      {
        PutNth(d, a, data, i);
      }
      LoadedEnds(d, Part(), a, data);
    }

    /** Program part of one page, unless there is nothing but ones to program. */
    method PageProgram(addr: nat, data: seq<byte>, verify: bool) returns (ok: bool)
      requires bus.flash.Valid() && Ready(Part())
      requires 0 < |data| <= PAGE && |data| % 4 == 0 && PageOf(addr) == PageOf(addr + |data| - 1)
      requires FLASHBASE <= addr && addr + |data| <= FLASHBASE + MEMBYTES
      modifies bus.flash, bus.flash.mem, bus.flash.pmem
      ensures bus.flash.Valid() && Ready(Part())
      ensures var a := addr - FLASHBASE;
              if Blank(data) then
                ok && Part().mem == old(Part().mem) && bus.flash.log == old(bus.flash.log)
              else
                && Part().mem == AfterProgram(old(Part().mem), a, data)
                && bus.flash.log == old(bus.flash.log) + [Programmed(PageOf(a))]
                && (ok <==> !verify || Part().mem[a..a + |data|] == data)
    {
      hide AfterProgram, ProgramPage, Loaded;
      var flashaddr := addr % MEMBYTES;
      DeviceAddress(addr);
      TakeOffline();
      var empty := EmptyPage(data);
      if empty {
        return true;
      }
      SamePage(flashaddr, |data|);
      ProgramAt(flashaddr, data);
      if verify {
        var buf := ReadBytes(flashaddr, |data|);
        ok := SameWords(buf, data);
      } else {
        ok := true;
      }
    }

    /** Compare a sector with what is wanted of it: is an erase needed, and if
        not, at which word (counted from base) does programming start?  The
        answer 0 says that nothing differs. */
    method Scan(sbuf: seq<byte>, dp: seq<byte>, base: nat) returns (needErase: bool, newv: nat)
      requires |sbuf| == |dp| && base > 0
      ensures needErase <==> exists i :: 0 <= i < |dp| && And8(sbuf[i], dp[i]) != dp[i]
      ensures newv == 0 <==> sbuf == dp
      ensures !needErase && newv != 0 ==>
                exists k: nat :: FirstDifference(sbuf, dp, k) && newv == k - k % 4 + base
    {
      needErase, newv := false, 0;
      for i := 0 to |dp|
        invariant !needErase && forall k :: 0 <= k < i ==> And8(sbuf[k], dp[k]) == dp[k]
        invariant newv == 0 <==> sbuf[..i] == dp[..i]
        invariant newv != 0 ==> exists k: nat :: k < i && FirstDifference(sbuf, dp, k) && newv == k - k % 4 + base
      {
        if And8(sbuf[i], dp[i]) != dp[i] {
          And8Idem(dp[i]);
          return true, i - i % 4 + base;
        } else if sbuf[i] != dp[i] && newv == 0 {
          newv := i - i % 4 + base;
          assert FirstDifference(sbuf, dp, i);
        }
      }
    }

    /** Program from bus address p to the end of its page, or of the data. */
    method ProgramNext(addr: nat, data: seq<byte>, s: nat, p: nat, verify: bool) returns (ok: bool)
      requires bus.flash.Valid() && Ready(Part())
      requires addr % 4 == 0 && |data| % 4 == 0 && p % 4 == 0 && s % SECTOR == 0
      requires FLASHBASE <= s <= p && FLASHBASE <= addr <= p < Hi(addr, |data|, s)
      requires addr + |data| <= FLASHBASE + MEMBYTES
      requires var a, x, end := addr - FLASHBASE, p - FLASHBASE, PageEnd(p, Hi(addr, |data|, s)) - FLASHBASE;
               Programmable(Part().mem, a, data, x, end)
      modifies bus.flash, bus.flash.mem, bus.flash.pmem
      ensures ok && bus.flash.Valid() && Ready(Part())
      ensures var a, x, end := addr - FLASHBASE, p - FLASHBASE, PageEnd(p, Hi(addr, |data|, s)) - FLASHBASE;
              && Part().mem == Filled(old(Part().mem), a, data, x, end)
              && bus.flash.log == old(bus.flash.log) +
                   (if Blank(data[x - a..end - a]) then [] else [Programmed(PageOf(x))])
    {
      hide Programmable, Filled, AfterProgram, Blank, PageOf, Ready;
      var start, len := p, addr + |data| - p;
      Clip(addr, |data|, s, p);
      if PageOf(start + len - 1) != PageOf(start) {
        len := PageOf(start + PAGE) - start;
      }
      ghost var a, x := addr - FLASHBASE, p - FLASHBASE;
      ghost var mem := Part().mem;
      DeviceAddress(p);
      PageFilled(mem, a, data, x, x + len);
      ok := PageProgram(start, data[p - addr..p - addr + len], verify);
    }

    /** Program the pages of the sector at bus address s, from bus address newv. */
    method ProgramPages(addr: nat, data: seq<byte>, s: nat, newv: nat, verify: bool) returns (ok: bool)
      requires bus.flash.Valid() && Ready(Part())
      requires addr % 4 == 0 && |data| % 4 == 0 && newv % 4 == 0 && s % SECTOR == 0
      requires FLASHBASE <= s <= newv && FLASHBASE <= addr <= newv <= Hi(addr, |data|, s)
      requires addr + |data| <= FLASHBASE + MEMBYTES
      requires var a, q, hi := addr - FLASHBASE, newv - FLASHBASE, Hi(addr, |data|, s) - FLASHBASE;
               Programmable(Part().mem, a, data, q, hi)
      modifies bus.flash, bus.flash.mem, bus.flash.pmem
      ensures ok && bus.flash.Valid() && Ready(Part())
      ensures var a, q, hi := addr - FLASHBASE, newv - FLASHBASE, Hi(addr, |data|, s) - FLASHBASE;
              && Part().mem == Filled(old(Part().mem), a, data, q, hi)
              && bus.flash.log == old(bus.flash.log) + PageLog(a, data, q, hi)
    {
      hide Programmable, Filled, PageLog, PageOf, PageEnd, Blank, Ready;
      var p := newv;
      ghost var a, q, hi := addr - FLASHBASE, newv - FLASHBASE, Hi(addr, |data|, s) - FLASHBASE;
      ghost var mem, x := Part().mem, q;
      FilledNone(mem, a, data, q);
      while p < s + SECTOR && p < addr + |data|
        invariant newv <= p && p % 4 == 0 && q <= x <= hi
        invariant x == if p - FLASHBASE < hi then p - FLASHBASE else hi
        invariant bus.flash.Valid() && Ready(Part())
        invariant Part().mem == Filled(mem, a, data, q, x)
        invariant bus.flash.log + PageLog(a, data, x, hi) == old(bus.flash.log) + PageLog(a, data, q, hi)
        decreases s + SECTOR - p
      {
        ghost var end := PageEnd(p, Hi(addr, |data|, s)) - FLASHBASE;
        PageAfterPage(addr, data, s, p, mem, q, hi);
        ok := ProgramNext(addr, data, s, p, verify);
        if !ok {
          return false;
        }
        p := PageOf(p + PAGE);
        x := end;
      }
      PageLogDone(a, data, hi);
      return true;
    }

    /** Read what the flash holds of the sector at bus address s, and decide. */
    method Examine(addr: nat, data: seq<byte>, s: nat) returns (needErase: bool, newv: nat)
      requires bus.flash.Valid() && Ready(Part())
      requires FLASHBASE <= addr && addr + |data| <= FLASHBASE + MEMBYTES && FLASHBASE <= s
      requires Lo(addr, s) <= Hi(addr, |data|, s)
      modifies bus.flash, bus.flash.mem, bus.flash.pmem
      ensures bus.flash.Valid() && Ready(Part()) && bus.flash.log == old(bus.flash.log)
      ensures Part().mem == old(Part().mem)
      ensures var a, t, mem := addr - FLASHBASE, s - FLASHBASE, Part().mem;
              && (needErase <==> NeedsErase(mem, a, data, t))
              && (newv == 0 <==> Matches(mem, a, data, t))
              && (!needErase && newv != 0 ==>
                    newv == Start(mem, a, data, t) + FLASHBASE && newv <= Hi(addr, |data|, s))
    {
      hide And8, Ready, NeedsErase, Matches, Start, FirstDiff, FirstDifference;
      var base := if addr > s then addr else s;
      var ln := (if addr + |data| > s + SECTOR then s + SECTOR else addr + |data|) - base;
      var sbuf := ReadBytes(base - FLASHBASE, ln);
      var dp := data[base - addr..base - addr + ln];
      needErase, newv := Scan(sbuf, dp, base);
      ghost var a, t, mem := addr - FLASHBASE, s - FLASHBASE, Part().mem;
      ScanMeans(mem, a, data, t, sbuf, dp);
      if !needErase && newv != 0 {
        ghost var k: nat :| FirstDifference(sbuf, dp, k) && newv == k - k % 4 + base;
        ScanStart(mem, a, data, t, sbuf, dp, k);
      }
    }

    /** The part of the data inside the sector at bus address s: compare,
        erase if a bit has to be set, program from the first word that differs. */
    method WriteSector(addr: nat, data: seq<byte>, s: nat, verify: bool) returns (alive: bool, ok: bool)
      requires bus.flash.Valid() && Ready(Part())
      requires addr % 4 == 0 && |data| % 4 == 0 && s % SECTOR == 0
      requires FLASHBASE <= addr && addr + |data| <= FLASHBASE + MEMBYTES && FLASHBASE <= s < FLASHBASE + MEMBYTES
      requires Lo(addr, s) <= Hi(addr, |data|, s)
      modifies bus.flash, bus.flash.mem, bus.flash.pmem
      ensures alive <==> Survives(old(Part().mem), addr - FLASHBASE, data, s - FLASHBASE)
      ensures alive ==>
        var a, t := addr - FLASHBASE, s - FLASHBASE;
        && ok && bus.flash.Valid() && Ready(Part())
        && Part().mem == SectorWritten(old(Part().mem), a, data, t)
        && bus.flash.log == old(bus.flash.log) + SectorLog(old(Part().mem), a, data, t)
    {
      hide SectorWritten, SectorLog, Filled, Programmable, PageLog, Erase, Ready, NeedsErase, Matches, Start;
      ghost var a, t, mem := addr - FLASHBASE, s - FLASHBASE, Part().mem;
      var needErase, newv := Examine(addr, data, s);
      BusBounds(addr, |data|, s);
      StartAligned(mem, addr, data, s);
      SectorPlan(mem, a, data, t);
      alive := true;
      if newv == 0 {
        MatchingSector(mem, a, data, t);
        return true, true;
      }
      if needErase {
        alive, ok := EraseSector(s, verify);
        if !alive || !ok {
          return alive, false;
        }
        newv := if s < addr then addr else s;
      }
      ok := ProgramPages(addr, data, s, newv, verify);
    }

    /** FLASHDRVR::write: put data at bus address addr.  The first call finds the
        part in whatever mode, and asks for its identity.  The part survives just
        when no sector from ERASABLE on needs an erase. */
    method Write(addr: nat, data: seq<byte>, verify: bool) returns (alive: bool, ok: bool)
      requires bus.flash.Valid() && Settled(Part()) && (id == FLASH_UNKNOWN || (id == DEVID && Ready(Part())))
      requires addr % 4 == 0 && |data| % 4 == 0
      requires FLASHBASE <= addr && addr + |data| <= FLASHBASE + MEMBYTES
      modifies this`id, bus.flash, bus.flash.mem, bus.flash.pmem
      ensures id == DEVID
      ensures alive <==> AllSurvive(old(Part().mem), addr - FLASHBASE, data)
      ensures alive ==>
        && ok && bus.flash.Valid() && Ready(Part()) && !Part().status.wel
        && Part().mem == Written(old(Part().mem), addr - FLASHBASE, data)
        && bus.flash.log == old(bus.flash.log) + WriteLog(old(Part().mem), addr - FLASHBASE, data)
    {
      hide Written, WriteLog, Ready, AllSurvive;
      FlashId();
      alive, ok := WriteSectors(addr, data, verify);
    }

    /** The sectors one after another. */
    method WriteSectors(addr: nat, data: seq<byte>, verify: bool) returns (alive: bool, ok: bool)
      requires bus.flash.Valid() && Ready(Part())
      requires addr % 4 == 0 && |data| % 4 == 0
      requires FLASHBASE <= addr && addr + |data| <= FLASHBASE + MEMBYTES
      modifies bus.flash, bus.flash.mem, bus.flash.pmem
      ensures alive <==> AllSurvive(old(Part().mem), addr - FLASHBASE, data)
      ensures alive ==>
        && ok && bus.flash.Valid() && Ready(Part()) && !Part().status.wel
        && Part().mem == Written(old(Part().mem), addr - FLASHBASE, data)
        && bus.flash.log == old(bus.flash.log) + WriteLog(old(Part().mem), addr - FLASHBASE, data)
    {
      hide Written, WrittenTo, SectorLog, SectorWritten, Ready, SectorOf, Survives, SurviveFrom, AllSurvive;
      ghost var a, mem := addr - FLASHBASE, Part().mem;
      var s := SectorOf(addr);
      SectorStart(addr);
      FirstSector(mem, a, data);
      AllFrom(mem, a, data);
      while s < SectorOf(addr + |data| + SECTOR - 1)
        invariant s % SECTOR == 0 && SectorOf(addr) <= s && FLASHBASE <= s
        invariant bus.flash.Valid() && Ready(Part())
        invariant Part().mem == WrittenTo(mem, a, data, s - FLASHBASE)
        invariant bus.flash.log + SectorsLog(mem, a, data, s - FLASHBASE) == old(bus.flash.log) + WriteLog(mem, a, data)
        invariant SurviveFrom(mem, a, data, s - FLASHBASE) <==> AllSurvive(mem, a, data)
        decreases addr + |data| + SECTOR - s
      {
        SectorSteps(addr, |data|, s);
        NextSector(mem, a, data, s - FLASHBASE);
        SurviveStep(mem, a, data, s - FLASHBASE);
        SurvivesNext(mem, a, data, s - FLASHBASE);
        alive, ok := WriteSector(addr, data, s, verify);
        if !alive || !ok {
          return alive, false;
        }
        s := s + SECTOR;
      }
      SectorSteps(addr, |data|, s);
      LastSector(mem, a, data, s - FLASHBASE);
      SurviveEnd(mem, a, data, s - FLASHBASE);
      DisableWrites();
      return true, true;
    }

    method DisableWrites()
      requires bus.flash.Valid() && Ready(Part())
      modifies bus.flash, bus.flash.mem, bus.flash.pmem
      ensures bus.flash.Valid() && Ready(Part()) && bus.flash.log == old(bus.flash.log)
      ensures Part().mem == old(Part().mem) && !Part().status.wel
    {
      TakeOffline();
      Command(F_WRDI);
      End();
    }
  }

  /** A part, a bus and a driver as they are made: the first write finds all ones,
      so that it erases nothing, and leaves the data. */
  method WriteToNew(addr: nat, data: seq<byte>, verify: bool) returns (driver: FlashDriver, ok: bool)
    requires addr % 4 == 0 && |data| % 4 == 0
    requires FLASHBASE <= addr && addr + |data| <= FLASHBASE + MEMBYTES
    ensures ok && driver.bus.flash.Valid() && Ready(driver.Part())
    ensures driver.Part().mem == Written(seq(MEMBYTES, _ => 255), addr - FLASHBASE, data)
    ensures driver.bus.flash.log == WriteLog(seq(MEMBYTES, _ => 255), addr - FLASHBASE, data)
  {
    hide Written, WriteLog, AllSurvive;
    var flash := new FlashSim();
    var bus := new SpiBus(flash);
    driver := new FlashDriver(bus);
    EasySurvives(seq(MEMBYTES, _ => 255), addr - FLASHBASE, data);
    var alive;
    alive, ok := driver.Write(addr, data, verify);
  }
}
