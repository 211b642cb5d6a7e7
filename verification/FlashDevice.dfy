/** The serial flash of sim/verilated/flashsim.{h,cpp} as a value: one call of
    FLASHSIM::operator() is the function Tick.  An assertion that fires, or a
    call of exit(), ends the simulation and is modelled by None. */
module FlashDevice {
  import opened Options
  import opened Bytes

  // The address space of the part (FLASHLGLEN is 24), its pages and its sectors
  const MEMBYTES: nat := 0x100_0000
  const PAGE: nat := 256
  const SECTOR: nat := 0x1_0000
  const WORD: nat := 0x1_0000_0000

  // An erase address from here on fails an assertion
  const ERASABLE: nat := 0x40_0000

  // Write, erase and wake-up times in calls, at a clock of 100 MHz
  const T_W: nat := 5_000
  const T_BE: nat := 3_200_000_000
  const T_DP: nat := 1_000_000_000
  const T_RES: nat := 3_000_000_000
  const T_PP: nat := 1_200
  const T_SE: nat := 1_500_000

  const DEVID: nat := 0x0115_2340
  const DEVESD: nat := 0x14
  const NDUMMY: nat := 6

  datatype State =
    | Idle | QuadReadIdle | Rdsr | Rdcr | Wrsr | Clsr | Rdid | Release
    | SlowRead | FastRead | QuadReadCmd | QuadRead | SectorErase
    | PP | QPP | BulkErase | DeepPowerDown
    | DualReadIdle | DualReadCmd | DualRead | Invalid

  datatype Mode = Spi | Dspi | Qspi

  /** m_sreg, bit by bit: write in progress (0x001), write enable (0x002),
      block protection (0x01c), errors (0x060), register write disable (0x080)
      and deep power down (0x200). */
  datatype Status = Status(wip: bool, wel: bool, block: nat, errors: nat, srwd: bool, dpd: bool) {
    /** The low eight bits. */
    function Low(): nat {
      (if wip then 1 else 0) + (if wel then 2 else 0) + 4 * block + 32 * errors + (if srwd then 128 else 0)
    }

    /** 2 == (m_sreg & 0x203): the test every write and erase command makes. */
    predicate WriteAllowed() { wel && !wip && !dpd }

    /** m_sreg &= 0x0fc: what happens when the write timer runs out. */
    function Expired(): Status { this.(wip := false, wel := false, dpd := false) }
  }

  /** The value after power-up, 0x01c. */
  const STATUS0 := Status(false, false, 7, 0, false, false)

  datatype Device = Device(
    mem: seq<byte>, pmem: seq<byte>, state: State, mode: Mode, lastSck: bool,
    timer: nat, ireg: nat, oreg: nat, status: Status, creg: byte,
    addr: nat, count: nat, modeByte: byte)
  {
    predicate Valid() { |mem| == MEMBYTES && |pmem| == PAGE }

    /** m_mem[m_addr]; a location outside the array reads as 0. */
    function MemByte(): byte { if addr < |mem| then mem[addr] else 0 }

    function WithLow(v: nat): Device { this.(oreg := oreg - oreg % 256 + v % 256) }

    /** QOREG(m_mem[m_addr++]) */
    function Fetch(): Device { WithLow(MemByte()).(addr := addr + 1) }

    /** The four lines driven back, given the four lines received. */
    function Output(dat: nat): nat {
      match mode
      case Qspi => oreg / 256 % 16
      case Dspi => oreg / 256 % 4 + dat / 4 % 4 * 4
      case Spi => (if oreg / 256 % 2 == 1 then 2 else 0) + dat / 4 % 4 * 4 + dat % 2
    }

    /** A page program or an erase starts: the write enable is used up, the part is busy. */
    function Busy(ticks: nat): Device {
      this.(timer := ticks, state := Idle, status := status.(wel := false, wip := true))
    }
  }

  /** The page buffer is ANDed into the page that starts at base. */
  function ProgramPage(mem: seq<byte>, base: nat, pmem: seq<byte>): (r: seq<byte>)
    requires |pmem| == PAGE
    ensures |r| == |mem|
  {
    seq(|mem|, i requires 0 <= i < |mem| =>
      if base <= i < base + PAGE then And8(mem[i], pmem[i - base]) else mem[i])
  }

  /** n locations from base read 0xff, the others are unchanged. */
  function Erase(mem: seq<byte>, base: nat, n: nat): (r: seq<byte>)
    ensures |r| == |mem|
  {
    seq(|mem|, i requires 0 <= i < |mem| => if base <= i < base + n then 255 else mem[i])
  }

  function PageOf(a: nat): nat { a - a % PAGE }

  function SectorOf(a: nat): nat { a - a % SECTOR }

  /** The write timer after n calls. */
  function Age(d: Device, n: nat): Device {
    if d.timer == 0 || n == 0 then d
    else if n < d.timer then d.(timer := d.timer - n)
    else d.(timer := 0, status := d.status.Expired())
  }

  /** A call with the chip select high. */
  function CsRise(d: Device): Device
    requires |d.pmem| == PAGE
  {
    var e := d.(lastSck := true, ireg := 0, oreg := 0xfe, count := 0);
    match e.state
    case PP | QPP => e.Busy(T_PP).(mem := ProgramPage(e.mem, PageOf(e.addr), e.pmem), mode := Spi)
    case SectorErase =>
      e.Busy(T_SE).(addr := SectorOf(e.addr), mem := Erase(e.mem, SectorOf(e.addr), SECTOR))
    case Wrsr => e.Busy(T_W)
    case Clsr => e.(state := Idle, status := e.status.(errors := 0, dpd := false))
    case BulkErase => e.Busy(T_BE).(mem := Erase(e.mem, 0, |e.mem|))
    case DeepPowerDown => e.(timer := T_DP, state := Idle)
    case Release => e.(timer := T_RES, state := Idle)
    case QuadReadCmd | QuadRead =>
      if e.modeByte / 16 != 0xa then e.(mode := Spi) else e.(state := QuadReadIdle)
    case DualReadCmd | DualRead =>
      if e.modeByte / 16 != 0xa then e.(mode := Spi) else e.(state := DualReadIdle)
    case _ => e
  }

  /** The shift registers at a falling clock edge. */
  function Shift(d: Device, dat: nat): Device {
    match d.mode
    case Qspi => d.(ireg := (d.ireg * 16 + dat % 16) % WORD, count := d.count + 4, oreg := d.oreg * 16 % WORD)
    case Dspi => d.(ireg := (d.ireg * 4 + dat % 4) % WORD, count := d.count + 2, oreg := d.oreg * 4 % WORD)
    case Spi => d.(ireg := (d.ireg * 2 + dat % 2) % WORD, count := d.count + 1, oreg := d.oreg * 2 % WORD)
  }

  /** What a command byte sets: the next state and mode, the status register,
      the write timer and the byte to shift out. */
  datatype Decoded = Decoded(state: State, mode: Mode, status: Status, timer: nat, low: nat)

  function Decode(cmd: nat, state: State, mode: Mode, s: Status, timer: nat, creg: byte): Option<Decoded> {
    var r := Decoded(state, mode, s, timer, 0xa5);
    if s.dpd && cmd != 0xab then Some(r)
    else match cmd
    case 0x01 => Some(r.(state := if s.WriteAllowed() then Wrsr else Invalid))
    case 0x02 => Some(r.(state := if s.WriteAllowed() then PP else Invalid))
    case 0x03 => Some(r.(state := SlowRead))
    case 0x04 => Some(r.(state := Idle, status := s.(wel := false)))
    case 0x05 => Some(r.(state := Rdsr, low := s.Low()))
    case 0x06 => Some(r.(state := Idle, status := s.(wel := true)))
    case 0x0b => Some(r.(state := FastRead))
    case 0x30 => Some(r.(state := Clsr))
    case 0x32 => Some(r.(state := if s.WriteAllowed() then QPP else Invalid))
    case 0x35 => Some(r.(state := Rdcr, low := creg))
    case 0x50 => Some(r.(state := Idle, low := 0))
    case 0x61 => Some(r.(state := Idle, low := 0))
    case 0x70 => Some(r.(state := Idle, low := 0))
    case 0x81 => Some(r.(low := 0))
    case 0x9f => Some(r.(state := Rdid, low := DEVID / 0x100_0000))
    case 0xab =>
      Some(r.(state := Release, status := s.(dpd := false), timer := if s.dpd then T_RES else timer))
    case 0xb9 =>
      Some(if s.wip then r.(state := Invalid) else r.(state := Idle, status := s.(dpd := true)))
    case 0xbb => Some(r.(state := DualReadCmd, mode := Dspi))
    case 0xc7 => Some(r.(state := if s.WriteAllowed() then BulkErase else Invalid))
    case 0xd8 => Some(r.(state := if s.WriteAllowed() then SectorErase else Invalid))
    case 0xeb => Some(r.(state := QuadReadCmd, mode := Qspi))
    case 0x00 => Some(r.(state := Idle, mode := Spi))
    case 0x31 => Some(r.(state := Idle, mode := Spi))
    case 0xff => Some(r.(state := Idle, mode := Spi))
    case _ => None
  }

  /** The eighth bit has arrived: decode the command byte. */
  function Command(d: Device): Option<Device> {
    match Decode(d.ireg % 256, d.state, d.mode, d.status, d.timer, d.creg)
    case None => None
    case Some(r) =>
      Some(d.(state := r.state, mode := r.mode, status := r.status, timer := r.timer).WithLow(r.low))
  }

  /** A later byte of page data, or the address before it. */
  function PageData(d: Device): Device
    requires |d.pmem| == PAGE
  {
    if d.count == 32 then
      d.(addr := d.ireg % MEMBYTES, pmem := seq(PAGE, _ => 255),
         mode := if d.state == QPP then Qspi else d.mode)
    else if d.count >= 40 then
      d.(pmem := d.pmem[d.addr % PAGE := d.ireg % 256], addr := PageOf(d.addr) + (d.addr + 1) % PAGE)
    else d
  }

  /** A later byte of a read command: its address, its mode byte, or time to
      fetch the next byte of memory. */
  function ReadData(d: Device): Device {
    var low := d.ireg % 256;
    match d.state
    case SlowRead =>
      if d.count == 32 then d.(addr := d.ireg % MEMBYTES).Fetch()
      else if d.count >= 40 && !d.status.wip then d.Fetch()
      else d.(oreg := 0)
    case FastRead =>
      if d.count == 32 then d.(addr := d.ireg % MEMBYTES).WithLow(0xc3)
      else if d.count >= 40 && !d.status.wip then d.Fetch()
      else d.(oreg := 0)
    case DualReadCmd =>
      if d.count == 32 then d.(addr := d.ireg % MEMBYTES)
      else if d.count == 40 && !d.status.wip then d.(modeByte := low).Fetch()
      else if d.count > 40 && !d.status.wip then d.Fetch()
      else d.(oreg := 0)
    case QuadReadCmd =>
      if d.count == 32 then d.(addr := d.ireg % MEMBYTES)
      else if d.count == 40 then d.(modeByte := low)
      else if d.count > 32 + 4 * NDUMMY && !d.status.wip then d.Fetch()
      else d.(oreg := 0)
    case DualRead => (if d.count == 32 then d.(modeByte := low) else d).Fetch()
    case QuadRead =>
      if d.count == 32 then d.(modeByte := low)
      else if d.count >= 24 + 4 * NDUMMY && !d.status.wip then d.Fetch()
      else d.(oreg := 0)
    case _ => d
  }

  /** A later byte has arrived. */
  function DataByte(d0: Device): Option<Device>
    requires |d0.pmem| == PAGE
  {
    var d, low := d0.WithLow(0), d0.ireg % 256;
    match d.state
    case Wrsr =>
      if d.count == 16 then
        Some(d.(status := d.status.(block := low / 4 % 8, srwd := low / 128 % 2 == 1, wel := false, dpd := false)))
      else if d.count == 24 then Some(d.(creg := d.creg - d.creg / 2 % 2 * 2 + low / 2 % 2 * 2))
      else None
    case Clsr => None
    case Rdid =>
      Some(d.WithLow(if d.count == 16 then DEVID / 0x1_0000 else if d.count == 24 then DEVID / 256
                     else if d.count == 32 then DEVID else 0))
    case Rdsr => Some(d.WithLow(d.status.Low()))
    case Rdcr => Some(d.WithLow(d.creg))
    case SlowRead | FastRead | DualReadCmd | QuadReadCmd | DualRead | QuadRead => Some(ReadData(d))
    case PP | QPP => Some(PageData(d))
    case SectorErase =>
      if d.count == 32 then
        var a := d.ireg % MEMBYTES / 0x4000 * 0x4000;
        if a < ERASABLE then Some(d.(addr := a)) else None
      else Some(d)
    case Release => Some(if d.count >= 32 then d.WithLow(DEVESD) else d)
    case _ => Some(d)
  }

  /** The assertion is made with masks: of the address with its lower fourteen
      bits cleared, bits 22 to 27 must not be set. */
  lemma EraseMasks(ireg: bv32)
    ensures (ireg & 0x0ffc000) & 0xfc00000 == 0 <==> (ireg & 0x0ffffff) < 0x400000
  {
  }

  /** What the device does with the bits it has after a shift. */
  function Process(d: Device): Option<Device>
    requires |d.pmem| == PAGE
  {
    if d.state == QuadReadIdle || d.state == DualReadIdle then
      if d.status.dpd || d.mode != (if d.state == QuadReadIdle then Qspi else Dspi) then None
      else if d.count == 24 then
        Some(d.(addr := d.ireg % MEMBYTES, oreg := 0,
                state := if d.state == QuadReadIdle then QuadRead else DualRead))
      else Some(d.(oreg := 0))
    else if d.count == 8 then Command(d)
    else if d.count % 8 == 0 && d.count != 0 then DataByte(d)
    else Some(d)
  }

  /** One call of operator(): the timer, then the chip select, then the clock. */
  function Tick(d0: Device, csn: bool, sck: bool, dat: nat): Option<Device>
    requires |d0.pmem| == PAGE
  {
    var d := Age(d0, 1);
    if csn then Some(CsRise(d))
    else if !d.lastSck || sck == d.lastSck then Some(d.(lastSck := sck))
    else
      match Process(Shift(d, dat))
      case None => None
      case Some(e) => Some(e.(lastSck := sck))
  }
}
