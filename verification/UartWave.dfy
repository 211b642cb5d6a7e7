/** The line of the transmitter of sim/verilated/dbluartsim.cpp from its setup word,
    tick by tick. */
module UartWave {
  import opened Options
  import opened Powers
  import Division
  import opened Bitwise
  import opened Bytes
  import opened Uart
  import opened UartStream

  // ---------- The bits of a frame ----------

  function BitOf(x: nat, i: nat): (b: nat)
    ensures b < 2
  {
    x / Pow2(i) % 2
  }

  lemma EvenQuotient(x: nat, p: nat, m: nat)
    requires p > 0 && x == p * (2 * m)
    ensures x / p % 2 == 0
  {
    Division.DivUnique(x, p, 2 * m, 0);
  }

  lemma EvenDifference(w: nat, a: nat, p: nat, h: nat, s: nat)
    requires p > 0 && s > 0 && w == a * s && a == p * (2 * h) && w >= a
    ensures (w - a) / p % 2 == 0
  {
    assert w - a == a * (s - 1);
    assert p * (2 * h) * (s - 1) == p * (2 * (h * (s - 1)));
    EvenQuotient(w - a, p, h * (s - 1));
  }

  /** A higher power of two, split. */
  lemma PowAbove(i: nat, k: nat) returns (h: nat)
    requires i < k
    ensures Pow2(k) == Pow2(i) * (2 * h)
  {
    h := Pow2(k - i - 1);
    Pow2Add(i, k - i);
    assert i + (k - i) == k && Pow2(k - i) == 2 * h;
  }

  /** The mask of ones from bit k on. */
  lemma MaskBit(k: nat, i: nat)
    requires 0 < k <= 31 && i < 32
    ensures Pow2(k) <= WORD && BitOf(WORD - Pow2(k), i) == if i >= k then 1 else 0
  {
    PowAtMost(k);
    hide Pow2;
    if i >= k {
      OnesBit(k, i);
    } else {
      MaskBelow(k, i);
    }
  }

  lemma MaskBelow(k: nat, i: nat)
    requires i < k <= 31 && Pow2(k) <= WORD && Pow2(32) == WORD
    ensures BitOf(WORD - Pow2(k), i) == 0
  {
    Pow2Add(k, 32 - k);
    assert k + (32 - k) == 32;
    var h := PowAbove(i, k);
    EvenDifference(WORD, Pow2(k), Pow2(i), h, Pow2(32 - k));
    hide Pow2;
  }

  /** The character, one place up. */
  lemma ShiftedBit(ch: nat, i: nat)
    requires i > 0
    ensures BitOf(2 * ch, i) == BitOf(ch, i - 1)
  {
    HalfThen(2 * ch, i - 1);
  }

  /** A single bit at place k. */
  lemma SingleBit(k: nat, i: nat)
    ensures BitOf(Pow2(k), i) == if i == k then 1 else 0
  {
    if i < k {
      var h := PowAbove(i, k);
      EvenQuotient(Pow2(k), Pow2(i), h);
    } else if i == k {
      Division.DivUnique(Pow2(k), Pow2(k), 1, 0);
    } else {
      Pow2Monotone(k + 1, i);
      assert Pow2(k + 1) == 2 * Pow2(k);
      Division.DivUnique(Pow2(k), Pow2(i), 0, Pow2(k));
    }
  }

  lemma NoBit(i: nat)
    ensures BitOf(0, i) == 0
  {
    Division.DivUnique(0, Pow2(i), 0, 0);
  }

  /** The register before the parity bit: a 0, the character, and ones from k on. */
  lemma BaseBit(k: nat, ch: byte, i: nat)
    requires 0 < k <= 12 && i < 32
    ensures Pow2(k) <= WORD
    ensures BitOf(Or(WORD - Pow2(k), 2 * ch, 32), i) ==
            if i >= k then 1 else if i == 0 then 0 else BitOf(ch, i - 1)
  {
    MaskBit(k, i);
    OrBit(WORD - Pow2(k), 2 * ch, 32, i);
    if i > 0 {
      ShiftedBit(ch, i);
    } else {
      assert Pow2(0) == 1;
    }
    hide Pow2, Or;
  }

  // ---------- The parity bit ----------

  /** The low eight bits, added up. */
  function SumOfBits(p: nat): nat {
    BitOf(p, 0) + BitOf(p, 1) + BitOf(p, 2) + BitOf(p, 3) + BitOf(p, 4) + BitOf(p, 5) + BitOf(p, 6) + BitOf(p, 7)
  }

  /** t places down. */
  function Down(x: nat, t: nat): nat { if t == 0 then x else Down(x / 2, t - 1) }

  lemma {:induction false} BitAbove(x: nat, t: nat, i: nat)
    ensures BitOf(Down(x, t), i) == BitOf(x, t + i)
  {
    if t > 0 {
      BitAbove(x / 2, t - 1, i);
      HalfThen(x, t - 1 + i);
      hide Pow2, Down;
    }
  }

  /** The sum of two bits without its carry. */
  function Plus(a: nat, b: nat): nat { (a + b) % 2 }

  /** A number folded onto itself, t places down. */
  lemma FoldedBit(p: nat, t: nat, i: nat)
    requires i < 8
    ensures BitOf(Xor(p, Down(p, t), 8), i) == Plus(BitOf(p, i), BitOf(p, t + i))
  {
    hide Xor, Pow2, BitOf, Down, Plus;
    XorAt(p, Down(p, t), i);
    BitAbove(p, t, i);
  }

  lemma XorAt(a: nat, b: nat, i: nat)
    requires i < 8
    ensures BitOf(Xor(a, b, 8), i) == Plus(BitOf(a, i), BitOf(b, i))
  {
    hide Xor, Pow2;
    XorBit(a, b, 8, i);
  }

  lemma SumParity(a: nat, b: nat, c: nat, d: nat, e: nat, f: nat, g: nat, h: nat)
    ensures Plus(Plus(Plus(a, e), Plus(c, g)), Plus(Plus(b, f), Plus(d, h))) == (a + b + c + d + e + f + g + h) % 2
  {
  }

  /** Folding a byte onto itself three times leaves the parity of its bits. */
  lemma FoldedParity(p: nat)
    ensures var q := Xor(p, Down(p, 4), 8);
            var r := Xor(q, Down(q, 2), 8);
            BitOf(Xor(r, Down(r, 1), 8), 0) == SumOfBits(p) % 2
  {
    hide Xor, BitOf, Plus, Down;
    var q := Xor(p, Down(p, 4), 8);
    var r := Xor(q, Down(q, 2), 8);
    FoldedBit(r, 1, 0);
    FoldedBit(q, 2, 0);
    FoldedBit(q, 2, 1);
    FoldedBit(p, 4, 0);
    FoldedBit(p, 4, 1);
    FoldedBit(p, 4, 2);
    FoldedBit(p, 4, 3);
    SumParity(BitOf(p, 0), BitOf(p, 1), BitOf(p, 2), BitOf(p, 3), BitOf(p, 4), BitOf(p, 5), BitOf(p, 6), BitOf(p, 7));
  }

  lemma LowestBit(x: nat)
    ensures BitOf(x, 0) == x % 2
  {
    assert Pow2(0) == 1;
  }

  lemma Downs(x: nat)
    ensures Down(x, 1) == x / 2 && Down(x, 2) == x / 4 && Down(x, 4) == x / 16
  {
    assert Down(x, 2) == Down(x / 2, 1) && Down(x, 4) == Down(x / 2, 3) == Down(x / 2 / 2, 2);
    assert x / 2 / 2 / 2 / 2 == x / 16;
  }

  lemma FoldedByte(p: nat)
    ensures var q := Xor(p, p / 16, 8);
            var r := Xor(q, q / 4, 8);
            Xor(r, r / 2, 8) % 2 == SumOfBits(p) % 2
  {
    hide Xor, BitOf, Down, SumOfBits;
    var q := Xor(p, p / 16, 8);
    var r := Xor(q, q / 4, 8);
    Downs(p);
    Downs(q);
    Downs(r);
    FoldedParity(p);
    LowestBit(Xor(r, r / 2, 8));
  }

  lemma ParityIs(cfg: Config, w: nat)
    requires cfg.Valid()
    ensures Parity(cfg, w) == if cfg.fixdp then cfg.evenp else (SumOfBits(w / 2 % 256) + cfg.evenp) % 2
  {
    hide Xor, BitOf, SumOfBits;
    var p := w / 2 % 256;
    FoldedByte(p);
    var q := Xor(p, p / 16, 8);
    var r := Xor(q, q / 4, 8);
    XorOne(Xor(r, r / 2, 8) % 2, cfg.evenp);
  }

  /** The low byte behind the start bit, as the parity is taken of it: the
      character up to bit n, and ones. */
  function Counted(n: nat, ch: byte): nat
    requires 5 <= n <= 8
  {
    BitOf(ch, 0) + BitOf(ch, 1) + BitOf(ch, 2) + BitOf(ch, 3) + BitOf(ch, 4) + BitOf(ch, 5)
    + (if n >= 6 then BitOf(ch, 6) else 1) + (if n >= 7 then BitOf(ch, 7) else 1)
  }

  lemma LowByteBit(w: nat, i: nat)
    requires i < 8
    ensures BitOf(w / 2 % 256, i) == BitOf(w, i + 1)
  {
    SmallPowers();
    Downs(w);
    BitAbove(w, 1, i);
    LowBits(w / 2, i);
    hide BitOf, Pow2;
  }

  lemma LowBits(x: nat, i: nat)
    requires i < 8
    ensures BitOf(x % 256, i) == BitOf(x, i)
  {
    SmallPowers();
    Pow2Add(i, 8 - i);
    assert i + (8 - i) == 8 && Pow2(8 - i) == 2 * Pow2(7 - i);
    hide Pow2;
    SameBit(x, x / 256, x % 256, Pow2(i), Pow2(7 - i));
  }

  /** Multiples of twice its weight do not change a bit. */
  lemma SameBit(x: nat, q: nat, r: nat, p: nat, h: nat)
    requires p > 0 && x == q * (p * (2 * h)) + r
    ensures x / p % 2 == r / p % 2
  {
    var a, b := r / p, r % p;
    assert q * (p * (2 * h)) == 2 * (q * h) * p;
    Division.DivUnique(x, p, 2 * (q * h) + a, b);
  }

  lemma CountedBits(n: nat, ch: byte, w: nat)
    requires 5 <= n <= 8
    requires forall i: nat :: 0 < i < 9 ==> BitOf(w, i) == if i >= n + 2 then 1 else BitOf(ch, i - 1)
    ensures SumOfBits(w / 2 % 256) == Counted(n, ch)
  {
    LowByteBit(w, 0);
    LowByteBit(w, 1);
    LowByteBit(w, 2);
    LowByteBit(w, 3);
    LowByteBit(w, 4);
    LowByteBit(w, 5);
    LowByteBit(w, 6);
    LowByteBit(w, 7);
    hide BitOf;
  }

  /** The parity bit, with which a character of too many bits is merged. */
  function ParityBit(cfg: Config, ch: byte): nat
    requires cfg.Valid()
  {
    if BitOf(ch, cfg.nbits) == 1 then 1
    else if cfg.fixdp then cfg.evenp
    else (Counted(cfg.nbits, ch) + cfg.evenp) % 2
  }

  /** The bits of a frame: a 0, the data lowest first, the parity bit if there is
      one, and ones. */
  lemma FrameBit(cfg: Config, ch: byte, j: nat)
    requires cfg.Valid() && j <= 12
    ensures BitOf(Frame(cfg, ch), j) ==
            if j == 0 then 0
            else if j <= cfg.nbits then BitOf(ch, j - 1)
            else if j == cfg.nbits + 1 && cfg.nparity == 1 then ParityBit(cfg, ch)
            else 1
  {
    hide Pow2, Or, Parity, BitOf, Frame, Counted, SumOfBits;
    var k := cfg.nbits + cfg.nparity + 1;
    BaseBit(k, ch, j);
    var w := Or(WORD - Pow2(k), 2 * ch, 32);
    FrameIs(cfg, ch, k, w);
    if cfg.nparity == 1 {
      assert k - 1 == cfg.nbits + 1;
      ParityOfFrame(cfg, ch, w);
      MergedBit(w, Parity(cfg, w), cfg.nbits + 1, j);
    }
  }

  lemma ParityOfFrame(cfg: Config, ch: byte, w: nat)
    requires cfg.Valid() && cfg.nparity == 1 && Pow2(cfg.nbits + 2) <= WORD
    requires w == Or(WORD - Pow2(cfg.nbits + 2), 2 * ch, 32)
    ensures Parity(cfg, w) == if cfg.fixdp then cfg.evenp else (Counted(cfg.nbits, ch) + cfg.evenp) % 2
  {
    hide Pow2, Or, Parity, BitOf, Counted, SumOfBits;
    var n := cfg.nbits;
    forall i: nat | 0 < i < 9
      ensures BitOf(w, i) == if i >= n + 2 then 1 else BitOf(ch, i - 1)
    {
      BaseBit(n + 2, ch, i);
    }
    CountedBits(n, ch, w);
    ParityIs(cfg, w);
  }

  lemma MergedBit(w: nat, b: nat, k: nat, j: nat)
    requires b < 2 && j < 32
    ensures BitOf(Or(w, b * Pow2(k), 32), j) ==
            if BitOf(w, j) == 1 then 1 else if j == k then b else 0
  {
    OrBit(w, b * Pow2(k), 32, j);
    if b == 1 {
      SingleBit(k, j);
    } else {
      NoBit(j);
    }
    hide Or, Pow2;
  }

  // ---------- The line, tick by tick ----------

  /** The transmitter between frames, or c ticks into bit j of frame k. */
  datatype Place = Gap(k: nat) | InBit(k: nat, j: nat, c: nat)

  /** The ticks that have gone by. */
  function Time(cfg: Config, p: Place): nat {
    match p
    case Gap(k) => k * FrameTicks(cfg)
    case InBit(k, j, c) => k * FrameTicks(cfg) + (1 + j * cfg.baud + c)
  }

  /** It is there, with these characters to send in all. */
  ghost predicate At(cfg: Config, tx: Tx, pending: seq<byte>, chars: seq<byte>, p: Place)
    requires cfg.Valid()
  {
    match p
    case Gap(k) => !tx.sending && pending == if k < |chars| then chars[k..] else []
    case InBit(k, j, c) =>
      && k < |chars| && j <= cfg.Samples() && c < cfg.baud
      && SendingBit(cfg, tx, chars[k], j) && tx.counter == cfg.baud - 1 - c && pending == chars[k + 1..]
  }

  /** The next tick, and the bit of the frame on the line in it: the one behind
      the last bit is that of the idle line. */
  function Next(cfg: Config, p: Place): Place {
    match p
    case Gap(k) => InBit(k, 0, 0)
    case InBit(k, j, c) =>
      if c + 1 < cfg.baud then InBit(k, j, c + 1) else if j < cfg.Samples() then InBit(k, j + 1, 0) else Gap(k + 1)
  }

  function BitAt(cfg: Config, p: Place): nat {
    match p
    case Gap(_) => 0
    case InBit(_, j, c) => if c + 1 < cfg.baud then j else j + 1
  }

  lemma NextTime(cfg: Config, p: Place)
    requires cfg.Valid() && (p.InBit? ==> p.j <= cfg.Samples() && p.c < cfg.baud)
    ensures Time(cfg, Next(cfg, p)) == Time(cfg, p) + 1
  {
    if p.InBit? {
      assert (p.j + 1) * cfg.baud == p.j * cfg.baud + cfg.baud;
      assert p.j == cfg.Samples() ==> (p.j + 1) * cfg.baud == FrameTicks(cfg) - 1;
      assert (p.k + 1) * FrameTicks(cfg) == p.k * FrameTicks(cfg) + FrameTicks(cfg);
      hide FrameTicks;
    }
  }

  /** The frame and the bit, from the time. */
  lemma PlaceOf(cfg: Config, p: Place)
    requires cfg.Valid() && (p.InBit? ==> p.j <= cfg.Samples() && p.c < cfg.baud)
    ensures var t, frame := Time(cfg, p), FrameTicks(cfg);
            t / frame == p.k && t % frame / cfg.baud == BitAt(cfg, p)
  {
    var frame, baud := FrameTicks(cfg), cfg.baud;
    if p.Gap? {
      Division.DivUnique(p.k * frame, frame, p.k, 0);
      Division.DivUnique(0, baud, 0, 0);
    } else {
      var r := 1 + p.j * baud + p.c;
      assert (p.j + 1) * baud == p.j * baud + baud;
      Division.Scale(p.j + 1, cfg.Samples() + 1, baud);
      assert r < frame;
      Division.DivUnique(p.k * frame + r, frame, p.k, r);
      if p.c + 1 < baud {
        Division.DivUnique(r, baud, p.j, p.c + 1);
      } else {
        Division.DivUnique(r, baud, p.j + 1, 0);
      }
    }
  }

  /** One tick of the transmitter with something left to send. */
  lemma SendStep(cfg: Config, tx: Tx, pending: seq<byte>, chars: seq<byte>, p: Place)
    requires cfg.Valid() && At(cfg, tx, pending, chars, p) && p.k < |chars|
    ensures var next := if pending == [] then None else Some(pending[0]);
            var (tx', line) := TxStep(cfg, tx, next);
            && At(cfg, tx', if tx.sending || pending == [] then pending else pending[1..], chars, Next(cfg, p))
            && line == if BitAt(cfg, p) <= cfg.Samples() then BitOf(Frame(cfg, chars[p.k]), BitAt(cfg, p)) else 1
  {
    hide Frame, Pow2;
    var ch := chars[p.k];
    var next := if pending == [] then None else Some(pending[0]);
    match p
    case Gap(k) =>
      TxLoad(cfg, tx, ch);
      FrameBit(cfg, ch, 0);
    case InBit(k, j, c) => TxTick(cfg, tx, ch, j, next);
  }

  /** With eight data bits the parity is that of the character. */
  lemma CountedAll(ch: byte)
    ensures Counted(8, ch) == ch % 2 + ch / 2 % 2 + ch / 4 % 2 + ch / 8 % 2 + ch / 16 % 2 + ch / 32 % 2
                              + ch / 64 % 2 + ch / 128 % 2
  {
    SmallPowers();
  }

  /** The bit on the line t ticks after the first. */
  function LineBit(cfg: Config, chars: seq<byte>, t: nat): nat
    requires cfg.Valid()
  {
    var k, j := t / FrameTicks(cfg), t % FrameTicks(cfg) / cfg.baud;
    if 0 <= k < |chars| && 0 <= j <= cfg.Samples() then BitOf(Frame(cfg, chars[k]), j) else 1
  }

  /** The line from the start, tick by tick. */
  method Drive(sim: DbluartSim, chars: seq<byte>, ticks: nat) returns (line: seq<nat>)
    requires sim.cfg.Valid() && sim.TxView() == TXIDLE && sim.pending == chars
    modifies sim
    ensures |line| == ticks && forall t :: 0 <= t < ticks ==> line[t] == LineBit(old(sim.cfg), chars, t)
  {
    hide Frame, LineBit, FrameTicks, TxStep, RxStep, At, Next, BitAt;
    ghost var cfg, p := sim.cfg, Gap(0);
    StartsAt(cfg, chars);
    line := [];
    for t := 0 to ticks
      invariant |line| == t && sim.cfg == cfg && forall i :: 0 <= i < t ==> line[i] == LineBit(cfg, chars, i)
      invariant if p.k < |chars| then At(cfg, sim.TxView(), sim.pending, chars, p) && Time(cfg, p) == t
                else !sim.TxView().sending && sim.pending == [] && |chars| * FrameTicks(cfg) <= t
    {
      if p.k < |chars| {
        DriveStep(cfg, sim.TxView(), sim.pending, chars, p);
      } else {
        IdleBit(cfg, sim.TxView(), chars, t);
      }
      var bit := sim.Tick(1);
      line := line + [bit];
      if p.k < |chars| {
        p := Next(cfg, p);
      }
    }
  }

  lemma StartsAt(cfg: Config, chars: seq<byte>)
    requires cfg.Valid()
    ensures At(cfg, TXIDLE, chars, chars, Gap(0)) && Time(cfg, Gap(0)) == 0
  {
    assert chars == [] || chars[0..] == chars;
  }

  lemma DriveStep(cfg: Config, tx: Tx, pending: seq<byte>, chars: seq<byte>, p: Place)
    requires cfg.Valid() && At(cfg, tx, pending, chars, p) && p.k < |chars|
    ensures var next := if pending == [] then None else Some(pending[0]);
            var (tx', line) := TxStep(cfg, tx, next);
            var p', pending' := Next(cfg, p), if tx.sending || pending == [] then pending else pending[1..];
            && line == LineBit(cfg, chars, Time(cfg, p)) && Time(cfg, p') == Time(cfg, p) + 1
            && At(cfg, tx', pending', chars, p')
            && (p'.k >= |chars| ==> !tx'.sending && pending' == [] && |chars| * FrameTicks(cfg) <= Time(cfg, p) + 1)
  {
    hide Frame, TxStep, FrameTicks;
    SendStep(cfg, tx, pending, chars, p);
    NextTime(cfg, p);
    PlaceOf(cfg, p);
  }

  lemma AtLeast(t: nat, n: nat, m: nat)
    requires m > 0 && n * m <= t
    ensures t / m >= n
  {
    var d := t - n * m;
    Division.Split(d, m);
    assert (n + d / m) * m == n * m + d / m * m;
    Division.DivUnique(t, m, n + d / m, d % m);
  }

  lemma IdleBit(cfg: Config, tx: Tx, chars: seq<byte>, t: nat)
    requires cfg.Valid() && !tx.sending && |chars| * FrameTicks(cfg) <= t
    ensures TxStep(cfg, tx, None) == (tx, 1) && LineBit(cfg, chars, t) == 1
  {
    AtLeast(t, |chars|, FrameTicks(cfg));
    hide FrameTicks;
  }

  /** A bit of a frame by the bits of the setup word. */
  lemma SetupBit(isetup: nat, ch: byte, j: nat)
    requires isetup % 0x100_0000 > 0
    ensures Setup(isetup).Valid()
    ensures var n, parity := 8 - isetup / 0x1000_0000 % 4, isetup / 0x400_0000 % 2;
            (if j <= Setup(isetup).Samples() then BitOf(Frame(Setup(isetup), ch), j) else 1) ==
            if j == 0 then 0
            else if j <= n then ch / Pow2(j - 1) % 2
            else if j > n + parity || ch / Pow2(n) % 2 == 1 then 1
            else if isetup / 0x200_0000 % 2 == 1 then isetup / 0x100_0000 % 2
            else (Counted(n, ch) + isetup / 0x100_0000 % 2) % 2
  {
    SetupValid(isetup);
    if j <= Setup(isetup).Samples() {
      FrameBit(Setup(isetup), ch, j);
    }
    hide Frame, Counted, Pow2;
  }

  /** The frame, and the bit of it, after t ticks. */
  function FrameNo(t: nat, frame: nat): nat
    requires frame > 0
  {
    t / frame
  }

  function BitNo(t: nat, frame: nat, baud: nat): nat
    requires frame > 0 && baud > 0
  {
    t % frame / baud
  }

  /** The ticks of a number of bits, and one more. */
  function FrameLength(bits: nat, baud: nat): (n: nat)
    ensures n > 0
  {
    bits * baud + 1
  }

  /** From the setup word to the line.  The low 24 bits are the ticks of a bit; bits
      28 and 29 tell how many of eight data bits are missing, bit 26 whether there
      is a parity bit, bit 25 whether it is bit 24 or taken with it, and bit 27
      whether there are two stop bits.  Each frame is a 0, the data lowest first,
      the parity bit, and ones for the stop bits and a tick; then the line is idle. */
  method Waveform(isetup: nat, chars: seq<byte>, ticks: nat) returns (line: seq<nat>)
    requires isetup % 0x100_0000 > 0
    ensures |line| == ticks
    ensures var baud, n, parity := isetup % 0x100_0000, 8 - isetup / 0x1000_0000 % 4, isetup / 0x400_0000 % 2;
            var frame := FrameLength(1 + n + parity + 1 + isetup / 0x800_0000 % 2, baud);
            forall t :: 0 <= t < ticks ==>
              var k, j := FrameNo(t, frame), BitNo(t, frame, baud);
              line[t] ==
              if k >= |chars| then 1
              else if j == 0 then 0
              else if j <= n then chars[k] / Pow2(j - 1) % 2
              else if j > n + parity || chars[k] / Pow2(n) % 2 == 1 then 1
              else if isetup / 0x200_0000 % 2 == 1 then isetup / 0x100_0000 % 2
              else (Counted(n, chars[k]) + isetup / 0x100_0000 % 2) % 2
  {
    hide Frame, Counted, Pow2, BitOf, LineBit, FrameNo, BitNo, FrameLength, FrameTicks;
    SetupValid(isetup);
    var sim := new DbluartSim(isetup);
    sim.pending := chars;
    line := Drive(sim, chars, ticks);
    forall t: nat {
      LineBitIs(Setup(isetup), chars, t);
    }
    SetupFrame(isetup);
    forall k: nat, j: nat | k < |chars| {
      SetupBit(isetup, chars[k], j);
    }
  }

  lemma LineBitIs(cfg: Config, chars: seq<byte>, t: nat)
    requires cfg.Valid()
    ensures FrameTicks(cfg) > 0
    ensures var k, j := FrameNo(t, FrameTicks(cfg)), BitNo(t, FrameTicks(cfg), cfg.baud);
            LineBit(cfg, chars, t) == if k < |chars| && j <= cfg.Samples() then BitOf(Frame(cfg, chars[k]), j) else 1
  {
    hide Frame, BitOf;
    assert FrameTicks(cfg) > 0;
    hide FrameTicks;
  }

  lemma SetupFrame(isetup: nat)
    ensures var cfg := Setup(isetup);
            && cfg.baud == isetup % 0x100_0000
            && FrameTicks(cfg) == FrameLength(1 + (8 - isetup / 0x1000_0000 % 4) + isetup / 0x400_0000 % 2
                                              + 1 + isetup / 0x800_0000 % 2, isetup % 0x100_0000)
  {
  }
}
