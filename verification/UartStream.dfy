/** One transmitter wired to one receiver: streams of any length, with any gaps. */
module UartStream {
  import opened Options
  import opened Powers
  import Division
  import opened Bitwise
  import opened Bytes
  import opened Uart

  /** The transmitter, its queue, and the receiver at the other end of the wire. */
  datatype Link = Link(queue: seq<byte>, tx: Tx, rx: Rx, got: seq<byte>)

  const START := Link([], TXIDLE, RXIDLE, [])

  /** One tick: characters arrive in the queue, the transmitter drives the
      line, the receiver samples it. */
  function Step(cfg: Config, l: Link, arrivals: seq<byte>): Link
    requires cfg.Valid()
  {
    var q := l.queue + arrivals;
    var (tx, line) := TxStep(cfg, l.tx, if q == [] then None else Some(q[0]));
    var (rx, ch) := RxStep(cfg, l.rx, line);
    Link(if l.tx.sending || q == [] then q else q[1..], tx, rx, l.got + if ch.Some? then [ch.value] else [])
  }

  /** What the receiver makes of a character: the first eight bits after the
      start bit, or fewer if the frame is shorter. */
  function Decoded(cfg: Config, ch: byte): byte
    requires cfg.Valid()
  {
    Frame(cfg, ch) / 2 % Pow2(cfg.Samples()) % 256
  }

  function DecodedAll(cfg: Config, s: seq<byte>): seq<byte>
    requires cfg.Valid()
  {
    seq(|s|, i requires 0 <= i < |s| => Decoded(cfg, s[i]))
  }

  // ---------- The invariant ----------

  /** Where the link is.  Sync: bit j of the frame of ch is on the line and m
      bits have been sampled.  Tail: the frame is over, the receiver is not
      done.  Late: the next frame has begun as well.  Pickup: the receiver is
      done in the middle of the next start bit. */
  datatype Phase =
    | Rest
    | Sync(ch: byte, j: nat, m: nat)
    | Tail(ch: byte)
    | Late(ch: byte, next: byte)
    | Pickup(ch: byte)

  function InFlight(p: Phase): seq<byte> {
    match p
    case Rest => []
    case Sync(ch, _, _) => [ch]
    case Tail(ch) => [ch]
    case Late(ch, next) => [ch, next]
    case Pickup(ch) => [ch]
  }

  /** The transmitter has bit j of the frame of ch on the line. */
  ghost predicate SendingBit(cfg: Config, tx: Tx, ch: byte, j: nat)
    requires cfg.Valid()
  {
    && j <= cfg.Samples() && tx.sending && 0 <= tx.counter < cfg.baud
    && tx.data == Frame(cfg, ch) / Pow2(j)
    && tx.busy == Pow2(cfg.Samples() + 1 - j) - 1
  }

  /** The first m bits of x, at the top of a word. */
  function HeldBits(x: nat, m: nat): nat
    requires m <= 32
  {
    x % Pow2(m) * Pow2(32 - m)
  }

  /** The receiver has m bits of the frame of ch. */
  ghost predicate HasBits(cfg: Config, rx: Rx, ch: byte, m: nat)
    requires cfg.Valid()
  {
    && m <= cfg.Samples() && rx.receiving && rx.counter >= 0
    && rx.data == HeldBits(Frame(cfg, ch) / 2, m)
    && rx.busy == Pow2(m) - 1
  }

  ghost predicate InPhase(cfg: Config, l: Link, p: Phase)
    requires cfg.Valid()
  {
    var n, tx, rx := cfg.baud, l.tx, l.rx;
    match p
    case Rest => !tx.sending && !rx.receiving && rx.lastLine == 1
    case Sync(ch, j, m) =>
      && SendingBit(cfg, tx, ch, j) && HasBits(cfg, rx, ch, m)
      && ((j == m && rx.counter == tx.counter + n / 2) || (j == m + 1 && rx.counter == tx.counter + n / 2 - n))
    case Tail(ch) =>
      && !tx.sending && HasBits(cfg, rx, ch, cfg.Samples())
      && rx.counter < n / 2 && rx.lastLine == 1
    case Late(ch, next) =>
      && SendingBit(cfg, tx, next, 0) && HasBits(cfg, rx, ch, cfg.Samples())
      && rx.changectr == n - 1 - tx.counter && rx.lastLine == 0
      && rx.counter + rx.changectr <= n / 2 - 2
    case Pickup(ch) =>
      && SendingBit(cfg, tx, ch, 0) && !rx.receiving
      && rx.changectr == n - 1 - tx.counter <= n / 2 - 1 && rx.lastLine == 0
  }

  // ---------- Arithmetic of the registers ----------

  lemma EvenShift(p: nat, k: nat)
    requires k > 0
    ensures p * Pow2(k) % 2 == 0
  {
    assert p * Pow2(k) == 2 * (p * Pow2(k - 1));
  }

  /** A frame begins with a 0 and ends, after the stop bits, with a 1. */
  lemma FrameEnds(cfg: Config, ch: byte)
    requires cfg.Valid()
    ensures Frame(cfg, ch) % 2 == 0
    ensures Frame(cfg, ch) / Pow2(cfg.Samples() + 1) % 2 == 1
  {
    var k, i := cfg.nbits + cfg.nparity + 1, cfg.Samples() + 1;
    assert 1 < k <= i < 32;
    PowAtMost(k);
    hide Pow2, Or, Parity, Frame;
    BaseEnds(k, i, ch);
    var w := Or(WORD - Pow2(k), 2 * ch, 32);
    FrameIs(cfg, ch, k, w);
    if cfg.nparity == 1 {
      ParityEnds(w, Parity(cfg, w), k, i);
    }
  }

  lemma FrameIs(cfg: Config, ch: byte, k: nat, w: nat)
    requires cfg.Valid() && k == cfg.nbits + cfg.nparity + 1 && Pow2(k) <= WORD
    requires w == Or(WORD - Pow2(k), 2 * ch, 32)
    ensures Frame(cfg, ch) == if cfg.nparity == 0 then w else Or(w, Parity(cfg, w) * Pow2(k - 1), 32)
  {
    hide Pow2, Or, Parity;
  }

  /** Is bit i set? */
  predicate BitSet(x: nat, i: nat) { x / Pow2(i) % 2 == 1 }

  lemma BaseEnds(k: nat, i: nat, ch: byte)
    requires 0 < k <= i < 32
    ensures WORD >= Pow2(k)
    ensures var w := Or(WORD - Pow2(k), 2 * ch, 32); w % 2 == 0 && BitSet(w, i)
  {
    hide Pow2, Or, BitSet;
    OnesBit(k, i);
    EvenOnes(k, ch);
    LowBit(WORD - Pow2(k), 2 * ch, i);
  }

  lemma EvenOnes(k: nat, ch: nat)
    requires k > 0 && Pow2(k) <= WORD
    ensures (WORD - Pow2(k)) % 2 == 0 && 2 * ch % 2 == 0
  {
    var half := Pow2(k - 1);
    assert Pow2(k) == 2 * half;
  }

  lemma ParityEnds(w: nat, p: nat, k: nat, i: nat)
    requires 1 < k <= i < 32 && w % 2 == 0 && BitSet(w, i)
    ensures var f := Or(w, p * Pow2(k - 1), 32); f % 2 == 0 && BitSet(f, i)
  {
    hide Pow2, Or, BitSet;
    EvenShift(p, k - 1);
    LowBit(w, p * Pow2(k - 1), i);
  }

  lemma LowBit(a: nat, b: nat, i: nat)
    requires i < 32
    ensures a % 2 == 0 && b % 2 == 0 ==> Or(a, b, 32) % 2 == 0
    ensures BitSet(a, i) ==> BitSet(Or(a, b, 32), i)
  {
    OrEven(a, b, 32);
    hide Or, Pow2;
    OrBit(a, b, 32, i);
  }

  lemma OrEven(a: nat, b: nat, n: nat)
    ensures a % 2 == 0 && b % 2 == 0 ==> Or(a, b, n) % 2 == 0
  {
    if n > 0 {
      var half := Or(a / 2, b / 2, n - 1);
      assert Or(a, b, n) == 2 * half + (if a % 2 == 1 || b % 2 == 1 then 1 else 0);
      hide Or;
    }
  }

  lemma Ones(w: nat, p: nat, h: nat, r: nat)
    requires p > 0 && h > 0 && 0 < r <= p && w == p * (2 * h)
    ensures w >= r && (w - r) / p % 2 == 1
  {
    Division.DivUnique(w - r, p, 2 * h - 1, p - r);
  }

  lemma PowSplit(i: nat)
    requires i < 32
    ensures WORD == Pow2(i) * (2 * Pow2(31 - i))
  {
    WidePowers();
    Pow2Add(i, 32 - i);
    assert i + (32 - i) == 32 && Pow2(32 - i) == 2 * Pow2(31 - i);
  }

  lemma OnesBit(k: nat, i: nat)
    requires 0 < k <= i < 32
    ensures WORD >= Pow2(k) && BitSet(WORD - Pow2(k), i)
  {
    PowSplit(i);
    Pow2Monotone(k, i);
    hide Pow2;
    Ones(WORD, Pow2(i), Pow2(31 - i), Pow2(k));
  }

  lemma OneDown(x: nat, j: nat)
    ensures x / Pow2(j) / 2 == x / Pow2(j + 1)
  {
    Division.HalfStep(x, Pow2(j));
  }

  lemma Sampled(x: nat, p: nat, q: nat)
    requires p > 0 && p * q == 0x8000_0000
    ensures x / p % 2 * 0x8000_0000 + x % p * (2 * q) / 2 == x % (2 * p) * q
  {
    Division.ModDoubled(x, p);
    var r, bit := x % p, x / p % 2;
    assert r * (2 * q) == 2 * (r * q);
    assert (r + bit * p) * q == r * q + bit * (p * q);
  }

  /** A sampled bit goes in at the top, and m bits become m + 1. */
  lemma SampleBit(x: nat, m: nat)
    requires m < 32
    ensures x / Pow2(m) % 2 * 0x8000_0000 + HeldBits(x, m) / 2 == HeldBits(x, m + 1)
  {
    WidePowers();
    Pow2Add(m, 31 - m);
    assert Pow2(32 - m) == 2 * Pow2(31 - m) && Pow2(m + 1) == 2 * Pow2(m) && Pow2(32) == 2 * Pow2(31);
    Sampled(x, Pow2(m), Pow2(31 - m));
  }

  // ---------- The two ends, one tick at a time ----------

  /** The transmitter inside a frame: it holds its bit, or goes on to the next,
      or is done with the line high. */
  lemma TxTick(cfg: Config, tx: Tx, ch: byte, j: nat, next: Option<byte>)
    requires cfg.Valid() && SendingBit(cfg, tx, ch, j)
    ensures var (tx', line) := TxStep(cfg, tx, next);
            if tx.counter > 0 then
              SendingBit(cfg, tx', ch, j) && tx'.counter == tx.counter - 1 && line == Frame(cfg, ch) / Pow2(j) % 2
            else if j < cfg.Samples() then
              && SendingBit(cfg, tx', ch, j + 1) && tx'.counter == cfg.baud - 1
              && line == Frame(cfg, ch) / Pow2(j + 1) % 2
            else !tx'.sending && line == 1
  {
    hide Frame;
    OneDown(Frame(cfg, ch), j);
    assert Pow2(cfg.Samples() + 1 - j) == 2 * Pow2(cfg.Samples() - j);
    if j == cfg.Samples() {
      assert Pow2(0) == 1;
      FrameEnds(cfg, ch);
    } else {
      assert Pow2(cfg.Samples() - j) == 2 * Pow2(cfg.Samples() - j - 1);
    }
  }

  lemma TxLoad(cfg: Config, tx: Tx, ch: byte)
    requires cfg.Valid() && !tx.sending
    ensures var (tx', line) := TxStep(cfg, tx, Some(ch));
            SendingBit(cfg, tx', ch, 0) && tx'.counter == cfg.baud - 1 && line == 0
  {
    assert Pow2(0) == 1;
  }

  /** Every tick the receiver notes the line and the ticks since it fell. */
  predicate Heard(rx: Rx, rx': Rx, line: nat) {
    && rx'.lastLine == line
    && rx'.changectr == if line == 0 && rx.lastLine != 0 then 0 else rx.changectr + 1
  }

  /** The receiver between samples. */
  lemma RxWait(cfg: Config, rx: Rx, ch: byte, m: nat, line: nat)
    requires cfg.Valid() && HasBits(cfg, rx, ch, m) && rx.counter > 0
    ensures var (rx', got) := RxStep(cfg, rx, line);
            Heard(rx, rx', line) && HasBits(cfg, rx', ch, m) && rx'.counter == rx.counter - 1 && got == None
  {
    hide Frame;
  }

  /** The receiver samples bit m + 1 of the frame. */
  lemma RxSample(cfg: Config, rx: Rx, ch: byte, m: nat, line: nat)
    requires cfg.Valid() && HasBits(cfg, rx, ch, m) && rx.counter == 0 && m < cfg.Samples()
    requires line == Frame(cfg, ch) / Pow2(m + 1) % 2
    ensures var (rx', got) := RxStep(cfg, rx, line);
            Heard(rx, rx', line) && HasBits(cfg, rx', ch, m + 1) && rx'.counter == cfg.baud - 1 && got == None
  {
    var x := Frame(cfg, ch) / 2;
    HalfThen(Frame(cfg, ch), m);
    SampleBit(x, m);
    assert Pow2(m + 1) == 2 * Pow2(m);
    Pow2Monotone(m, cfg.Samples() - 1);
    hide Frame, Pow2, HeldBits, RxStep;
    RxTakes(cfg, rx, line);
  }

  /** What a sample does to the receiver. */
  lemma RxTakes(cfg: Config, rx: Rx, line: nat)
    requires cfg.Valid() && rx.receiving && rx.counter <= 0 && rx.busy < Pow2(cfg.Samples() - 1) && line < 2
    ensures var (rx', got) := RxStep(cfg, rx, line);
            && Heard(rx, rx', line) && got == None && rx'.receiving
            && rx'.busy == 2 * rx.busy + 1 && rx'.counter == cfg.baud - 1
            && rx'.data == line * 0x8000_0000 + rx.data / 2
  {
    hide Pow2;
  }

  /** The receiver has all its bits and reports the character. */
  lemma RxDone(cfg: Config, rx: Rx, ch: byte, line: nat)
    requires cfg.Valid() && HasBits(cfg, rx, ch, cfg.Samples()) && rx.counter == 0
    ensures var (rx', got) := RxStep(cfg, rx, line);
            Heard(rx, rx', line) && !rx'.receiving && got == Some(Decoded(cfg, ch))
  {
    hide Frame;
    var s := cfg.Samples();
    assert Pow2(s) == 2 * Pow2(s - 1);
    var x, p := Frame(cfg, ch) / 2 % Pow2(s), Pow2(32 - s);
    Division.DivUnique(x * p, p, x, 0);
  }

  lemma RxStart(cfg: Config, rx: Rx, ch: byte)
    requires cfg.Valid() && !rx.receiving
    requires (if rx.lastLine != 0 then 0 else rx.changectr + 1) <= cfg.baud / 2
    ensures var (rx', got) := RxStep(cfg, rx, 0);
            && Heard(rx, rx', 0) && HasBits(cfg, rx', ch, 0) && got == None
            && rx'.counter == cfg.baud + cfg.baud / 2 - 1 - (if rx.lastLine != 0 then 0 else rx.changectr + 1)
  {
    hide Frame;
    assert Pow2(0) == 1;
  }

  // ---------- The link, one tick at a time ----------

  /** From phase p to phase p': the characters out have been reported, and
      nothing is lost, invented or reordered. */
  ghost predicate Goes(cfg: Config, l: Link, arrivals: seq<byte>, p: Phase, p': Phase, out: seq<byte>)
    requires cfg.Valid()
  {
    var l' := Step(cfg, l, arrivals);
    && InPhase(cfg, l', p')
    && l'.got == l.got + DecodedAll(cfg, out)
    && out + InFlight(p') + l'.queue == InFlight(p) + l.queue + arrivals
  }

  lemma DecodedSmall(cfg: Config, ch: byte)
    requires cfg.Valid()
    ensures DecodedAll(cfg, []) == [] && DecodedAll(cfg, [ch]) == [Decoded(cfg, ch)]
  {
  }

  lemma FromRest(cfg: Config, l: Link, arrivals: seq<byte>) returns (p': Phase, out: seq<byte>)
    requires cfg.Valid() && InPhase(cfg, l, Rest)
    ensures Goes(cfg, l, arrivals, Rest, p', out)
  {
    hide Frame, Pow2, HasBits, SendingBit;
    var q := l.queue + arrivals;
    out := [];
    if q == [] {
      p' := Rest;
    } else {
      TxLoad(cfg, l.tx, q[0]);
      RxStart(cfg, l.rx, q[0]);
      p' := Sync(q[0], 0, 0);
      assert [q[0]] + q[1..] == q;
    }
  }

  /** The place of the transmitter after the next tick. */
  function NextPlace(l: Link, j: nat): nat { if l.tx.counter > 0 then j else j + 1 }

  lemma SyncWaits(cfg: Config, l: Link, arrivals: seq<byte>, ch: byte, j: nat, m: nat) returns (p': Phase)
    requires cfg.Valid() && InPhase(cfg, l, Sync(ch, j, m)) && l.rx.counter > 0
    ensures Goes(cfg, l, arrivals, Sync(ch, j, m), p', [])
  {
    hide Frame, Pow2, TxStep, RxStep, Decoded, DecodedAll;
    var q := l.queue + arrivals;
    var next := if q == [] then None else Some(q[0]);
    DecodedSmall(cfg, ch);
    TxTick(cfg, l.tx, ch, j, next);
    assert 0 <= l.tx.counter < cfg.baud && j <= cfg.Samples() && l.tx.sending;
    assert l.rx.counter >= 0 && m <= cfg.Samples();
    var (_, line) := TxStep(cfg, l.tx, next);
    RxWait(cfg, l.rx, ch, m, line);
    hide HasBits, SendingBit;
    p' := if NextPlace(l, j) <= cfg.Samples() then Sync(ch, NextPlace(l, j), m) else Tail(ch);
  }

  lemma SyncSamples(cfg: Config, l: Link, arrivals: seq<byte>, ch: byte, j: nat, m: nat) returns (p': Phase)
    requires cfg.Valid() && InPhase(cfg, l, Sync(ch, j, m)) && l.rx.counter == 0 && m < cfg.Samples()
    ensures Goes(cfg, l, arrivals, Sync(ch, j, m), p', [])
  {
    hide Frame, Pow2, TxStep, RxStep, Decoded, DecodedAll;
    var q := l.queue + arrivals;
    var next := if q == [] then None else Some(q[0]);
    DecodedSmall(cfg, ch);
    TxTick(cfg, l.tx, ch, j, next);
    assert 0 <= l.tx.counter < cfg.baud && j <= cfg.Samples() && l.tx.sending;
    assert l.rx.counter >= 0 && m <= cfg.Samples();
    var (_, line) := TxStep(cfg, l.tx, next);
    RxSample(cfg, l.rx, ch, m, line);
    hide HasBits, SendingBit;
    p' := Sync(ch, NextPlace(l, j), m + 1);
  }

  lemma SyncEnds(cfg: Config, l: Link, arrivals: seq<byte>, ch: byte, j: nat, m: nat)
    requires cfg.Valid() && InPhase(cfg, l, Sync(ch, j, m)) && l.rx.counter == 0 && m == cfg.Samples()
    ensures Goes(cfg, l, arrivals, Sync(ch, j, m), Rest, [ch])
  {
    hide Frame, Pow2, TxStep, RxStep, Decoded, DecodedAll;
    var q := l.queue + arrivals;
    var next := if q == [] then None else Some(q[0]);
    DecodedSmall(cfg, ch);
    TxTick(cfg, l.tx, ch, j, next);
    assert 0 <= l.tx.counter < cfg.baud && j <= cfg.Samples() && l.tx.sending;
    assert l.rx.counter >= 0 && m <= cfg.Samples();
    var (_, line) := TxStep(cfg, l.tx, next);
    RxDone(cfg, l.rx, ch, line);
    hide HasBits, SendingBit;
  }

  lemma FromSync(cfg: Config, l: Link, arrivals: seq<byte>, ch: byte, j: nat, m: nat)
    returns (p': Phase, out: seq<byte>)
    requires cfg.Valid() && InPhase(cfg, l, Sync(ch, j, m))
    ensures Goes(cfg, l, arrivals, Sync(ch, j, m), p', out)
  {
    hide Frame, Pow2, Goes;
    out := [];
    if l.rx.counter > 0 {
      p' := SyncWaits(cfg, l, arrivals, ch, j, m);
    } else if m < cfg.Samples() {
      p' := SyncSamples(cfg, l, arrivals, ch, j, m);
    } else {
      SyncEnds(cfg, l, arrivals, ch, j, m);
      out, p' := [ch], Rest;
    }
  }

  lemma FromTail(cfg: Config, l: Link, arrivals: seq<byte>, ch: byte) returns (p': Phase, out: seq<byte>)
    requires cfg.Valid() && InPhase(cfg, l, Tail(ch))
    ensures Goes(cfg, l, arrivals, Tail(ch), p', out)
  {
    hide Frame, Pow2, Decoded, DecodedAll, RxStep;
    var q := l.queue + arrivals;
    DecodedSmall(cfg, ch);
    if q != [] {
      TxLoad(cfg, l.tx, q[0]);
      assert [ch] + [q[0]] + q[1..] == [ch] + q;
    }
    var line := if q == [] then 1 else 0;
    if l.rx.counter > 0 {
      RxWait(cfg, l.rx, ch, cfg.Samples(), line);
      hide HasBits, SendingBit;
      out, p' := [], if q == [] then Tail(ch) else Late(ch, q[0]);
    } else {
      RxDone(cfg, l.rx, ch, line);
      hide HasBits, SendingBit;
      out, p' := [ch], if q == [] then Rest else Pickup(q[0]);
    }
  }

  lemma FromLate(cfg: Config, l: Link, arrivals: seq<byte>, ch: byte, after: byte) returns (p': Phase, out: seq<byte>)
    requires cfg.Valid() && InPhase(cfg, l, Late(ch, after))
    ensures Goes(cfg, l, arrivals, Late(ch, after), p', out)
  {
    hide Frame, Pow2, RxStep;
    var q := l.queue + arrivals;
    var next := if q == [] then None else Some(q[0]);
    TxTick(cfg, l.tx, after, 0, next);
    StartBit(cfg, after);
    if l.rx.counter > 0 {
      RxWait(cfg, l.rx, ch, cfg.Samples(), 0);
      out, p' := [], Late(ch, after);
    } else {
      RxDone(cfg, l.rx, ch, 0);
      out, p' := [ch], Pickup(after);
    }
  }

  lemma FromPickup(cfg: Config, l: Link, arrivals: seq<byte>, ch: byte) returns (p': Phase, out: seq<byte>)
    requires cfg.Valid() && InPhase(cfg, l, Pickup(ch))
    ensures Goes(cfg, l, arrivals, Pickup(ch), p', out)
  {
    hide Frame, Pow2, RxStep;
    var q := l.queue + arrivals;
    var next := if q == [] then None else Some(q[0]);
    TxTick(cfg, l.tx, ch, 0, next);
    StartBit(cfg, ch);
    RxStart(cfg, l.rx, ch);
    out, p' := [], Sync(ch, 0, 0);
  }

  lemma StartBit(cfg: Config, ch: byte)
    requires cfg.Valid()
    ensures Frame(cfg, ch) / Pow2(0) % 2 == 0
  {
    FrameEnds(cfg, ch);
    assert Pow2(0) == 1;
  }

  lemma FromAny(cfg: Config, l: Link, arrivals: seq<byte>, p: Phase) returns (p': Phase, out: seq<byte>)
    requires cfg.Valid() && InPhase(cfg, l, p)
    ensures Goes(cfg, l, arrivals, p, p', out)
  {
    hide InPhase;
    match p
    case Rest => p', out := FromRest(cfg, l, arrivals);
    case Sync(ch, j, m) => p', out := FromSync(cfg, l, arrivals, ch, j, m);
    case Tail(ch) => p', out := FromTail(cfg, l, arrivals, ch);
    case Late(ch, next) => p', out := FromLate(cfg, l, arrivals, ch, next);
    case Pickup(ch) => p', out := FromPickup(cfg, l, arrivals, ch);
  }

  // ---------- Whole runs ----------

  /** A run: what arrives at each tick. */
  function Run(cfg: Config, l: Link, arr: seq<seq<byte>>): Link
    requires cfg.Valid()
    decreases |arr|
  {
    if arr == [] then l else Run(cfg, Step(cfg, l, arr[0]), arr[1..])
  }

  function Concat(arr: seq<seq<byte>>): seq<byte> {
    if arr == [] then [] else arr[0] + Concat(arr[1..])
  }

  lemma DecodedAppend(cfg: Config, s: seq<byte>, t: seq<byte>)
    requires cfg.Valid()
    ensures DecodedAll(cfg, s + t) == DecodedAll(cfg, s) + DecodedAll(cfg, t)
  {
  }

  /** Every run keeps the order: sent is what has been reported so far. */
  lemma {:induction false} RunKeeps(cfg: Config, l: Link, p: Phase, sent: seq<byte>, arr: seq<seq<byte>>)
    returns (p': Phase, sent': seq<byte>)
    requires cfg.Valid() && InPhase(cfg, l, p) && l.got == DecodedAll(cfg, sent)
    ensures var l' := Run(cfg, l, arr);
            && InPhase(cfg, l', p') && l'.got == DecodedAll(cfg, sent')
            && sent' + InFlight(p') + l'.queue == sent + InFlight(p) + l.queue + Concat(arr)
    decreases |arr|
  {
    hide InPhase, InFlight, DecodedAll, Step;
    if arr == [] {
      return p, sent;
    }
    var p1, out := FromAny(cfg, l, arr[0], p);
    var l1 := Step(cfg, l, arr[0]);
    DecodedAppend(cfg, sent, out);
    p', sent' := RunKeeps(cfg, l1, p1, sent + out, arr[1..]);
    Regroup(sent, out, InFlight(p1), l1.queue, InFlight(p), l.queue, arr[0], Concat(arr[1..]));
  }

  lemma Regroup(s: seq<byte>, out: seq<byte>, f': seq<byte>, q': seq<byte>,
                f: seq<byte>, q: seq<byte>, a: seq<byte>, rest: seq<byte>)
    requires out + f' + q' == f + q + a
    ensures s + out + f' + q' + rest == s + f + q + (a + rest)
  {
    assert s + out + f' + q' + rest == s + (out + f' + q') + rest;
    assert s + f + q + (a + rest) == s + (f + q + a) + rest;
  }

  /** At every moment of every run the receiver has reported the characters in
      the order they were queued, none twice and none skipped, and at most two
      are on their way. */
  lemma InOrder(cfg: Config, arr: seq<seq<byte>>)
    requires cfg.Valid()
    ensures var l, all := Run(cfg, START, arr), Concat(arr);
            && |l.got| + |l.queue| <= |all| <= |l.got| + |l.queue| + 2
            && l.got == DecodedAll(cfg, all[..|l.got|])
            && l.queue == all[|all| - |l.queue|..]
  {
    assert DecodedAll(cfg, []) == [];
    var p', sent' := RunKeeps(cfg, START, Rest, [], arr);
    var l := Run(cfg, START, arr);
    assert sent' + InFlight(p') + l.queue == Concat(arr);
    assert sent' == Concat(arr)[..|sent'|];
  }

  // ---------- Everything arrives in the end ----------

  function OnesIn(x: nat): nat { if x == 0 then 0 else 1 + OnesIn(x / 2) }

  /** Ticks until the transmitter is idle. */
  function TxLeft(cfg: Config, tx: Tx): int {
    if tx.sending then (OnesIn(tx.busy) - 1) * cfg.baud + tx.counter + 1 else 0
  }

  /** Ticks until the transmitter has sent the queue as well. */
  function SendLeft(cfg: Config, l: Link): int {
    |l.queue| * FrameTicks(cfg) + TxLeft(cfg, l.tx)
  }

  /** A frame and the tick between two frames. */
  function FrameTicks(cfg: Config): nat { (cfg.Samples() + 1) * cfg.baud + 1 }

  /** A bound on the ticks until everything has been reported. */
  function Left(cfg: Config, l: Link): int {
    if SendLeft(cfg, l) > 0 then SendLeft(cfg, l) + cfg.baud
    else if l.rx.receiving then l.rx.counter + 1
    else 0
  }

  lemma {:induction false} OnesInOnes(n: nat)
    ensures OnesIn(Pow2(n) - 1) == n
  {
    if n > 0 {
      OnesInOnes(n - 1);
      assert (Pow2(n) - 1) / 2 == Pow2(n - 1) - 1;
    }
  }

  lemma BusyHalves(b: nat)
    requires b > 0
    ensures var x := Pow2(b) - 1;
            OnesIn(x) == b && OnesIn(x / 2) == b - 1 && x > 0 && (x / 2 == 0 <==> b == 1)
  {
    OnesInOnes(b);
    OnesInOnes(b - 1);
    assert Pow2(b) == 2 * Pow2(b - 1);
    assert (Pow2(b) - 1) / 2 == Pow2(b - 1) - 1;
    if b > 1 {
      assert Pow2(b - 1) == 2 * Pow2(b - 2);
    } else {
      assert Pow2(0) == 1;
    }
  }

  /** The transmitter's time runs. */
  lemma TxLeftStep(cfg: Config, tx: Tx, ch: byte, j: nat, next: Option<byte>)
    requires cfg.Valid() && SendingBit(cfg, tx, ch, j)
    ensures TxLeft(cfg, tx) > 0 && TxLeft(cfg, TxStep(cfg, tx, next).0) == TxLeft(cfg, tx) - 1
  {
    hide Frame, Pow2, OnesIn;
    var b := cfg.Samples() + 1 - j;
    BusyHalves(b);
    LessOne(b, cfg.baud);
    if b > 1 {
      LessOne(b - 1, cfg.baud);
    }
  }

  lemma TxLeftLoad(cfg: Config, tx: Tx, ch: byte)
    requires cfg.Valid() && !tx.sending
    ensures TxLeft(cfg, tx) == 0 && TxLeft(cfg, TxStep(cfg, tx, Some(ch)).0) == FrameTicks(cfg) - 1
  {
    hide Frame, Pow2, OnesIn;
    var b := cfg.Samples() + 1;
    OnesInOnes(b);
    assert FrameTicks(cfg) - 1 == cfg.baud - 1 + cfg.Samples() * cfg.baud + 1 by {
      LessOne(b, cfg.baud);
    }
  }

  /** The time left to send the queue: one tick less with every tick. */
  lemma SendLeftStep(cfg: Config, l: Link, p: Phase)
    requires cfg.Valid() && InPhase(cfg, l, p)
    ensures SendLeft(cfg, l) >= 0
    ensures SendLeft(cfg, l) > 0 ==> SendLeft(cfg, Step(cfg, l, [])) == SendLeft(cfg, l) - 1
    ensures SendLeft(cfg, l) == 0 <==> !l.tx.sending && l.queue == []
    ensures SendLeft(cfg, l) == 0 ==> SendLeft(cfg, Step(cfg, l, [])) == 0
  {
    hide Frame, RxStep, HasBits, Pow2, FrameTicks, TxLeft;
    var next := if l.queue == [] then None else Some(l.queue[0]);
    assert l.queue + [] == l.queue;
    NoneLeft(|l.queue|, FrameTicks(cfg));
    NoneLeft(|l.queue| - if l.queue == [] then 0 else 1, FrameTicks(cfg));
    match p
    case Sync(ch, j, _) => TxLeftStep(cfg, l.tx, ch, j, next);
    case Late(_, ch) => TxLeftStep(cfg, l.tx, ch, 0, next);
    case Pickup(ch) => TxLeftStep(cfg, l.tx, ch, 0, next);
    case _ =>
      TxLeftIdle(cfg, l.tx);
      if l.queue != [] {
        TxLeftLoad(cfg, l.tx, l.queue[0]);
        LessOne(|l.queue|, FrameTicks(cfg));
      }
  }

  lemma NoneLeft(n: nat, k: nat)
    ensures n * k >= 0 && (k > 0 ==> (n * k == 0 <==> n == 0))
  {
  }

  lemma TxLeftIdle(cfg: Config, tx: Tx)
    requires cfg.Valid() && !tx.sending
    ensures TxLeft(cfg, tx) == 0 && FrameTicks(cfg) > 0
  {
    hide OnesIn;
  }

  lemma LessOne(n: nat, k: nat)
    requires n > 0 && k > 0
    ensures n * k == (n - 1) * k + k && (n - 1) * k >= 0 && n * k > 0
  {
  }

  lemma LeftStep(cfg: Config, l: Link, p: Phase) returns (p': Phase, out: seq<byte>)
    requires cfg.Valid() && InPhase(cfg, l, p)
    ensures Goes(cfg, l, [], p, p', out)
    ensures Left(cfg, l) == 0 ==> p == Rest && l.queue == []
    ensures 0 <= Left(cfg, l) && (Left(cfg, l) > 0 ==> Left(cfg, Step(cfg, l, [])) < Left(cfg, l))
    ensures Left(cfg, l) == 0 ==> Left(cfg, Step(cfg, l, [])) == 0
  {
    hide SendLeft, Step, RxStep, TxStep, Frame;
    p', out := FromAny(cfg, l, [], p);
    SendLeftStep(cfg, l, p);
    SendLeftStep(cfg, Step(cfg, l, []), p');
    if SendLeft(cfg, l) == 0 && p.Tail? {
      TailRuns(cfg, l, p.ch);
    } else if p == Rest && l.queue == [] {
      RestStays(cfg, l);
    }
  }

  lemma RestStays(cfg: Config, l: Link)
    requires cfg.Valid() && InPhase(cfg, l, Rest) && l.queue == []
    ensures var l' := Step(cfg, l, []); InPhase(cfg, l', Rest) && l'.queue == [] && l'.got == l.got
  {
    assert l.queue + [] == [];
  }

  lemma TailRuns(cfg: Config, l: Link, ch: byte)
    requires cfg.Valid() && InPhase(cfg, l, Tail(ch)) && l.queue == []
    ensures var rx := Step(cfg, l, []).rx;
            rx.receiving ==> rx.counter == l.rx.counter - 1
  {
    hide Frame, Pow2, RxStep;
    assert l.queue + [] == [];
    if l.rx.counter > 0 {
      RxWait(cfg, l.rx, ch, cfg.Samples(), 1);
    } else {
      RxDone(cfg, l.rx, ch, 1);
    }
  }

  /** k ticks in which nothing arrives. */
  function Silence(k: nat): seq<seq<byte>> { seq(k, _ => []) }

  lemma {:induction false} Drains(cfg: Config, l: Link, p: Phase, k: nat)
    requires cfg.Valid() && InPhase(cfg, l, p) && Left(cfg, l) <= k
    ensures var l' := Run(cfg, l, Silence(k));
            !l'.tx.sending && !l'.rx.receiving && l'.queue == []
    decreases k
  {
    hide Left, Step, HasBits, SendingBit;
    var p', out := LeftStep(cfg, l, p);
    if k > 0 {
      assert Silence(k)[0] == [] && Silence(k)[1..] == Silence(k - 1);
      Drains(cfg, Step(cfg, l, []), p', k - 1);
    }
  }

  lemma IdleIsRest(cfg: Config, l: Link, p: Phase)
    requires cfg.Valid() && InPhase(cfg, l, p) && !l.tx.sending && !l.rx.receiving
    ensures p == Rest
  {
    hide Frame, Pow2;
  }

  lemma {:induction false} RunAppend(cfg: Config, l: Link, a: seq<seq<byte>>, b: seq<seq<byte>>)
    requires cfg.Valid()
    ensures Run(cfg, l, a + b) == Run(cfg, Run(cfg, l, a), b)
    decreases |a|
  {
    hide Step;
    if a == [] {
      assert a + b == b;
    } else {
      assert (a + b)[0] == a[0] && (a + b)[1..] == a[1..] + b;
      RunAppend(cfg, Step(cfg, l, a[0]), a[1..], b);
    }
  }

  lemma {:induction false} ConcatSilence(arr: seq<seq<byte>>, k: nat)
    ensures Concat(arr + Silence(k)) == Concat(arr)
    decreases |arr| + k
  {
    if arr == [] {
      assert arr + Silence(k) == Silence(k);
      if k > 0 {
        assert Silence(k)[0] == [] && Silence(k)[1..] == Silence(k - 1);
        assert [] + Silence(k - 1) == Silence(k - 1);
        ConcatSilence([], k - 1);
      }
    } else {
      assert (arr + Silence(k))[0] == arr[0] && (arr + Silence(k))[1..] == arr[1..] + Silence(k);
      ConcatSilence(arr[1..], k);
    }
  }

  lemma LeftBound(cfg: Config, l: Link, p: Phase, n: nat)
    requires cfg.Valid() && InPhase(cfg, l, p) && |l.queue| + |InFlight(p)| <= n
    ensures Left(cfg, l) <= n * FrameTicks(cfg) + cfg.baud
  {
    hide Frame, Pow2, OnesIn, FrameTicks;
    var busy := if l.tx.sending then 1 else 0;
    match p {
      case Sync(ch, j, _) => TxLeftBound(cfg, l.tx, ch, j);
      case Late(_, ch) => TxLeftBound(cfg, l.tx, ch, 0);
      case Pickup(ch) => TxLeftBound(cfg, l.tx, ch, 0);
      case _ =>
    }
    assert |l.queue| + busy <= n;
    assert 0 <= TxLeft(cfg, l.tx) <= busy * FrameTicks(cfg);
    assert SendLeft(cfg, l) == 0 ==> !(l.rx.receiving && l.rx.counter + 1 > cfg.baud) by { SendLeftStep(cfg, l, p); }
    hide HasBits, SendingBit, TxLeft, InPhase, InFlight;
    TimesLess(|l.queue| + busy, n, FrameTicks(cfg));
    assert (|l.queue| + busy) * FrameTicks(cfg) == |l.queue| * FrameTicks(cfg) + busy * FrameTicks(cfg);
  }

  lemma TimesLess(q: nat, n: nat, k: nat)
    requires q <= n
    ensures q * k <= n * k
  {
  }

  lemma TxLeftBound(cfg: Config, tx: Tx, ch: byte, j: nat)
    requires cfg.Valid() && SendingBit(cfg, tx, ch, j)
    ensures 0 < TxLeft(cfg, tx) <= FrameTicks(cfg)
  {
    hide Frame, Pow2, OnesIn;
    var b := cfg.Samples() + 1 - j;
    BusyHalves(b);
    LessOne(b, cfg.baud);
    TimesLess(b, cfg.Samples() + 1, cfg.baud);
  }

  /** After any arrivals: the phase, what has been sent, and a bound on the time left. */
  lemma AfterRun(cfg: Config, arr: seq<seq<byte>>) returns (p: Phase, sent: seq<byte>)
    requires cfg.Valid()
    ensures var l := Run(cfg, START, arr);
            && InPhase(cfg, l, p) && l.got == DecodedAll(cfg, sent)
            && sent + InFlight(p) + l.queue == Concat(arr)
            && Left(cfg, l) <= |Concat(arr)| * FrameTicks(cfg) + cfg.baud
  {
    hide Step, Left, InPhase, FrameTicks;
    StartsAtRest(cfg);
    p, sent := RunKeeps(cfg, START, Rest, [], arr);
    assert [] + InFlight(Rest) + START.queue + Concat(arr) == Concat(arr);
    LeftBound(cfg, Run(cfg, START, arr), p, |Concat(arr)|);
  }

  /** Every character that is ever queued is reported, once, in order, within
      a frame time for each and one bit: whatever arrived before, once nothing
      more arrives for that long, both ends are idle and all is delivered. */
  lemma AllDelivered(cfg: Config, arr: seq<seq<byte>>, k: nat)
    requires cfg.Valid() && k >= |Concat(arr)| * FrameTicks(cfg) + cfg.baud
    ensures var l := Run(cfg, START, arr + Silence(k));
            && l.got == DecodedAll(cfg, Concat(arr))
            && l.queue == [] && !l.tx.sending && !l.rx.receiving
  {
    hide Step, Left, InPhase, FrameTicks, Run, DecodedAll;
    var p, sent := AfterRun(cfg, arr);
    Drains(cfg, Run(cfg, START, arr), p, k);
    RunAppend(cfg, START, arr, Silence(k));
    var p', sent' := AfterRun(cfg, arr + Silence(k));
    ConcatSilence(arr, k);
    IdleIsRest(cfg, Run(cfg, START, arr + Silence(k)), p');
    assert sent' + [] + [] == sent';
  }

  lemma StartsAtRest(cfg: Config)
    requires cfg.Valid()
    ensures InPhase(cfg, START, Rest) && DecodedAll(cfg, []) == []
  {
  }

  // ---------- When the characters are unaltered ----------

  lemma OnesLow(t: nat, k: nat)
    requires k <= t <= 32
    ensures WORD >= Pow2(t) && (WORD - Pow2(t)) % Pow2(k) == 0
  {
    PowAtMost(t);
    Pow2Add(t, 32 - t);
    assert t + (32 - t) == 32;
    hide Pow2;
    Division.OneLess(WORD, Pow2(t), Pow2(32 - t));
    MultipleOf(Pow2(32 - t) - 1, t, k);
  }

  /** The bits of the frame below its parity bit and its ones: start bit and data. */
  lemma FrameLow(cfg: Config, ch: byte, k: nat)
    requires cfg.Valid() && k <= cfg.nbits + 1
    ensures Frame(cfg, ch) % Pow2(k) == 2 * ch % Pow2(k)
  {
    hide Parity, Or, Pow2;
    var t := cfg.nbits + cfg.nparity + 1;
    OnesLow(t, k);
    var w := Or(WORD - Pow2(t), 2 * ch, 32);
    OrLow(WORD - Pow2(t), 2 * ch, 32, k);
    if cfg.nparity == 1 {
      var p := Parity(cfg, w);
      if k < t {
        MultipleOf(p, t - 1, k);
        OrLow(w, p * Pow2(t - 1), 32, k);
      }
    }
  }

  /** With eight data bits every character is delivered as it was queued. */
  lemma EightBits(cfg: Config, ch: byte)
    requires cfg.Valid() && cfg.nbits == 8
    ensures Decoded(cfg, ch) == ch
  {
    hide Frame;
    SmallPowers();
    FrameLow(cfg, ch, 9);
    assert Pow2(9) == 2 * Pow2(8);
    ModPow(Frame(cfg, ch) / 2, cfg.Samples(), 8);
    hide Pow2;
    ModHalf(Frame(cfg, ch), 256);
  }

  lemma BitOfZero(x: nat, s: nat, t: nat)
    requires t < s && x % Pow2(s) == 0
    ensures x / Pow2(t) % 2 == 0
  {
    ModPow(x, s, t + 1);
    var p := Pow2(t);
    assert Pow2(t + 1) == 2 * p;
    hide Pow2;
    Division.ModDoubled(x, p);
    assert x / p % 2 * p == 0;
  }

  /** Short frames: the stop bit, and what follows, end up in the character. */
  lemma ShortFrame(cfg: Config)
    requires cfg.Valid() && cfg.nbits + cfg.nparity < 8
    ensures Decoded(cfg, 0) != 0
  {
    hide Frame;
    var x, s, t := Frame(cfg, 0) / 2, cfg.Samples(), cfg.nbits + cfg.nparity;
    FrameOnes(cfg, 0, t + 1);
    HalfThen(Frame(cfg, 0), t);
    SmallPowers();
    if Decoded(cfg, 0) == 0 {
      var u := if s < 8 then s else 8;
      if s < 8 {
        ModBelow(x, Pow2(s), Pow2(8)) by { Pow2Monotone(s, 8); }
      } else {
        ModPow(x, s, 8);
      }
      BitOfZero(x, u, t);
    }
  }

  lemma ModBelow(x: nat, p: nat, m: nat)
    requires 0 < p <= m
    ensures x % p % m == x % p
  {
  }

  lemma FrameOnes(cfg: Config, ch: byte, i: nat)
    requires cfg.Valid() && cfg.nbits + cfg.nparity < i < 32
    ensures Frame(cfg, ch) / Pow2(i) % 2 == 1
  {
    hide Pow2, Or, Parity;
    var k := cfg.nbits + cfg.nparity + 1;
    OnesBit(k, i);
    LowBit(WORD - Pow2(k), 2 * ch, i);
    var w := Or(WORD - Pow2(k), 2 * ch, 32);
    if cfg.nparity == 1 {
      LowBit(w, Parity(cfg, w) * Pow2(k - 1), i);
    }
  }

  lemma BitEightSet(w: nat, p: nat)
    requires p < 2
    ensures Or(w, p * 256, 32) / 256 % 2 == if w / 256 % 2 == 1 || p == 1 then 1 else 0
  {
    SmallPowers();
    OrBit(w, p * 256, 32, 8);
    Division.MulMod(p, 256);
  }

  lemma OrAbove(ones: nat, x: nat, n: nat)
    requires ones % 512 == 0 && n >= 9
    ensures Or(ones, x, n) % 512 == x % 512
  {
    SmallPowers();
    OrLow(ones, x, n, 9);
  }

  lemma LowOfOnes(ch: byte)
    ensures Or(WORD - 512, 2 * ch, 32) % 512 == 2 * ch
  {
    hide Or, Pow2;
    OrAbove(WORD - 512, 2 * ch, 32);
  }

  /** Seven data bits and a parity bit: the parity bit is ORed into the top
      bit of the character. */
  lemma SevenBits(cfg: Config, ch: byte)
    requires cfg.Valid() && cfg.nbits == 7 && cfg.nparity == 1
    ensures Decoded(cfg, ch) ==
            if ch < 128 && Parity(cfg, Or(WORD - 512, 2 * ch, 32)) == 1 then ch + 128 else ch
  {
    hide Parity, Or, Pow2;
    SmallPowers();
    var w := Or(WORD - 512, 2 * ch, 32);
    LowOfOnes(ch);
    FrameLow(cfg, ch, 8);
    BitEightSet(w, Parity(cfg, w));
    assert Frame(cfg, ch) == Or(w, Parity(cfg, w) * 256, 32);
    hide Frame;
    var f := Frame(cfg, ch);
    ModPow(f / 2, cfg.Samples(), 8);
    LowAndBit(f, w, ch, Parity(cfg, w));
  }

  lemma LowAndBit(f: nat, w: nat, ch: byte, p: nat)
    requires p < 2 && w % 512 == 2 * ch && f % 256 == 2 * ch % 256
    requires f / 256 % 2 == if w / 256 % 2 == 1 || p == 1 then 1 else 0
    ensures f / 2 % 256 == if ch < 128 && p == 1 then ch + 128 else ch
  {
    ModHalf(f, 256);
    Division.ModDoubled(f, 256);
    Division.ModDoubled(w, 256);
  }

  /** The parity of 0 and of 1, with seven data bits and a parity bit. */
  lemma ParityOfSmall(cfg: Config, ch: byte)
    requires cfg.Valid() && cfg.nbits == 7 && cfg.nparity == 1 && !cfg.fixdp && ch < 2
    ensures Parity(cfg, Or(WORD - 512, 2 * ch, 32)) == if cfg.evenp == ch then 0 else 1
  {
    hide Or, Xor;
    LowOfOnes(ch);
    ParityOfLow(cfg, Or(WORD - 512, 2 * ch, 32), ch);
  }

  lemma ParityOfLow(cfg: Config, w: nat, ch: byte)
    requires cfg.Valid() && !cfg.fixdp && ch < 2 && w % 512 == 2 * ch
    ensures Parity(cfg, w) == if cfg.evenp == ch then 0 else 1
  {
    hide Xor;
    ModHalf(w, 256);
    assert w / 2 % 256 == ch;
    XorSmall(ch);
    XorOne(ch, cfg.evenp);
  }

  lemma XorSmall(x: nat)
    requires x < 2
    ensures Xor(x, 0, 8) == x
  {
    SmallPowers();
    hide Xor, Pow2;
    XorNothing(x, 8);
  }

  lemma {:induction false} XorNothing(x: nat, n: nat)
    requires x < Pow2(n)
    ensures Xor(x, 0, n) == x
  {
    if n > 0 {
      XorNothing(x / 2, n - 1);
    }
  }

  lemma XorOne(x: nat, y: nat)
    requires x < 2 && y < 2
    ensures Xor(x, y, 1) == if x == y then 0 else 1
  {
    assert Xor(x / 2, y / 2, 0) == 0;
  }

  /** Exactly when every character is delivered unaltered: with eight data
      bits, or with seven and a parity bit that is fixed at 0. */
  lemma UnalteredIff(cfg: Config)
    requires cfg.Valid()
    ensures (forall ch: byte :: Decoded(cfg, ch) == ch)
       <==> cfg.nbits == 8 || (cfg.nbits == 7 && cfg.nparity == 1 && cfg.fixdp && cfg.evenp == 0)
  {
    hide Decoded, Frame, Or;
    if cfg.nbits == 8 {
      forall ch: byte ensures Decoded(cfg, ch) == ch { EightBits(cfg, ch); }
    } else if cfg.nbits + cfg.nparity < 8 {
      ShortFrame(cfg);
    } else if cfg.fixdp {
      forall ch: byte ensures cfg.evenp == 0 ==> Decoded(cfg, ch) == ch { SevenBits(cfg, ch); }
      SevenBits(cfg, 0);
    } else {
      SevenBits(cfg, 0);
      SevenBits(cfg, 1);
      ParityOfSmall(cfg, 0);
      ParityOfSmall(cfg, 1);
    }
  }

  /** With eight data bits: every character queued is reported, as it was, in order. */
  lemma EightBitStream(cfg: Config, arr: seq<seq<byte>>, k: nat)
    requires cfg.Valid() && cfg.nbits == 8
    requires k >= |Concat(arr)| * FrameTicks(cfg) + cfg.baud
    ensures Run(cfg, START, arr + Silence(k)).got == Concat(arr)
    ensures Run(cfg, START, arr).got <= Concat(arr)
  {
    hide Decoded, Run, FrameTicks;
    AllDelivered(cfg, arr, k);
    InOrder(cfg, arr);
    forall ch: byte ensures Decoded(cfg, ch) == ch { EightBits(cfg, ch); }
  }

  // ---------- Two simulator objects on one wire ----------

  function LinkOf(a: DbluartSim, b: DbluartSim): Link
    reads a, b
  {
    Link(a.pending, a.TxView(), b.RxView(), b.received)
  }

  /** Tick both objects |arr| times, a's output being b's input. */
  method Wire(a: DbluartSim, b: DbluartSim, arr: seq<seq<byte>>)
    requires a != b && a.cfg == b.cfg && a.cfg.Valid()
    modifies a, b
    ensures a.cfg == b.cfg == old(a.cfg)
    ensures LinkOf(a, b) == Run(a.cfg, old(LinkOf(a, b)), arr)
  {
    hide Frame, RxStep, TxStep;
    ghost var cfg, l := a.cfg, LinkOf(a, b);
    for i := 0 to |arr|
      invariant a.cfg == b.cfg == cfg
      invariant Run(cfg, LinkOf(a, b), arr[i..]) == Run(cfg, l, arr)
    {
      assert arr[i..][0] == arr[i] && arr[i..][1..] == arr[i + 1..];
      ghost var before := LinkOf(a, b);
      a.pending := a.pending + arr[i];
      var line := a.Tick(1);
      var _ := b.Tick(line);
      assert LinkOf(a, b) == Step(cfg, before, arr[i]);
    }
    assert arr[|arr|..] == [];
  }
}
