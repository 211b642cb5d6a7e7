/** The serial port simulator of sim/verilated/dbluartsim.{h,cpp}: one call of
    tick() as a step of its receiver and a step of its transmitter. */
module Uart {
  import opened Options
  import opened Powers
  import opened Bitwise
  import opened Bytes

  const WORD: nat := 0x1_0000_0000

  /** The fields setup() takes out of the 29-bit configuration word. */
  datatype Config = Config(baud: nat, nbits: nat, nstop: nat, nparity: nat, fixdp: bool, evenp: nat) {
    predicate Valid() {
      baud >= 1 && 5 <= nbits <= 8 && 1 <= nstop <= 2 && nparity <= 1 && evenp <= 1
    }

    /** Bits received after the start bit: data, parity, stop. */
    function Samples(): nat { nbits + nparity + nstop }
  }

  /** setup(): the configuration word taken apart. */
  function Setup(isetup: nat): Config {
    Config(isetup % 0x100_0000, 8 - isetup / 0x1000_0000 % 4, isetup / 0x800_0000 % 2 + 1,
           isetup / 0x400_0000 % 2, isetup / 0x200_0000 % 2 == 1, isetup / 0x100_0000 % 2)
  }

  lemma SetupValid(isetup: nat)
    ensures isetup % 0x100_0000 > 0 <==> Setup(isetup).Valid()
  {
  }

  /** The parity bit for the shift register w, which has the data from bit 1 on. */
  function Parity(cfg: Config, w: nat): (p: nat)
    requires cfg.Valid()
    ensures p < 2
  {
    if cfg.fixdp then cfg.evenp
    else
      var p := w / 2 % 256;
      var p := Xor(p, p / 16, 8);
      var p := Xor(p, p / 4, 8);
      var p := Xor(p, p / 2, 8);
      Xor(p % 2, cfg.evenp, 1)
  }

  /** m_tx_data when a byte is loaded: start bit, data, parity, then ones. */
  function Frame(cfg: Config, ch: byte): (w: nat)
    requires cfg.Valid()
    ensures w < WORD
  {
    PowAtMost(cfg.nbits + cfg.nparity + 1);
    var w := Or(WORD - Pow2(cfg.nbits + cfg.nparity + 1), 2 * ch, 32);
    if cfg.nparity == 0 then w
    else Or(w, Parity(cfg, w) * Pow2(cfg.nbits + cfg.nparity), 32)
  }

  lemma PowAtMost(n: nat)
    requires n <= 32
    ensures Pow2(n) <= WORD && Pow2(32) == WORD
  {
    WidePowers();
    Pow2Monotone(n, 32);
  }

  datatype Tx = Tx(sending: bool, counter: int, busy: nat, data: nat)

  datatype Rx = Rx(receiving: bool, counter: int, busy: nat, data: nat, changectr: nat, lastLine: nat)

  const TXIDLE := Tx(false, 0, 0, 0)

  /** The receiver at the start of a simulation, with the line idle high. */
  const RXIDLE := Rx(false, 0, 0, 0, 0, 1)

  /** The transmitter half of tick(): next is what next() returns when it is
      called, the result is the line. */
  function TxStep(cfg: Config, tx: Tx, next: Option<byte>): (Tx, nat)
    requires cfg.Valid()
  {
    if !tx.sending then
      match next
      case None => (tx, 1)
      case Some(ch) => (Tx(true, cfg.baud - 1, Pow2(cfg.Samples() + 1) - 1, Frame(cfg, ch)), 0)
    else if tx.counter <= 0 then
      var data, busy := tx.data / 2, tx.busy / 2;
      if busy == 0 then (Tx(false, tx.counter, busy, data), data % 2)
      else (Tx(true, cfg.baud - 1, busy, data), data % 2)
    else (tx.(counter := tx.counter - 1), tx.data % 2)
  }

  /** The receiver half of tick(): the character it reports, if any. */
  function RxStep(cfg: Config, rx: Rx, line: nat): (Rx, Option<byte>)
    requires cfg.Valid()
  {
    var change := if line == 0 && rx.lastLine != 0 then 0 else rx.changectr + 1;
    var r := rx.(changectr := change, lastLine := line);
    if !r.receiving then
      if line == 0 then
        (r.(receiving := true, counter := cfg.baud + cfg.baud / 2 - 1 - change, busy := 0, data := 0), None)
      else (r, None)
    else if r.counter <= 0 then
      if r.busy >= Pow2(cfg.Samples() - 1) then
        (r.(receiving := false, counter := cfg.baud - 1), Some(r.data / Pow2(32 - cfg.Samples()) % 256))
      else
        (r.(busy := 2 * r.busy + 1, data := line % 2 * 0x8000_0000 + r.data / 2, counter := cfg.baud - 1), None)
    else (r.(counter := r.counter - 1), None)
  }

  /** The simulator object.  pending is what next() takes characters from and
      received is what received() has been given. */
  class DbluartSim {
    var cfg: Config
    var pending: seq<byte>
    var received: seq<byte>
    var rxReceiving: bool
    var rxBaudcounter: int
    var rxBusy: nat
    var rxData: nat
    var rxChangectr: nat
    var lastTx: nat
    var txSending: bool
    var txBaudcounter: int
    var txBusy: nat
    var txData: nat

    function TxView(): Tx
      reads this
    {
      Tx(txSending, txBaudcounter, txBusy, txData)
    }

    function RxView(): Rx
      reads this
    {
      Rx(rxReceiving, rxBaudcounter, rxBusy, rxData, rxChangectr, lastTx)
    }

    constructor (isetup: nat)
      ensures cfg == Setup(isetup) && pending == [] && received == []
      ensures TxView() == TXIDLE && RxView() == RXIDLE
    {
      cfg := Setup(isetup);
      pending, received := [], [];
      rxReceiving, rxBaudcounter, rxBusy, rxData, rxChangectr, lastTx := false, 0, 0, 0, 0, 1;
      txSending, txBaudcounter, txBusy, txData := false, 0, 0, 0;
    }

    /** One clock tick: the line in, the line out. */
    method Tick(i_tx: nat) returns (o_rx: nat)
      requires cfg.Valid()
      modifies this
      ensures cfg == old(cfg)
      ensures var (rx, ch) := RxStep(cfg, old(RxView()), i_tx);
              RxView() == rx && received == old(received) + (if ch.Some? then [ch.value] else [])
      ensures var next := if old(pending) == [] then None else Some(old(pending)[0]);
              (TxView(), o_rx) == TxStep(cfg, old(TxView()), next)
      ensures pending == if old(txSending) || old(pending) == [] then old(pending) else old(pending)[1..]
    {
      Receive(i_tx);
      o_rx := Transmit();
    }

    method Receive(i_tx: nat)
      requires cfg.Valid()
      modifies this`received, this`rxReceiving, this`rxBaudcounter, this`rxBusy, this`rxData, this`rxChangectr,
               this`lastTx
      ensures var (rx, ch) := RxStep(cfg, old(RxView()), i_tx);
              RxView() == rx && received == old(received) + (if ch.Some? then [ch.value] else [])
    {
      hide Pow2;
      if i_tx == 0 && lastTx != 0 {
        rxChangectr := 0;
      } else {
        rxChangectr := rxChangectr + 1;
      }
      lastTx := i_tx;
      if !rxReceiving {
        if i_tx == 0 {
          rxReceiving := true;
          rxBaudcounter := cfg.baud + cfg.baud / 2 - 1;
          rxBaudcounter := rxBaudcounter - rxChangectr;
          rxBusy, rxData := 0, 0;
        }
      } else if rxBaudcounter <= 0 {
        if rxBusy >= Pow2(cfg.nbits + cfg.nparity + cfg.nstop - 1) {
          rxReceiving := false;
          var ch := rxData / Pow2(32 - cfg.nbits - cfg.nstop - cfg.nparity) % 256;
          received := received + [ch];
        } else {
          rxBusy := 2 * rxBusy + 1;
          rxData := i_tx % 2 * 0x8000_0000 + rxData / 2;
        }
        rxBaudcounter := cfg.baud - 1;
      } else {
        rxBaudcounter := rxBaudcounter - 1;
      }
    }

    method Transmit() returns (o_rx: nat)
      requires cfg.Valid()
      modifies this`pending, this`txSending, this`txBaudcounter, this`txBusy, this`txData
      ensures var next := if old(pending) == [] then None else Some(old(pending)[0]);
              (TxView(), o_rx) == TxStep(cfg, old(TxView()), next)
      ensures pending == if old(txSending) || old(pending) == [] then old(pending) else old(pending)[1..]
    {
      hide Frame, Pow2;
      o_rx := 1;
      if !txSending {
        if pending != [] {
          var ch := pending[0];
          pending := pending[1..];
          txData := Frame(cfg, ch);
          txBusy := Pow2(cfg.nbits + cfg.nparity + cfg.nstop + 1) - 1;
          txSending := true;
          o_rx := 0;
          txBaudcounter := cfg.baud - 1;
        }
      } else if txBaudcounter <= 0 {
        txData := txData / 2;
        txBusy := txBusy / 2;
        if txBusy == 0 {
          txSending := false;
        } else {
          txBaudcounter := cfg.baud - 1;
        }
        o_rx := txData % 2;
      } else {
        txBaudcounter := txBaudcounter - 1;
        o_rx := txData % 2;
      }
    }
  }
}
