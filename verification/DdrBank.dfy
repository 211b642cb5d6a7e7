/** One bank of the simulated DDR3 memory of sim/verilated/ddrsdramsim.cpp, and
    what its state register says about the commands it has had. */
module DdrBank {
  import opened Options
  import opened Powers
  import Division

  // Commands, from CS, RAS, CAS and WE; from eight on the device is not selected
  const MRSET: nat := 0
  const REFRESH: nat := 1
  const PRECHARGE: nat := 2
  const ACTIVATE: nat := 3
  const WRITE: nat := 4
  const READ: nat := 5
  const ZQS: nat := 6
  const NOOP: nat := 7

  const CK_RP: nat := 11
  const FULL: nat := 0x7ff

  /** The state is a shift register of CK_RP bits; bit 0 says that a row is open. */
  datatype Bank = Bank(state: nat, row: nat, wcounter: nat) {
    predicate Valid() { state <= FULL && wcounter == 0 }
  }

  /** BANKINFO::tick(); nothing if an assertion fails.  The check for a read is
      made for writes too, so that the counter that a write should set stays zero. */
  function BankStep(b: Bank, cmd: nat, addr: nat): Option<Bank> {
    var b := if b.wcounter > 0 then b.(wcounter := b.wcounter - 1) else b;
    if cmd == REFRESH then
      if b.state == 0 then Some(b) else None
    else if cmd == PRECHARGE then
      Some(b.(state := b.state - b.state % 2))
    else if cmd == ACTIVATE then
      if b.state % (FULL + 1) == 0 then Some(b.(state := 1, row := addr % 0x8000)) else None
    else if cmd == READ || cmd == WRITE then
      if b.wcounter == 0 && b.state % (FULL + 1) == FULL then Some(b) else None
    else if cmd == ZQS then
      if b.state % (FULL + 1) == 0 then Some(b) else None
    else if cmd == NOOP then
      Some(b.(state := (2 * b.state + b.state % 2) % (FULL + 1)))
    else Some(b)
  }

  // ---------- What the commands mean ----------

  /** The row of a bank: open for so many NOOPs, or closed after having been open
      for so many, for so many more. */
  datatype Phase = Open(since: nat) | Closed(was: nat, since: nat)

  function NextPhase(p: Phase, cmd: nat): Phase {
    if cmd == ACTIVATE then Open(0)
    else if cmd == PRECHARGE then (if p.Open? then Closed(p.since, 0) else p)
    else if cmd == NOOP then (if p.Open? then Open(p.since + 1) else Closed(p.was, p.since + 1))
    else p
  }

  /** The phase after some commands, from a bank that has never been open. */
  function PhaseOf(cmds: seq<nat>): Phase {
    if cmds == [] then Closed(0, 0) else NextPhase(PhaseOf(cmds[..|cmds| - 1]), cmds[|cmds| - 1])
  }

  function Capped(k: nat): nat { if k < 10 then k else 10 }

  /** What the register holds. */
  function Register(p: Phase): nat {
    match p
    case Open(k) => 2 * Pow2(Capped(k)) - 1
    case Closed(k, j) => Shifted(Pow2(Capped(k)) - 1, Capped(j))
  }

  /** Ones that have been shifted on by zeros. */
  function Shifted(x: nat, d: nat): nat { 2 * (x * Pow2(d)) % 2048 }

  lemma Powers10()
    ensures Pow2(10) == 1024
  {
    SmallPowers();
    assert Pow2(10) == 2 * Pow2(9);
  }

  lemma OpenShifts(k: nat)
    ensures var s := Register(Open(k)); s <= FULL && s % 2 == 1 && (2 * s + s % 2) % (FULL + 1) == Register(Open(k + 1))
    ensures Register(Open(k)) == FULL <==> k >= 10
    ensures Register(Open(k)) != 0
  {
    Powers10();
    var c := Capped(k);
    if c < 10 {
      Pow2Monotone(c + 1, 10);
      assert Pow2(c + 1) == 2 * Pow2(c);
    }
    hide Pow2;
  }

  /** What is left of the ones after some shifts. */
  lemma ClosedShifts(k: nat, j: nat)
    ensures var s := Register(Closed(k, j)); s <= FULL && s % 2 == 0 && 2 * s % (FULL + 1) == Register(Closed(k, j + 1))
    ensures Register(Closed(k, j)) == 0 <==> k == 0 || j >= 10
  {
    OddOrZero(Capped(k));
    ShiftedOut(Pow2(Capped(k)) - 1, Capped(j));
    hide Pow2, Shifted;
  }

  lemma OddOrZero(c: nat)
    ensures c == 0 ==> Pow2(c) - 1 == 0
    ensures c > 0 ==> (Pow2(c) - 1) % 2 == 1
  {
  }

  lemma ShiftedOut(x: nat, d: nat)
    requires d <= 10 && (x == 0 || x % 2 == 1)
    ensures var s := Shifted(x, d);
            s < 2048 && s % 2 == 0 && 2 * s % 2048 == Shifted(x, Capped(d + 1))
    ensures Shifted(x, d) == 0 <==> x == 0 || d == 10
  {
    Powers10();
    Pow2Add(d, 10 - d);
    assert d + (10 - d) == 10;
    var p, q := Pow2(d), Pow2(10 - d);
    if d < 10 {
      assert Pow2(d + 1) == 2 * p && q == 2 * Pow2(9 - d);
    } else {
      assert p == 1024;
    }
    hide Pow2;
    ShiftOnce(x * p);
    Doubles(x, p);
    if d < 10 && x * p % 1024 == 0 {
      MultipleIsEven(x, p, q, x * p / 1024);
    }
  }

  lemma Doubles(x: nat, p: nat)
    ensures x * (2 * p) == 2 * (x * p)
    ensures x == 0 ==> x * p == 0
    ensures p == 1024 ==> x * p % 1024 == 0
  {
  }

  lemma ShiftOnce(y: nat)
    ensures 2 * y % 2048 % 2 == 0 && 2 * (2 * y % 2048) % 2048 == 2 * (2 * y) % 2048
    ensures y % 1024 == 0 ==> 2 * (2 * y) % 2048 == 0
    ensures 2 * y % 2048 == 0 <==> y % 1024 == 0
  {
    var m, r := y / 1024, y % 1024;
    Division.DivUnique(2 * y, 2048, m, 2 * r);
    if r < 512 {
      Division.DivUnique(4 * y, 2048, 2 * m, 4 * r);
    } else {
      Division.DivUnique(4 * y, 2048, 2 * m + 1, 4 * r - 2048);
    }
  }

  lemma MultipleIsEven(x: nat, p: nat, q: nat, m: nat)
    requires p > 0 && p * q == 1024 && q % 2 == 0 && x * p == 1024 * m
    ensures x % 2 == 0
  {
    assert (p * q) * m == (m * q) * p;
    Cancel(x, m * q, p);
    EvenProduct(m, q);
  }

  lemma Cancel(x: nat, y: nat, p: nat)
    requires p > 0 && x * p == y * p
    ensures x == y
  {
    Division.MulMod(x, p);
    Division.MulMod(y, p);
  }

  lemma EvenProduct(m: nat, q: nat)
    requires q % 2 == 0
    ensures m * q % 2 == 0
  {
    var h := q / 2;
    assert m * q == 2 * (m * h);
  }

  /** Is a command in order, by what the bank has been told so far?  A row must
      have been open for ten NOOPs before a read or a write, and closed for ten
      before the next is opened, unless it was never open for one. */
  predicate InOrder(p: Phase, cmd: nat) {
    if cmd == READ || cmd == WRITE then p.Open? && p.since >= 10
    else if cmd == ACTIVATE || cmd == REFRESH || cmd == ZQS then p.Closed? && (p.was == 0 || p.since >= 10)
    else true
  }

  /** The register says exactly that. */
  lemma StepFollows(b: Bank, p: Phase, cmd: nat, addr: nat)
    requires b.Valid() && b.state == Register(p)
    ensures BankStep(b, cmd, addr).Some? <==> InOrder(p, cmd)
    ensures InOrder(p, cmd) ==>
      var b' := BankStep(b, cmd, addr).value;
      && b'.Valid() && b'.state == Register(NextPhase(p, cmd))
      && b'.row == if cmd == ACTIVATE then addr % 0x8000 else b.row
  {
    FirstOpen();
    match p {
      case Open(k) =>
        OpenShifts(k);
        OpenCloses(k);
      case Closed(k, j) =>
        ClosedShifts(k, j);
    }
    hide Register;
  }

  lemma FirstOpen()
    ensures Register(Open(0)) == 1
  {
    assert Pow2(0) == 1;
  }

  lemma OpenCloses(k: nat)
    ensures Register(Open(k)) - 1 == Register(Closed(k, 0)) && Register(Open(k)) % 2 == 1
  {
    Powers10();
    Pow2Monotone(Capped(k), 10);
    ShiftedNone(Pow2(Capped(k)) - 1);
    hide Pow2, Shifted, Capped;
  }

  lemma ShiftedNone(x: nat)
    requires x < 1024
    ensures Shifted(x, 0) == 2 * x
  {
    assert Pow2(0) == 1;
  }

  // ---------- Runs of one bank ----------

  /** The last place of an ACTIVATE with no PRECHARGE since, if the row is open. */
  lemma {:induction false} OpenedBy(cmds: seq<nat>) returns (i: nat)
    requires PhaseOf(cmds).Open?
    ensures i < |cmds| && cmds[i] == ACTIVATE
    ensures forall j :: i < j < |cmds| ==> cmds[j] != PRECHARGE && cmds[j] != ACTIVATE
    ensures PhaseOf(cmds).since <= |cmds| - 1 - i
  {
    var n := |cmds| - 1;
    if cmds[n] == ACTIVATE {
      i := n;
    } else {
      i := OpenedBy(cmds[..n]);
      assert forall j :: i < j < n ==> cmds[j] == cmds[..n][j];
    }
  }

  /** An open row has had no PRECHARGE since its ACTIVATE, and no NOOP if its
      time is nought. */
  lemma {:induction false} OpenSince(cmds: seq<nat>, i: nat)
    requires PhaseOf(cmds).Open? && i < |cmds| && cmds[i] == ACTIVATE
    requires forall j :: i < j < |cmds| ==> cmds[j] != ACTIVATE
    ensures forall j :: i < j < |cmds| ==>
              cmds[j] != PRECHARGE && (PhaseOf(cmds).since == 0 ==> cmds[j] != NOOP)
  {
    var n := |cmds| - 1;
    if i < n {
      OpenSince(cmds[..n], i);
      assert forall j :: i < j < n ==> cmds[j] == cmds[..n][j];
    }
  }

  /** A closed row had its first PRECHARGE after its last ACTIVATE; the time it
      has been closed goes back no further than that, and if it was never open
      for a NOOP, there is none between the two. */
  lemma {:induction false} ClosedFrom(cmds: seq<nat>, i: nat) returns (j: nat)
    requires PhaseOf(cmds).Closed? && i < |cmds| && cmds[i] == ACTIVATE
    requires forall j :: i < j < |cmds| ==> cmds[j] != ACTIVATE
    ensures i < j < |cmds| && cmds[j] == PRECHARGE
    ensures forall m :: i < m < j ==> cmds[m] != PRECHARGE && (PhaseOf(cmds).was == 0 ==> cmds[m] != NOOP)
    ensures PhaseOf(cmds).since <= |cmds| - 1 - j
  {
    var n := |cmds| - 1;
    var init := cmds[..n];
    if PhaseOf(init).Open? {
      j := n;
      OpenSince(init, i);
    } else {
      j := ClosedFrom(init, i);
    }
    assert forall m :: i < m < j ==> cmds[m] == init[m];
  }

  /** A closed row has had a PRECHARGE after its last ACTIVATE. */
  lemma {:induction false} ClosedSince(cmds: seq<nat>, i: nat) returns (j: nat)
    requires PhaseOf(cmds).Closed? && i < |cmds| && cmds[i] == ACTIVATE
    ensures i < j < |cmds| && cmds[j] == PRECHARGE
  {
    var n := |cmds| - 1;
    if cmds[n] == PRECHARGE {
      j := n;
    } else {
      j := ClosedSince(cmds[..n], i);
    }
  }
}
