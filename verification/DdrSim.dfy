/** The operational mode of the simulated DDR3 memory, from where its reset
    sequence ends: DDRSDRAMSIM::operator() of sim/verilated/ddrsdramsim.cpp, without
    its data slots. */
module DdrSim {
  import opened Options
  import opened DdrBank
  import Division

  const BANKS: nat := 8
  // Clocks from a refresh to an ACTIVATE, and from one refresh to the next
  const CK_RFC: nat := 320
  const CK_REFI: nat := 1560
  const NREF: nat := 1

  type index = i: int | 0 <= i < 8

  /** The pins in a clock cycle. */
  datatype Input = Input(cke: bool, cmd: nat, ba: index, addr: nat)

  datatype Device = Device(banks: seq<Bank>, sinceRefresh: nat, issued: nat) {
    predicate Valid() { |banks| == BANKS && forall i :: 0 <= i < BANKS ==> banks[i].Valid() }
  }

  /** What a bank is told. */
  function BankCommand(input: Input, i: nat): nat {
    if input.cmd == REFRESH then REFRESH
    else if input.cmd == PRECHARGE then (if input.addr / 0x400 % 2 == 1 || i == input.ba then PRECHARGE else NOOP)
    else if input.cmd == ACTIVATE || input.cmd == READ || input.cmd == WRITE then
      if i == input.ba then input.cmd else NOOP
    else NOOP
  }

  predicate BanksAccept(banks: seq<Bank>, input: Input) {
    forall i :: 0 <= i < |banks| ==> BankStep(banks[i], BankCommand(input, i), input.addr).Some?
  }

  function BanksAfter(banks: seq<Bank>, input: Input): (r: seq<Bank>)
    requires BanksAccept(banks, input)
    ensures |r| == |banks|
  {
    seq(|banks|, i requires 0 <= i < |banks| => BankStep(banks[i], BankCommand(input, i), input.addr).value)
  }

  /** Do the checks of the device itself pass? */
  predicate DeviceAccepts(d: Device, input: Input) {
    && input.cke
    && (input.cmd != REFRESH ==>
          if d.issued < NREF then input.cmd == NOOP
          else
            && d.sinceRefresh + 1 < CK_REFI && input.cmd != MRSET && input.cmd != ZQS
            && (input.cmd == ACTIVATE ==> d.sinceRefresh + 1 >= CK_RFC)
            && (input.cmd == READ || input.cmd == WRITE ==> input.addr % 8 == 0))
  }

  /** One clock; nothing if an assertion fails. */
  function DeviceStep(d: Device, input: Input): Option<Device> {
    if !DeviceAccepts(d, input) || !BanksAccept(d.banks, input) then None
    else
      var banks := BanksAfter(d.banks, input);
      if input.cmd == REFRESH then Some(Device(banks, 0, if d.issued >= NREF then 1 else d.issued + 1))
      else Some(Device(banks, d.sinceRefresh + 1, d.issued))
  }

  // ---------- The simulator ----------

  class DdrSdramSim {
    const banks: array<Bank>
    var sinceRefresh: nat
    var issued: nat

    ghost function View(): Device
      reads this, banks
    {
      Device(banks[..], sinceRefresh, issued)
    }

    ghost predicate Valid()
      reads this, banks
    {
      View().Valid()
    }

    /** The end of the reset sequence: all banks closed, so many clocks after a
        refresh. */
    constructor (since: nat)
      ensures Valid() && fresh(banks) && View() == Fresh(since)
    {
      banks := new Bank[8](_ => Bank(0, 0, 0));
      sinceRefresh, issued := since, NREF;
      new;
      assert banks[..] == Fresh(since).banks;
    }

    /** All banks are told, in this order; ok is false when an assertion fails. */
    method TickBanks(first: int, input: Input) returns (ok: bool)
      requires banks.Length == BANKS && -1 <= first < BANKS
      modifies banks
      ensures ok <==> BanksAccept(old(banks[..]), input)
      ensures ok ==> banks[..] == BanksAfter(old(banks[..]), input)
    {
      hide BankStep, BankCommand;
      ghost var was := banks[..];
      if first >= 0 {
        ok := TickBank(first, BankCommand(input, first), input.addr);
        if !ok {
          return;
        }
      }
      var i := 0;
      while i < BANKS
        invariant 0 <= i <= BANKS
        invariant forall k :: 0 <= k < BANKS ==>
          if k < i || k == first
          then BankStep(was[k], BankCommand(input, k), input.addr) == Some(banks[k])
          else banks[k] == was[k]
      {
        if i != first {
          ok := TickBank(i, BankCommand(input, i), input.addr);
          if !ok {
            return;
          }
        }
        i := i + 1;
      }
      ok := true;
    }

    method TickBank(i: nat, cmd: nat, addr: nat) returns (ok: bool)
      requires i < banks.Length
      modifies banks
      ensures var r := BankStep(old(banks[i]), cmd, addr);
              && (ok <==> r.Some?)
              && (ok ==> banks[..] == old(banks[..])[i := r.value])
    {
      var b := banks[i];
      if b.wcounter > 0 {
        b := b.(wcounter := b.wcounter - 1);
      }
      if cmd == REFRESH {
        ok := b.state == 0;
      } else if cmd == PRECHARGE {
        ok, b := true, b.(state := b.state - b.state % 2);
      } else if cmd == ACTIVATE {
        ok, b := b.state % 0x800 == 0, b.(state := 1, row := addr % 0x8000);
      } else if cmd == READ || cmd == WRITE {
        ok := b.wcounter == 0 && b.state % 0x800 == FULL;
      } else if cmd == ZQS {
        ok := b.state % 0x800 == 0;
      } else {
        ok := true;
        if cmd == NOOP {
          b := b.(state := (2 * b.state + b.state % 2) % 0x800);
        }
      }
      banks[i] := b;
    }

    /** One clock in operational mode. */
    method Tick(input: Input) returns (ok: bool)
      requires Valid()
      modifies this, banks
      ensures ok <==> DeviceStep(old(View()), input).Some?
      ensures ok ==> View() == DeviceStep(old(View()), input).value
    {
      hide BanksAccept, BanksAfter;
      if !input.cke {
        return false;
      }
      if input.cmd == REFRESH || issued < NREF {
        if input.cmd == REFRESH {
          sinceRefresh := 0;
          issued := if issued >= NREF then 1 else issued + 1;
        } else {
          sinceRefresh := sinceRefresh + 1;
          if input.cmd != NOOP {
            return false;
          }
        }
        ok := TickBanks(-1, input);
      } else {
        sinceRefresh := sinceRefresh + 1;
        if sinceRefresh >= CK_REFI || input.cmd == MRSET || input.cmd == ZQS {
          return false;
        }
        if input.cmd == PRECHARGE {
          ok := TickBanks(if input.addr / 0x400 % 2 == 1 then -1 else input.ba, input);
        } else if input.cmd == ACTIVATE {
          if sinceRefresh < CK_RFC {
            return false;
          }
          ok := TickBanks(input.ba, input);
        } else if input.cmd == READ || input.cmd == WRITE {
          if input.addr % 8 != 0 {
            return false;
          }
          ok := TickBanks(input.ba, input);
        } else {
          ok := TickBanks(-1, input);
        }
      }
    }
  }

  function Fresh(since: nat): Device { Device(seq(8, _ => Bank(0, 0, 0)), since, NREF) }

  // ---------- Runs ----------

  /** The device after some clocks, if every assertion holds. */
  function RunDevice(since: nat, inputs: seq<Input>): Option<Device> {
    if inputs == [] then Some(Fresh(since))
    else
      match RunDevice(since, inputs[..|inputs| - 1])
      case None => None
      case Some(d) => DeviceStep(d, inputs[|inputs| - 1])
  }

  predicate Accepted(since: nat, inputs: seq<Input>) { RunDevice(since, inputs).Some? }

  /** What a bank has been told. */
  function BankHistory(inputs: seq<Input>, i: nat): seq<nat> {
    seq(|inputs|, k requires 0 <= k < |inputs| => BankCommand(inputs[k], i))
  }

  /** The clocks since the last refresh. */
  function SinceRefresh(since: nat, inputs: seq<Input>): nat {
    if inputs == [] then since
    else if inputs[|inputs| - 1].cmd == REFRESH then 0
    else SinceRefresh(since, inputs[..|inputs| - 1]) + 1
  }

  function PhaseIn(inputs: seq<Input>, i: nat): Phase { PhaseOf(BankHistory(inputs, i)) }

  /** Does the device say about a run what its history says? */
  ghost predicate Follows(d: Device, since: nat, inputs: seq<Input>) {
    && d.Valid() && d.issued == NREF && d.sinceRefresh == SinceRefresh(since, inputs)
    && forall i :: 0 <= i < BANKS ==> d.banks[i].state == Register(PhaseIn(inputs, i))
  }

  /** Is an input in order after a run, by the rules in terms of the run alone? */
  predicate InputInOrder(since: nat, inputs: seq<Input>, input: Input) {
    && input.cke
    && (input.cmd != REFRESH ==>
          && SinceRefresh(since, inputs) + 1 < CK_REFI && input.cmd != MRSET && input.cmd != ZQS
          && (input.cmd == ACTIVATE ==> SinceRefresh(since, inputs) + 1 >= CK_RFC)
          && (input.cmd == READ || input.cmd == WRITE ==> input.addr % 8 == 0))
    && forall i :: 0 <= i < BANKS ==> InOrder(PhaseIn(inputs, i), BankCommand(input, i))
  }

  lemma HistoryMore(inputs: seq<Input>, input: Input, i: nat)
    ensures PhaseIn(inputs + [input], i) == NextPhase(PhaseIn(inputs, i), BankCommand(input, i))
  {
    var h := BankHistory(inputs + [input], i);
    assert h[..|inputs|] == BankHistory(inputs, i);
  }

  lemma FollowsStep(d: Device, since: nat, inputs: seq<Input>, input: Input)
    requires Follows(d, since, inputs)
    ensures DeviceStep(d, input).Some? <==> InputInOrder(since, inputs, input)
    ensures DeviceStep(d, input).Some? ==> Follows(DeviceStep(d, input).value, since, inputs + [input])
  {
    hide BankStep, Register, NextPhase, PhaseIn, BankCommand, InOrder;
    forall i | 0 <= i < BANKS
      ensures BankStep(d.banks[i], BankCommand(input, i), input.addr).Some? <==>
              InOrder(PhaseIn(inputs, i), BankCommand(input, i))
      ensures InOrder(PhaseIn(inputs, i), BankCommand(input, i)) ==>
        var b := BankStep(d.banks[i], BankCommand(input, i), input.addr).value;
        b.Valid() && b.state == Register(PhaseIn(inputs + [input], i))
    {
      StepFollows(d.banks[i], PhaseIn(inputs, i), BankCommand(input, i), input.addr);
      HistoryMore(inputs, input, i);
    }
    assert (inputs + [input])[..|inputs|] == inputs;
  }

  lemma {:induction false} RunFollows(since: nat, inputs: seq<Input>)
    requires Accepted(since, inputs)
    ensures Follows(RunDevice(since, inputs).value, since, inputs)
  {
    if inputs == [] {
      StartsClosed();
    } else {
      var init, input := inputs[..|inputs| - 1], inputs[|inputs| - 1];
      RunFollows(since, init);
      hide DeviceStep, Follows;
      FollowsStep(RunDevice(since, init).value, since, init, input);
      assert init + [input] == inputs;
    }
  }

  lemma StartsClosed()
    ensures Register(Closed(0, 0)) == 0
    ensures forall i: nat :: PhaseIn([], i) == Closed(0, 0)
  {
    ClosedShifts(0, 0);
  }

  /** A run is accepted just when every input is in order after those before it:
      the shift registers and counters enforce exactly the rules. */
  lemma AcceptedIff(since: nat, inputs: seq<Input>, input: Input)
    ensures InputInOrder(since, inputs, input) <==>
      && input.cke
      && (input.cmd != REFRESH ==>
            && SinceRefresh(since, inputs) + 1 < 1560 && input.cmd != MRSET && input.cmd != ZQS
            && (input.cmd == ACTIVATE ==> SinceRefresh(since, inputs) + 1 >= 320)
            && (input.cmd == READ || input.cmd == WRITE ==> input.addr % 8 == 0))
      && forall i: index ::
           var p := PhaseIn(inputs, i);
           && ((input.cmd == READ || input.cmd == WRITE) && input.ba == i ==> p.Open? && p.since >= 10)
           && (input.cmd == REFRESH || (input.cmd == ACTIVATE && input.ba == i) ==>
                 p.Closed? && (p.was == 0 || p.since >= 10))
    ensures Accepted(since, inputs + [input]) <==> Accepted(since, inputs) && InputInOrder(since, inputs, input)
  {
    assert (inputs + [input])[..|inputs|] == inputs;
    if Accepted(since, inputs) {
      RunFollows(since, inputs);
      hide DeviceStep, Follows, InputInOrder;
      FollowsStep(RunDevice(since, inputs).value, since, inputs, input);
    }
  }

  /** Every part of an accepted run was accepted, and each input was in order. */
  lemma {:induction false} PrefixAccepted(since: nat, inputs: seq<Input>, n: nat)
    requires Accepted(since, inputs) && n < |inputs|
    ensures Accepted(since, inputs[..n]) && InputInOrder(since, inputs[..n], inputs[n])
    decreases |inputs|
  {
    hide InputInOrder;
    var init, input := inputs[..|inputs| - 1], inputs[|inputs| - 1];
    assert inputs == init + [input];
    AcceptedIff(since, init, input);
    if n < |init| {
      hide Accepted;
      PrefixAccepted(since, init, n);
      assert inputs[..n] == init[..n];
    } else {
      assert inputs[..n] == init;
    }
  }

  // ---------- What an accepted run is safe from ----------

  /** What a bank is told, by the pins: commands for one bank go to that of the bank
      address, PRECHARGE to all of them if address bit 10 is set, REFRESH to all. */
  lemma Told(input: Input, b: index)
    ensures BankCommand(input, b) == PRECHARGE <==>
              input.cmd == PRECHARGE && (input.addr / 0x400 % 2 == 1 || input.ba == b)
    ensures BankCommand(input, b) == ACTIVATE <==> input.cmd == ACTIVATE && input.ba == b
    ensures BankCommand(input, b) == READ <==> input.cmd == READ && input.ba == b
    ensures BankCommand(input, b) == WRITE <==> input.cmd == WRITE && input.ba == b
    ensures BankCommand(input, b) == REFRESH <==> input.cmd == REFRESH
    ensures BankCommand(input, b) in {PRECHARGE, ACTIVATE, READ, WRITE, REFRESH, NOOP}
  {
  }

  /** A read or a write finds its row open for at least eleven clocks: it comes so
      long after an ACTIVATE of its bank, with no PRECHARGE of that in between. */
  lemma ReadsAreLate(since: nat, inputs: seq<Input>, n: nat) returns (k: nat)
    requires Accepted(since, inputs) && n < |inputs|
    requires inputs[n].cmd == READ || inputs[n].cmd == WRITE
    ensures k < n && n - k >= 11 && inputs[k].cmd == ACTIVATE && inputs[k].ba == inputs[n].ba
    ensures forall j :: k < j < n ==>
              && !(inputs[j].cmd == PRECHARGE && (inputs[j].addr / 0x400 % 2 == 1 || inputs[j].ba == inputs[n].ba))
              && !(inputs[j].cmd == ACTIVATE && inputs[j].ba == inputs[n].ba)
  {
    PrefixAccepted(since, inputs, n);
    var b := inputs[n].ba;
    var h := BankHistory(inputs[..n], b);
    assert InOrder(PhaseIn(inputs[..n], b), BankCommand(inputs[n], b)) by { Told(inputs[n], b); }
    k := OpenedBy(h);
    assert h[k] == BankCommand(inputs[k], b);
    Told(inputs[k], b);
    forall j | k < j < n
      ensures !(inputs[j].cmd == PRECHARGE && (inputs[j].addr / 0x400 % 2 == 1 || inputs[j].ba == b))
      ensures !(inputs[j].cmd == ACTIVATE && inputs[j].ba == b)
    {
      assert h[j] == BankCommand(inputs[j], b);
      Told(inputs[j], b);
    }
  }

  /** A refresh finds all eight banks closed... */
  lemma RefreshFindsClosed(since: nat, inputs: seq<Input>, n: nat)
    requires Accepted(since, inputs) && n < |inputs| && inputs[n].cmd == REFRESH
    ensures Accepted(since, inputs[..n])
    ensures var d := RunDevice(since, inputs[..n]).value;
            |d.banks| == BANKS && forall i :: 0 <= i < BANKS ==> d.banks[i].state == 0
  {
    PrefixAccepted(since, inputs, n);
    RunFollows(since, inputs[..n]);
    forall i | 0 <= i < BANKS
      ensures Register(PhaseIn(inputs[..n], i)) == 0
    {
      var p := PhaseIn(inputs[..n], i);
      assert InOrder(p, BankCommand(inputs[n], i));
      ClosedShifts(p.was, p.since);
      hide Register;
    }
    hide RunDevice, Register, PhaseIn, InputInOrder;
  }

  /** ...and every row that was opened has been closed by a PRECHARGE of its bank,
      or of all of them. */
  lemma RefreshAfterPrecharge(since: nat, inputs: seq<Input>, n: nat, k: nat) returns (j: nat)
    requires Accepted(since, inputs) && k < n < |inputs|
    requires inputs[n].cmd == REFRESH && inputs[k].cmd == ACTIVATE
    ensures k < j < n && inputs[j].cmd == PRECHARGE
    ensures inputs[j].addr / 0x400 % 2 == 1 || inputs[j].ba == inputs[k].ba
  {
    PrefixAccepted(since, inputs, n);
    var b := inputs[k].ba;
    var h := BankHistory(inputs[..n], b);
    assert InOrder(PhaseIn(inputs[..n], b), BankCommand(inputs[n], b)) by { Told(inputs[n], b); }
    Told(inputs[k], b);
    assert h[k] == BankCommand(inputs[k], b);
    j := ClosedSince(h, k);
    assert h[j] == BankCommand(inputs[j], b);
    Told(inputs[j], b);
  }

  lemma {:induction false} SinceGrows(since: nat, inputs: seq<Input>, k: nat)
    requires k <= |inputs| && forall j :: k <= j < |inputs| ==> inputs[j].cmd != REFRESH
    ensures SinceRefresh(since, inputs) == SinceRefresh(since, inputs[..k]) + (|inputs| - k)
    decreases |inputs|
  {
    if k == |inputs| {
      assert inputs[..k] == inputs;
    } else {
      var init := inputs[..|inputs| - 1];
      SinceGrows(since, init, k);
      assert init[..k] == inputs[..k];
    }
  }

  /** Among any 1560 clocks there is a refresh. */
  lemma RefreshesAreOften(since: nat, inputs: seq<Input>, k: nat)
    requires Accepted(since, inputs) && k + 1560 <= |inputs|
    ensures exists j :: k <= j < k + 1560 && inputs[j].cmd == REFRESH
  {
    if forall j :: k <= j < k + CK_REFI ==> inputs[j].cmd != REFRESH {
      var n := k + CK_REFI - 1;
      PrefixAccepted(since, inputs, n);
      SinceGrows(since, inputs[..n], k);
    }
  }

  /** No row is opened within 320 clocks of a refresh. */
  lemma RefreshIsLong(since: nat, inputs: seq<Input>, k: nat, n: nat)
    requires Accepted(since, inputs) && k < n < |inputs|
    requires inputs[k].cmd == REFRESH && inputs[n].cmd == ACTIVATE
    ensures n - k >= 320
    decreases n - k
  {
    if j :| k < j < n && inputs[j].cmd == REFRESH {
      RefreshIsLong(since, inputs, j, n);
    } else {
      PrefixAccepted(since, inputs, n);
      SinceGrows(since, inputs[..n], k + 1);
      assert inputs[..n][..k + 1] == inputs[..k + 1];
      assert inputs[..k + 1][|inputs[..k + 1]| - 1] == inputs[k];
    }
  }

  /** A row is opened eleven clocks or more after the PRECHARGE that closed the
      row before it, unless that followed at once on the ACTIVATE. */
  lemma ActivateWaits(since: nat, inputs: seq<Input>, k: nat, n: nat) returns (j: nat)
    requires Accepted(since, inputs) && k < n < |inputs|
    requires inputs[k].cmd == ACTIVATE && inputs[n].cmd == ACTIVATE && inputs[k].ba == inputs[n].ba
    requires forall m :: k < m < n ==> !(inputs[m].cmd == ACTIVATE && inputs[m].ba == inputs[n].ba)
    ensures k < j < n && inputs[j].cmd == PRECHARGE
    ensures inputs[j].addr / 0x400 % 2 == 1 || inputs[j].ba == inputs[n].ba
    ensures forall m :: k < m < j ==>
              !(inputs[m].cmd == PRECHARGE && (inputs[m].addr / 0x400 % 2 == 1 || inputs[m].ba == inputs[n].ba))
    ensures n - j >= 11 || j == k + 1
  {
    PrefixAccepted(since, inputs, n);
    var b := inputs[n].ba;
    var h := BankHistory(inputs[..n], b);
    assert InOrder(PhaseIn(inputs[..n], b), BankCommand(inputs[n], b)) by { Told(inputs[n], b); }
    forall m | 0 <= m < n
      ensures h[m] == BankCommand(inputs[m], b)
    {
      Told(inputs[m], b);
    }
    Told(inputs[k], b);
    forall m | k < m < n
      ensures h[m] != ACTIVATE
    {
      Told(inputs[m], b);
    }
    j := ClosedFrom(h, k);
    Told(inputs[j], b);
    forall m | k < m < j
      ensures !(inputs[m].cmd == PRECHARGE && (inputs[m].addr / 0x400 % 2 == 1 || inputs[m].ba == b))
    {
      Told(inputs[m], b);
    }
    if n - j < 11 && j > k + 1 {
      OpenAtOnce(since, inputs, k, b);
      assert false;
    }
  }

  /** In the clock behind the ACTIVATE of a bank, it is told NOOP or PRECHARGE. */
  lemma OpenAtOnce(since: nat, inputs: seq<Input>, k: nat, b: index)
    requires Accepted(since, inputs) && k + 1 < |inputs|
    requires inputs[k].cmd == ACTIVATE && inputs[k].ba == b
    ensures BankCommand(inputs[k + 1], b) in {NOOP, PRECHARGE}
  {
    PrefixAccepted(since, inputs, k + 1);
    Told(inputs[k], b);
    Told(inputs[k + 1], b);
    assert inputs[..k + 1] == inputs[..k] + [inputs[k]];
    HistoryMore(inputs[..k], inputs[k], b);
    assert InOrder(PhaseIn(inputs[..k + 1], b), BankCommand(inputs[k + 1], b));
  }

  // ---------- Which banks the commands reach ----------

  /** After an accepted input a row is open where one has been opened, in the bank
      addressed, and closed by a PRECHARGE of the bank, or of all with address bit
      10; elsewhere it is as before. */
  lemma OpenRows(since: nat, inputs: seq<Input>, input: Input, i: index)
    requires Accepted(since, inputs + [input])
    ensures Accepted(since, inputs) && RunDevice(since, inputs).value.Valid()
    ensures var was, now := RunDevice(since, inputs).value.banks, RunDevice(since, inputs + [input]).value.banks;
            && |now| == 8
            && now[i].state % 2 ==
               (if input.cmd == PRECHARGE && (input.addr / 0x400 % 2 == 1 || input.ba == i) then 0
                else if input.cmd == ACTIVATE && input.ba == i then 1
                else was[i].state % 2)
            && now[i].row == if input.cmd == ACTIVATE && input.ba == i then input.addr % 0x8000 else was[i].row
  {
    AcceptedIff(since, inputs, input);
    assert (inputs + [input])[..|inputs|] == inputs;
    RunFollows(since, inputs);
    var d := RunDevice(since, inputs).value;
    assert d.banks[i].Valid();
    Told(input, i);
    StepOpens(d.banks[i], BankCommand(input, i), input.addr);
    hide BankStep, BankCommand;
  }

  /** The lowest bit of a bank's register says that its row is open. */
  lemma StepOpens(b: Bank, cmd: nat, addr: nat)
    requires b.Valid() && BankStep(b, cmd, addr).Some?
    ensures var b' := BankStep(b, cmd, addr).value;
            && b'.state % 2 == (if cmd == PRECHARGE then 0 else if cmd == ACTIVATE then 1 else b.state % 2)
            && b'.row == if cmd == ACTIVATE then addr % 0x8000 else b.row
  {
    ShiftParity(b.state);
  }

  lemma ShiftParity(s: nat)
    ensures (2 * s + s % 2) % 2048 % 2 == s % 2 && (s - s % 2) % 2 == 0
  {
    Division.ModOfProduct(2 * s + s % 2, 2, 1024);
    Division.DivUnique(2 * s + s % 2, 2, s, s % 2);
    Division.DivUnique(s - s % 2, 2, s / 2, 0);
  }

  predicate Waits(noops: seq<Input>) { forall i :: 0 <= i < |noops| ==> noops[i].cke && noops[i].cmd == NOOP }

  lemma {:induction false} WaitPhase(inputs: seq<Input>, noops: seq<Input>, b: index)
    requires Waits(noops)
    ensures var p := PhaseIn(inputs, b);
            PhaseIn(inputs + noops, b) ==
            if p.Open? then Open(p.since + |noops|) else Closed(p.was, p.since + |noops|)
  {
    if noops == [] {
      assert inputs + noops == inputs;
    } else {
      var init, last := noops[..|noops| - 1], noops[|noops| - 1];
      WaitPhase(inputs, init, b);
      HistoryMore(inputs + init, last, b);
      assert inputs + noops == inputs + init + [last];
    }
  }

  /** A PRECHARGE of all banks and ten clocks of waiting make a refresh possible,
      in any run that is accepted so far. */
  lemma PrechargeAll(since: nat, inputs: seq<Input>, close: Input, noops: seq<Input>, refresh: Input)
    requires close.cmd == PRECHARGE && close.addr / 0x400 % 2 == 1
    requires Waits(noops) && |noops| >= 10 && refresh.cke && refresh.cmd == REFRESH
    requires Accepted(since, inputs + [close] + noops)
    ensures Accepted(since, inputs + [close] + noops + [refresh])
  {
    var all := inputs + [close] + noops;
    forall i: index
      ensures InOrder(PhaseIn(all, i), BankCommand(refresh, i))
    {
      Told(close, i);
      Told(refresh, i);
      HistoryMore(inputs, close, i);
      WaitPhase(inputs + [close], noops, i);
    }
    AcceptedIff(since, all, refresh);
    hide Accepted;
  }

  /** A row that has been open for ten clocks of waiting can be read and written,
      whenever a NOOP would be accepted instead. */
  lemma OpenReads(since: nat, inputs: seq<Input>, open: Input, noops: seq<Input>, read: Input, wait: Input)
    requires open.cmd == ACTIVATE && read.ba == open.ba && read.cke && read.addr % 8 == 0
    requires read.cmd == READ || read.cmd == WRITE
    requires Waits(noops) && |noops| >= 10 && wait.cmd == NOOP
    requires Accepted(since, inputs + [open] + noops + [wait])
    ensures Accepted(since, inputs + [open] + noops + [read])
  {
    var all := inputs + [open] + noops;
    AcceptedIff(since, all, wait);
    forall i: index
      ensures InOrder(PhaseIn(all, i), BankCommand(read, i))
    {
      Told(read, i);
      Told(open, i);
      HistoryMore(inputs, open, i);
      WaitPhase(inputs + [open], noops, i);
    }
    AcceptedIff(since, all, read);
    hide Accepted;
  }
}
