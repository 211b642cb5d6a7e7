/** The clocks of the simulation, sim/verilated/tbclock.h, and the scheduler that
    goes from edge to edge of the four of them, tick() of sim/verilated/testb.h. */
module Clocks {
  import Division

  // ---------- Time and edges ----------

  /** The time from now to the next multiple of the half period. */
  function ToEdge(increment: nat, now: nat): (d: nat)
    requires increment > 0
    ensures 1 <= d <= increment
  {
    increment - now % increment
  }

  /** Is the clock high? */
  predicate High(increment: nat, now: nat)
    requires increment > 0
  {
    now / increment % 2 == 0
  }

  /** The last rising edge. */
  function LastRise(increment: nat, now: nat): nat
    requires increment > 0
  {
    Division.ModAtMost(now, 2 * increment);
    now - now % (2 * increment)
  }

  /** Where now is within the period. */
  lemma Phase(increment: nat, now: nat)
    requires increment > 0
    ensures var last := LastRise(increment, now);
            && last <= now < last + 2 * increment
            && (High(increment, now) <==> now < last + increment)
            && ToEdge(increment, now) == last + (if now < last + increment then 1 else 2) * increment - now
  {
    Halves(now, increment, 2 * increment);
  }

  lemma Halves(now: nat, i: nat, p: nat)
    requires i > 0 && p == 2 * i
    ensures (now / i % 2 == 0 <==> now % p < i) && now % i == if now % p < i then now % p else now % p - i
  {
    Division.Split(now, p);
    var q, r: nat := now / p, now % p;
    Periods(q, i);
    if r < i {
      HalfQuotient(now, i, q, 0, r);
    } else {
      HalfQuotient(now, i, q, 1, r - i);
    }
  }

  lemma HalfQuotient(now: nat, i: nat, q: nat, b: nat, r: nat)
    requires i > 0 && r < i && b < 2 && now == (2 * q + b) * i + r
    ensures now / i % 2 == b && now % i == r
  {
    Division.DivUnique(now, i, 2 * q + b, r);
  }

  lemma Periods(q: nat, i: nat)
    ensures q * (2 * i) == (2 * q) * i && (2 * q + 1) * i == (2 * q) * i + i && (q + 1) * (2 * i) == q * (2 * i) + 2 * i
  {
  }

  /** A step of no more than half a period passes at most one rising edge. */
  lemma StepPhase(increment: nat, now: nat, d: nat)
    requires increment > 0 && d <= increment
    ensures var last, count := LastRise(increment, now), now / (2 * increment);
            if now + d >= last + 2 * increment
            then LastRise(increment, now + d) == last + 2 * increment && (now + d) / (2 * increment) == count + 1
            else LastRise(increment, now + d) == last && (now + d) / (2 * increment) == count
  {
    PassOne(now, 2 * increment, d);
  }

  lemma PassOne(now: nat, p: nat, d: nat)
    requires p > 0 && d <= p
    ensures if now % p + d >= p then (now + d) / p == now / p + 1 && (now + d) % p == now % p + d - p
            else (now + d) / p == now / p && (now + d) % p == now % p + d
  {
    var q, r := now / p, now % p;
    assert now == q * p + r;
    if r + d >= p {
      assert (q + 1) * p == q * p + p;
      Division.DivUnique(now + d, p, q + 1, r + d - p);
    } else {
      Division.DivUnique(now + d, p, q, r + d);
    }
  }

  class TbClock {
    var increment: nat
    var now: nat
    var lastPosedge: nat
    var ticks: nat

    ghost predicate Valid()
      reads this
    {
      increment > 0 && lastPosedge == LastRise(increment, now) && ticks == now / (2 * increment)
    }

    /** A clock starts half a period and a picosecond after a rising edge: this
        is within the period unless that has only two picoseconds. */
    constructor (interval: nat)
      requires interval >= 2
      ensures increment == interval / 2 && now == increment + 1 && lastPosedge == 0 && ticks == 0
      ensures Valid() <==> interval >= 4
    {
      increment := interval / 2;
      now := interval / 2 + 1;
      lastPosedge := 0;
      ticks := 0;
      new;
      if interval >= 4 {
        Division.DivUnique(now, 2 * increment, 0, now);
      } else {
        assert increment == 1 && now / (2 * increment) == 1;
      }
    }

    /** The time to the next edge; neither of the impossible cases arises. */
    method TimeToEdge() returns (d: nat)
      requires Valid()
      ensures d == ToEdge(increment, now)
    {
      Phase(increment, now);
      hide LastRise, ToEdge, High;
      if lastPosedge > now {
        assert false;
      } else if lastPosedge + increment > now {
        d := lastPosedge + increment - now;
      } else if lastPosedge + 2 * increment > now {
        d := lastPosedge + 2 * increment - now;
      } else {
        assert false;
      }
    }

    method Advance(itime: nat) returns (level: int)
      requires Valid() && itime <= increment
      modifies this
      ensures Valid() && increment == old(increment) && now == old(now) + itime
      ensures level == if High(increment, now) then 1 else 0
    {
      StepPhase(increment, now, itime);
      Phase(increment, now);
      Phase(increment, now + itime);
      hide LastRise, High, ToEdge;
      now := now + itime;
      if now >= lastPosedge + 2 * increment {
        lastPosedge := lastPosedge + 2 * increment;
        ticks := ticks + 1;
        level := 1;
      } else if now >= lastPosedge + increment {
        level := 0;
      } else {
        level := 1;
      }
    }

    method RisingEdge() returns (r: bool)
      requires Valid()
      ensures r <==> now % (2 * increment) == 0
    {
      r := now == lastPosedge;
    }

    method FallingEdge() returns (r: bool)
      requires Valid()
      ensures r <==> now % (2 * increment) == increment
    {
      r := now == lastPosedge + increment;
    }
  }

  // ---------- The schedule of the four clocks ----------

  const CLK: nat := 6154
  const ETH: nat := 20000
  const CRYSTAL: nat := 5000

  /** The clocks are half a period and a picosecond ahead of the time. */
  function Now(increment: nat, time: nat): nat { increment + 1 + time }

  /** Is there an edge of this clock at this time? */
  predicate EdgeOf(increment: nat, time: nat)
    requires increment > 0
  {
    Now(increment, time) % increment == 0
  }

  predicate IsEdge(time: nat) { EdgeOf(CLK, time) || EdgeOf(ETH, time) || EdgeOf(CRYSTAL, time) }

  /** The edges of the clocks of 12308, 40000 and 10000 picoseconds. */
  lemma EdgeTimes(time: nat)
    ensures IsEdge(time) <==> (time + 1) % 6154 == 0 || (time + 1) % 20000 == 0 || (time + 1) % 5000 == 0
  {
    OnePeriodOn(time + 1, CLK);
    OnePeriodOn(time + 1, ETH);
    OnePeriodOn(time + 1, CRYSTAL);
  }

  lemma OnePeriodOn(x: nat, i: nat)
    requires i > 0
    ensures (i + x) % i == x % i
  {
    PassHalf(x, i);
  }

  function Least(x: nat, y: nat): nat { if y < x then y else x }

  /** The time step of a tick. */
  function Step(time: nat): nat {
    Least(Least(ToEdge(CLK, Now(CLK, time)), ToEdge(ETH, Now(ETH, time))), ToEdge(CRYSTAL, Now(CRYSTAL, time)))
  }

  lemma NoEdgeBefore(increment: nat, time: nat, d: nat)
    requires increment > 0 && 0 < d <= ToEdge(increment, Now(increment, time))
    ensures EdgeOf(increment, time + d) <==> d == ToEdge(increment, Now(increment, time))
  {
    var n := Now(increment, time);
    var q, r := n / increment, n % increment;
    assert n == q * increment + r;
    if r + d < increment {
      Division.DivUnique(n + d, increment, q, r + d);
    } else {
      assert (q + 1) * increment == q * increment + increment;
      Division.DivUnique(n + d, increment, q + 1, 0);
    }
    assert Now(increment, time + d) == n + d;
  }

  /** A tick goes to an edge, and to the very next one. */
  lemma StepToNext(time: nat)
    ensures Step(time) > 0 && IsEdge(time + Step(time))
    ensures forall t :: time < t < time + Step(time) ==> !IsEdge(t)
  {
    NoEdgeBefore(CLK, time, Step(time));
    NoEdgeBefore(ETH, time, Step(time));
    NoEdgeBefore(CRYSTAL, time, Step(time));
    forall t | time < t < time + Step(time)
      ensures !IsEdge(t)
    {
      NoEdgeBefore(CLK, time, t - time);
      NoEdgeBefore(ETH, time, t - time);
      NoEdgeBefore(CRYSTAL, time, t - time);
    }
  }

  lemma EdgesAreOdd(time: nat)
    requires IsEdge(time)
    ensures time % 2 == 1
  {
    if EdgeOf(CLK, time) {
      OddBefore(CLK / 2, time);
    } else if EdgeOf(ETH, time) {
      OddBefore(ETH / 2, time);
    } else {
      OddBefore(CRYSTAL / 2, time);
    }
  }

  lemma OddBefore(half: nat, time: nat)
    requires half > 0 && EdgeOf(2 * half, time)
    ensures time % 2 == 1
  {
    var n := Now(2 * half, time);
    var q := n / (2 * half);
    assert n == q * (2 * half) == 2 * (q * half);
  }

  /** From the start, or from any edge, the next edge is at least two picoseconds
      away; the first is at 4999. */
  lemma StepsAreWide(time: nat)
    requires time == 0 || IsEdge(time)
    ensures Step(time) > 1
  {
    StepToNext(time);
    EdgesAreOdd(time + Step(time));
    if time > 0 {
      EdgesAreOdd(time);
    } else {
      assert Step(0) == 4999;
    }
  }

  /** The time after n ticks. */
  function Run(n: nat): nat {
    if n == 0 then 0 else Run(n - 1) + Step(Run(n - 1))
  }

  lemma {:induction false} RunRises(m: nat, n: nat)
    requires m <= n
    ensures Run(n) >= Run(m) + (n - m)
    decreases n
  {
    hide Step;
    if m < n {
      RunRises(m, n - 1);
      StepToNext(Run(n - 1));
    }
  }

  /** Every edge of every clock is the time of exactly one tick. */
  lemma EveryEdgeOnce(time: nat) returns (n: nat)
    requires time > 0 && IsEdge(time)
    ensures Run(n) == time
    ensures forall m: nat :: Run(m) == time ==> m == n
  {
    hide Step, IsEdge;
    n := 0;
    while Run(n) < time
      invariant n == 0 || Run(n - 1) < time
      decreases time - Run(n)
    {
      StepToNext(Run(n));
      n := n + 1;
    }
    StepToNext(Run(n - 1));
    forall m: nat | Run(m) == time
      ensures m == n
    {
      if m < n {
        RunRises(m, n);
      } else {
        RunRises(n, m);
      }
    }
  }

  /** The falling edges of a clock up to some time, the start not counted. */
  function Falls(increment: nat, time: nat): nat
    requires increment > 0
  {
    Count(time + 1, 2 * increment)
  }

  function Count(x: nat, p: nat): nat
    requires p > 0
  {
    x / p
  }

  /** A tick passes a falling edge just when it ends at one. */
  lemma FallStep(increment: nat, time: nat, d: nat)
    requires increment > 0 && 0 < d <= ToEdge(increment, Now(increment, time))
    ensures Falls(increment, time + d) ==
            Falls(increment, time) + if Now(increment, time + d) % (2 * increment) == increment then 1 else 0
  {
    var x, p := time + 1, 2 * increment;
    Halves(x, increment, p);
    PassOne(x, p, d);
    PassOne(x + d, p, increment);
    PassHalf(x, increment);
  }

  lemma PassHalf(x: nat, i: nat)
    requires i > 0
    ensures (x + i) % i == x % i
  {
    var q, r := x / i, x % i;
    assert x == q * i + r && (q + 1) * i == q * i + i;
    Division.DivUnique(x + i, i, q + 1, r);
  }

  // ---------- The scheduler ----------

  /** A clock in step with the time, and called back at every falling edge so far. */
  ghost predicate InStep(c: TbClock, increment: nat, calls: nat, time: nat)
    requires increment > 0
    reads c
  {
    c.Valid() && c.increment == increment && c.now == Now(increment, time) && calls == Falls(increment, time)
  }

  /** One clock of the four goes on to the next edge of any. */
  method AdvanceClock(c: TbClock, ghost increment: nat, mintime: nat, ghost time: nat, calls0: nat)
    returns (level: int, calls: nat)
    requires increment > 0 && InStep(c, increment, calls0, time)
    requires 0 < mintime <= ToEdge(increment, Now(increment, time))
    modifies c
    ensures InStep(c, increment, calls, time + mintime)
    ensures level == if High(increment, Now(increment, time + mintime)) then 1 else 0
  {
    FallStep(increment, time, mintime);
    hide Falls, High, LastRise;
    calls := calls0;
    level := c.Advance(mintime);
    var falling := c.FallingEdge();
    if falling {
      calls := calls + 1;
    }
  }

  method EdgeIn(c: TbClock, ghost increment: nat, ghost calls: nat, ghost time: nat) returns (d: nat)
    requires increment > 0 && InStep(c, increment, calls, time)
    ensures d == ToEdge(increment, Now(increment, time))
  {
    d := c.TimeToEdge();
  }

  method NewClock(interval: nat) returns (c: TbClock)
    requires interval >= 4
    ensures fresh(c) && c.increment == interval / 2 && InStep(c, interval / 2, 0, 0)
  {
    c := new TbClock(interval);
    Division.DivUnique(1, 2 * (interval / 2), 0, 1);
  }

  lemma Levels(time: nat)
    ensures High(CLK, Now(CLK, time)) <==> (time + 6155) / 6154 % 2 == 0
    ensures High(ETH, Now(ETH, time)) <==> (time + 20001) / 20000 % 2 == 0
    ensures High(CRYSTAL, Now(CRYSTAL, time)) <==> (time + 5001) / 5000 % 2 == 0
  {
    assert Now(CLK, time) == time + 6155 && Now(ETH, time) == time + 20001 && Now(CRYSTAL, time) == time + 5001;
  }

  class TestBench {
    const clk: TbClock
    const ethRxClk: TbClock
    const ethTxClk: TbClock
    const crystalClk: TbClock
    var time: nat
    /** What the core sees of the clocks. */
    var iClk: int
    var iEthRxClk: int
    var iEthTxClk: int
    var noClk: int
    /** How often each of the four callbacks has been made. */
    var clkCalls: nat
    var ethRxCalls: nat
    var ethTxCalls: nat
    var crystalCalls: nat

    ghost predicate Valid()
      reads this, clk, ethRxClk, ethTxClk, crystalClk
    {
      && clk != ethRxClk && clk != ethTxClk && clk != crystalClk
      && ethRxClk != ethTxClk && ethRxClk != crystalClk && ethTxClk != crystalClk
      && InStep(clk, CLK, clkCalls, time) && InStep(ethRxClk, ETH, ethRxCalls, time)
      && InStep(ethTxClk, ETH, ethTxCalls, time) && InStep(crystalClk, CRYSTAL, crystalCalls, time)
      && (time == 0 || IsEdge(time))
    }

    constructor ()
      ensures Valid() && time == 0
      ensures clk.increment == 6154 && ethRxClk.increment == ethTxClk.increment == 20000
      ensures crystalClk.increment == 5000
      ensures fresh(clk) && fresh(ethRxClk) && fresh(ethTxClk) && fresh(crystalClk)
    {
      hide InStep;
      var a := NewClock(12308);
      var b := NewClock(40000);
      var c := NewClock(40000);
      var d := NewClock(10000);
      clk, ethRxClk, ethTxClk, crystalClk := a, b, c, d;
      time := 0;
      clkCalls, ethRxCalls, ethTxCalls, crystalCalls := 0, 0, 0, 0;
      iClk, iEthRxClk, iEthTxClk, noClk := 0, 0, 0, 0;
    }

    /** The time to the nearest edge.  The assertion that it is more than a
        picosecond away never fails. */
    method MinTime() returns (mintime: nat)
      requires Valid()
      ensures mintime == Step(time)
      ensures 0 < mintime <= ToEdge(CLK, Now(CLK, time)) && mintime <= ToEdge(ETH, Now(ETH, time))
      ensures mintime <= ToEdge(CRYSTAL, Now(CRYSTAL, time))
    {
      StepToNext(time);
      StepsAreWide(time);
      hide InStep, ToEdge, IsEdge;
      mintime := EdgeIn(clk, CLK, clkCalls, time);
      var t := EdgeIn(ethRxClk, ETH, ethRxCalls, time);
      mintime := Least(mintime, t);
      t := EdgeIn(ethTxClk, ETH, ethTxCalls, time);
      mintime := Least(mintime, t);
      t := EdgeIn(crystalClk, CRYSTAL, crystalCalls, time);
      mintime := Least(mintime, t);
      assert mintime > 1;
    }

    /** All four clocks, and the time, go on by a step that passes no edge. */
    method AdvanceAll(mintime: nat)
      requires Valid() && 0 < mintime <= ToEdge(CLK, Now(CLK, time)) && mintime <= ToEdge(ETH, Now(ETH, time))
      requires mintime <= ToEdge(CRYSTAL, Now(CRYSTAL, time)) && IsEdge(time + mintime)
      modifies this, clk, ethRxClk, ethTxClk, crystalClk
      ensures Valid() && time == old(time) + mintime
      ensures iClk == if High(CLK, Now(CLK, time)) then 1 else 0
      ensures iEthRxClk == if High(ETH, Now(ETH, time)) then 1 else 0
      ensures iEthTxClk == if High(ETH, Now(ETH, time)) then 1 else 0
      ensures noClk == if High(CRYSTAL, Now(CRYSTAL, time)) then 1 else 0
    {
      hide IsEdge, High, InStep, ToEdge, Now;
      ghost var was := time;
      var a, ca := AdvanceClock(clk, CLK, mintime, was, clkCalls);
      var b, cb := AdvanceClock(ethRxClk, ETH, mintime, was, ethRxCalls);
      var c, cc := AdvanceClock(ethTxClk, ETH, mintime, was, ethTxCalls);
      var d, cd := AdvanceClock(crystalClk, CRYSTAL, mintime, was, crystalCalls);
      iClk, iEthRxClk, iEthTxClk, noClk := a, b, c, d;
      clkCalls, ethRxCalls, ethTxCalls, crystalCalls := ca, cb, cc, cd;
      time := time + mintime;
    }

    /** tick(): on to the next edge of any clock. */
    method Tick()
      requires Valid()
      modifies this, clk, ethRxClk, ethTxClk, crystalClk
      ensures Valid() && time == old(time) + Step(old(time))
      ensures old(time) < time && IsEdge(time) && forall t :: old(time) < t < time ==> !IsEdge(t)
      ensures iClk == if (time + 6155) / 6154 % 2 == 0 then 1 else 0
      ensures iEthRxClk == iEthTxClk == if (time + 20001) / 20000 % 2 == 0 then 1 else 0
      ensures noClk == if (time + 5001) / 5000 % 2 == 0 then 1 else 0
    {
      StepToNext(time);
      Levels(time + Step(time));
      hide IsEdge, High, InStep, Step, ToEdge, Now;
      var mintime := MinTime();
      AdvanceAll(mintime);
    }
  }
}
