/** The simulated memory of sim/verilated/memsim.cpp: a Wishbone slave that
    answers after a fixed delay, by way of a ring of acknowledgments. */
module MemSim {
  import opened Powers
  import Division

  /** The wires of the bus in a cycle with CYC. */
  datatype Cycle = Cycle(stb: bool, we: bool, addr: nat, data: bv32, sel: bv4)

  // ---------- Byte selects ----------

  predicate Selected(sel: bv4, byte: bv4) { sel & byte != 0 }

  function Or(x: bv32, y: bv32): bv32 { x | y }

  /** The bits of a word that four byte selects stand for. */
  function SelectMask(sel: bv4): bv32 {
    var m3 := if Selected(sel, 8) then Or(0, 0xff00_0000) else 0;
    var m2 := if Selected(sel, 4) then Or(m3, 0x00ff_0000) else m3;
    var m1 := if Selected(sel, 2) then Or(m2, 0x0000_ff00) else m2;
    if Selected(sel, 1) then Or(m1, 0x0000_00ff) else m1
  }

  function Blend(was: bv32, data: bv32, mask: bv32): bv32 { (was & !mask) | (data & mask) }

  /** A word after a store. */
  function Merged(was: bv32, data: bv32, sel: bv4): bv32 { Blend(was, data, SelectMask(sel)) }

  /** A byte of the result comes from the store if it is selected, and from the
      memory if not. */
  lemma MergedBytes(was: bv32, data: bv32, sel: bv4)
    ensures Merged(was, data, sel) & 0xff00_0000 == (if sel & 8 != 0 then data else was) & 0xff00_0000
    ensures Merged(was, data, sel) & 0x00ff_0000 == (if sel & 4 != 0 then data else was) & 0x00ff_0000
    ensures Merged(was, data, sel) & 0x0000_ff00 == (if sel & 2 != 0 then data else was) & 0x0000_ff00
    ensures Merged(was, data, sel) & 0x0000_00ff == (if sel & 1 != 0 then data else was) & 0x0000_00ff
  {
  }

  /** All four bytes selected replace the word; none leave it. */
  lemma MergedAll(was: bv32, data: bv32)
    ensures Merged(was, data, 0xf) == data && Merged(was, data, 0) == was
  {
  }

  /** The bytes selected, one by one. */
  method MergeBytes(was: bv32, data: bv32, dsel: bv4) returns (memv: bv32)
    ensures memv == Merged(was, data, dsel)
  {
    hide Selected, Or, Blend;
    var sel: bv32 := 0;
    if Selected(dsel, 8) {
      sel := Or(sel, 0xff00_0000);
    }
    if Selected(dsel, 4) {
      sel := Or(sel, 0x00ff_0000);
    }
    if Selected(dsel, 2) {
      sel := Or(sel, 0x0000_ff00);
    }
    if Selected(dsel, 1) {
      sel := Or(sel, 0x0000_00ff);
    }
    memv := Blend(was, data, sel);
  }

  // ---------- What the memory should hold ----------

  /** The memory after some requests. */
  function After(mem: seq<bv32>, requests: seq<Cycle>): (m: seq<bv32>)
    requires |mem| > 0
    ensures |m| == |mem|
  {
    if requests == [] then mem
    else
      var m, r := After(mem, requests[..|requests| - 1]), requests[|requests| - 1];
      if r.stb && r.we then m[r.addr % |mem| := Merged(m[r.addr % |mem|], r.data, r.sel)] else m
  }

  lemma AfterMore(mem: seq<bv32>, requests: seq<Cycle>, r: Cycle)
    requires |mem| > 0
    ensures var m := After(mem, requests);
            After(mem, requests + [r]) ==
            if r.stb && r.we then m[r.addr % |mem| := Merged(m[r.addr % |mem|], r.data, r.sel)] else m
  {
    hide Merged;
    assert (requests + [r])[..|requests|] == requests;
  }

  /** A word is what the last store of all its bytes left, as long as nothing has
      been stored there since. */
  lemma {:induction false} LastStore(mem: seq<bv32>, before: seq<Cycle>, s: Cycle, later: seq<Cycle>)
    requires |mem| > 0 && s.stb && s.we && s.sel == 0xf
    requires forall i :: 0 <= i < |later| && later[i].stb && later[i].we ==> later[i].addr % |mem| != s.addr % |mem|
    ensures After(mem, before + [s] + later)[s.addr % |mem|] == s.data
    decreases |later|
  {
    hide Merged;
    if later == [] {
      AfterMore(mem, before, s);
      MergedAll(After(mem, before)[s.addr % |mem|], s.data);
      assert before + [s] + later == before + [s];
    } else {
      var init, r := later[..|later| - 1], later[|later| - 1];
      LastStore(mem, before, s, init);
      AfterMore(mem, before + [s] + init, r);
      assert before + [s] + later == before + [s] + init + [r];
    }
  }

  // ---------- The delay line ----------

  /** A ring of the size of a power of two tells the last so many cycles apart. */
  lemma RingSlots(size: nat, i: int, j: int)
    requires size > 0 && i % size == j % size && -(size as int) < i - j < size
    ensures i == j
  {
    SlotDistance(size, i, j);
  }

  lemma SlotDistance(size: nat, i: int, j: int)
    requires size > 0 && i % size == j % size
    ensures (i - j) == (i / size - j / size) * size
    ensures i - j < size && i - j > -(size as int) ==> i == j
  {
    var k := i / size - j / size;
    assert i == i / size * size + i % size;
    assert j == j / size * size + j % size;
    assert k >= 1 ==> k * size >= size;
    assert k <= -1 ==> k * size <= -(size as int);
  }

  lemma ModPlus(n: nat, k: int, size: nat)
    requires size > 0
    ensures (n % size + k) % size == (n + k) % size
  {
    var x := n % size + k;
    ModMultiple(x, n / size, size);
    assert n + k == x + n / size * size;
  }

  lemma ModMultiple(x: int, q: int, size: nat)
    requires size > 0
    ensures (x + q * size) % size == x % size
  {
    Division.DivUnique(x + q * size, size, x / size + q, x % size);
  }

  /** The least power of two that is not less. */
  ghost predicate LeastPower(p: nat, n: nat) {
    exists k: nat :: p == Pow2(k) && p >= n && (k > 0 ==> Pow2(k - 1) < n)
  }

  method RoundUp(n: nat) returns (p: nat)
    ensures LeastPower(p, n) && p > 0
  {
    p := 1;
    ghost var k := 0;
    while p < n
      invariant p == Pow2(k) && (k > 0 ==> Pow2(k - 1) < n)
      decreases 2 * n - p
    {
      k := k + 1;
      p := 2 * p;
    }
  }

  /** What the ring should hold for the i-th cycle since CYC rose. */
  ghost predicate Holds(ack: seq<int>, data: seq<bv32>, start: seq<bv32>, history: seq<Cycle>, i: int)
    requires |ack| == |data| > 0 && |start| > 0
  {
    var slot := i % |ack|;
    if 0 < i <= |history| then
      && ack[slot] == (if history[i - 1].stb then 1 else 0)
      && (history[i - 1].stb && !history[i - 1].we ==>
            data[slot] == After(start, history[..i - 1])[history[i - 1].addr % |start|])
    else ack[slot] == 0
  }

  /** It does so for as many cycles as it has places. */
  ghost predicate Ring(ack: seq<int>, data: seq<bv32>, start: seq<bv32>, history: seq<Cycle>) {
    && |ack| == |data| > 0 && |start| > 0
    && forall i :: |history| - |ack| < i <= |history| ==> Holds(ack, data, start, history, i)
  }

  lemma RingAt(ack: seq<int>, data: seq<bv32>, start: seq<bv32>, history: seq<Cycle>, i: int)
    requires Ring(ack, data, start, history) && |history| - |ack| < i <= |history|
    ensures Holds(ack, data, start, history, i)
  {
  }

  lemma RingEmpty(ack: seq<int>, data: seq<bv32>, start: seq<bv32>)
    requires |ack| == |data| > 0 && |start| > 0 && forall j :: 0 <= j < |ack| ==> ack[j] == 0
    ensures Ring(ack, data, start, []) && After(start, []) == start
  {
  }

  lemma FirstSlot(n: nat, size: nat)
    requires n == 0 && size > 0
    ensures n % size == 0
  {
    Division.DivUnique(0, size, 0, 0);
  }

  /** The next request takes the place of the oldest. */
  lemma RingNext(ack: seq<int>, data: seq<bv32>, start: seq<bv32>, history: seq<Cycle>, r: Cycle, slot: nat,
                 data': seq<bv32>)
    requires Ring(ack, data, start, history) && slot == (|history| + 1) % |ack|
    requires data' == if r.stb && !r.we then data[slot := After(start, history)[r.addr % |start|]] else data
    ensures Ring(ack[slot := if r.stb then 1 else 0], data', start, history + [r])
  {
    hide After;
    var n, ack', history' := |history|, ack[slot := if r.stb then 1 else 0], history + [r];
    forall i | n + 1 - |ack| < i <= n + 1
      ensures Holds(ack', data', start, history', i)
    {
      if i <= n {
        RingAt(ack, data, start, history, i);
        if i % |ack| == slot {
          RingSlots(|ack|, i, n + 1);
        }
        if i > 0 {
          assert history'[..i - 1] == history[..i - 1];
        }
      } else {
        assert history'[..n] == history;
      }
    }
  }

  /** The place that is read out in the next cycle is that of the request to be
      answered; a delay of nothing is a delay of one in a ring of one place. */
  lemma TailSlot(n: nat, delay: nat, size: nat)
    requires size > 0 && delay <= size && (delay == 0 ==> size == 1)
    ensures (n % size + 1 - delay) % size == (n + 1 - RealDelay(delay)) % size
    ensures (n % size + 1) % size == (n + 1) % size
  {
    ModPlus(n, 1 - delay, size);
    ModPlus(n, 1, size);
  }

  function RealDelay(delay: nat): (d: nat)
    ensures d > 0
  {
    if delay == 0 then 1 else delay
  }

  /** What is read out is the answer to the cycle so many before, if CYC was up by
      then: whether there was a request, and the word that a load found. */
  lemma RingAnswers(ack: seq<int>, data: seq<bv32>, start: seq<bv32>, history: seq<Cycle>, r: Cycle, d: nat)
    requires Ring(ack, data, start, history) && 0 < d <= |ack|
    ensures var slot, h := (|history| + 1 - d) % |ack|, history + [r];
            var i := |h| - 1 - d;
            && ack[slot] == (if i >= 0 && h[i].stb then 1 else 0)
            && (i >= 0 && h[i].stb && !h[i].we ==> data[slot] == After(start, h[..i])[h[i].addr % |start|])
  {
    hide After;
    var i, h := |history| + 1 - d, history + [r];
    RingAt(ack, data, start, history, i);
    if i > 0 {
      assert h[..i - 1] == history[..i - 1];
    }
  }

  class MemSim {
    const mem: array<bv32>
    const fifoAck: array<int>
    const fifoData: array<bv32>
    const delay: nat
    var head: nat
    var tail: nat
    /** The memory when CYC rose, and the requests since. */
    ghost var start: seq<bv32>
    ghost var history: seq<Cycle>

    /** Three different arrays. */
    ghost predicate Apart() {
      var a: object, b: object, c: object := mem, fifoAck, fifoData;
      a != b && a != c && b != c
    }

    ghost predicate Shape()
      reads this
    {
      && fifoAck.Length == fifoData.Length > 0 && delay <= fifoAck.Length && mem.Length > 0
      && (delay == 0 ==> fifoAck.Length == 1)
      && Apart() && |start| == mem.Length
    }

    ghost predicate Valid()
      reads this, mem, fifoAck, fifoData
    {
      && Shape()
      && head == |history| % fifoAck.Length
      && mem[..] == After(start, history)
      && Ring(fifoAck[..], fifoData[..], start, history)
    }

    constructor (nwords: nat, wait: nat)
      ensures Valid() && history == [] && delay == wait
      ensures LeastPower(mem.Length, nwords) && LeastPower(fifoAck.Length, wait)
      ensures fresh(mem) && fresh(fifoAck) && fresh(fifoData)
    {
      var nxt := RoundUp(nwords);
      var size := RoundUp(wait);
      var m, a, d := new bv32[nxt], new int[size](_ => 0), new bv32[size];
      mem, fifoAck, fifoData, delay := m, a, d, wait;
      head, tail := 0, (0 - wait) % size;
      start, history := m[..], [];
      new;
      hide Ring, After, LeastPower;
      RingEmpty(fifoAck[..], fifoData[..], start);
      FirstSlot(|history|, fifoAck.Length);
    }

    /** A store: the whole word, or the bytes selected. */
    method StoreWord(addr: nat, data: bv32, dsel: bv4)
      requires mem.Length > 0
      modifies mem
      ensures mem[..] == old(mem[..])[addr % mem.Length := Merged(old(mem[addr % mem.Length]), data, dsel)]
    {
      var memv := mem[addr % mem.Length];
      MergedAll(memv, data);
      hide Merged, SelectMask;
      if dsel == 0xf {
        mem[addr % mem.Length] := data;
      } else {
        mem[addr % mem.Length] := MergeBytes(memv, data, dsel);
      }
    }

    /** CYC is down: the ring is emptied. */
    method Clear()
      requires Valid()
      modifies this`head, this`tail, this`start, this`history, fifoAck
      ensures Valid() && history == [] && start == mem[..]
    {
      hide Ring, After;
      head := 0;
      tail := (0 - delay) % fifoAck.Length;
      var k := 0;
      while k < fifoAck.Length
        invariant head == 0 && 0 <= k <= fifoAck.Length && forall j :: 0 <= j < k ==> fifoAck[j] == 0
      {
        fifoAck[k] := 0;
        k := k + 1;
      }
      start, history := mem[..], [];
      RingEmpty(fifoAck[..], fifoData[..], start);
      FirstSlot(|history|, fifoAck.Length);
    }

    /** The request of this cycle takes its place in the ring, and takes effect. */
    method Enter(stb: bool, we: bool, addr: nat, data: bv32, sel: bv4)
      requires Shape() && head == (|history| + 1) % fifoAck.Length && mem[..] == After(start, history)
      requires Ring(fifoAck[..], fifoData[..], start, history)
      modifies this`history, mem, fifoAck, fifoData
      ensures Valid() && history == old(history) + [Cycle(stb, we, addr, data, sel)]
      ensures mem[..] ==
              if stb && we
              then old(mem[..])[addr % mem.Length := Merged(old(mem[addr % mem.Length]), data, sel)]
              else old(mem[..])
    {
      ghost var r := Cycle(stb, we, addr, data, sel);
      AfterMore(start, history, r);
      hide Ring, After, Merged;
      ghost var ack, words := fifoAck[..], fifoData[..];
      fifoAck[head] := if stb then 1 else 0;
      if stb && we {
        StoreWord(addr, data, sel);
      } else if stb {
        fifoData[head] := mem[addr % mem.Length];
      }
      RingNext(ack, words, start, history, r, head, fifoData[..]);
      assert fifoAck[..] == ack[head := if r.stb then 1 else 0];
      history := history + [r];
    }

    /** One cycle of the bus.  A store changes the bytes selected of its word, and
        nothing else does.  With CYC held, the answer is that to the cycle of so
        many before: whether it had a request, and if it was a load, what the
        memory held then. */
    method Apply(cyc: bool, stb: bool, we: bool, addr: nat, data: bv32, sel: bv4)
      returns (stall: int, ack: int, odata: bv32)
      requires Valid()
      modifies this, mem, fifoAck, fifoData
      ensures Valid() && stall == 0
      ensures !cyc ==> ack == 0 && history == [] && start == mem[..] == old(mem[..])
      ensures !(cyc && stb && we) ==> mem[..] == old(mem[..])
      ensures cyc && stb && we ==>
        var a := addr % mem.Length;
        var was, now := old(mem[a]), mem[a];
        && mem[..] == old(mem[..])[a := now]
        && now & 0xff00_0000 == (if sel & 8 != 0 then data else was) & 0xff00_0000
        && now & 0x00ff_0000 == (if sel & 4 != 0 then data else was) & 0x00ff_0000
        && now & 0x0000_ff00 == (if sel & 2 != 0 then data else was) & 0x0000_ff00
        && now & 0x0000_00ff == (if sel & 1 != 0 then data else was) & 0x0000_00ff
      ensures cyc ==> start == old(start) && history == old(history) + [Cycle(stb, we, addr, data, sel)]
      ensures cyc ==> mem[..] == After(start, history)
      ensures cyc ==>
        var i := |history| - 1 - RealDelay(delay);
        && ack == (if i >= 0 && history[i].stb then 1 else 0)
        && (i >= 0 && history[i].stb && !history[i].we ==>
              odata == After(start, history[..i])[history[i].addr % |start|])
    {
      stall, ack, odata := 0, 0, 0;
      if !cyc {
        Clear();
        return;
      }
      ghost var a := addr % mem.Length;
      MergedBytes(mem[a], data, sel);
      hide Ring, After, Merged;
      ack, odata := Turn(stb, we, addr, data, sel);
    }

    /** A cycle with CYC. */
    method Turn(stb: bool, we: bool, addr: nat, data: bv32, sel: bv4) returns (ack: int, odata: bv32)
      requires Valid()
      modifies this, mem, fifoAck, fifoData
      ensures Valid() && start == old(start) && history == old(history) + [Cycle(stb, we, addr, data, sel)]
      ensures mem[..] == After(start, history)
      ensures mem[..] ==
              if stb && we
              then old(mem[..])[addr % mem.Length := Merged(old(mem[addr % mem.Length]), data, sel)]
              else old(mem[..])
      ensures var i := |history| - 1 - RealDelay(delay);
              && ack == (if i >= 0 && history[i].stb then 1 else 0)
              && (i >= 0 && history[i].stb && !history[i].we ==>
                    odata == After(start, history[..i])[history[i].addr % |start|])
    {
      ghost var r := Cycle(stb, we, addr, data, sel);
      TailSlot(|history|, delay, fifoAck.Length);
      RingAnswers(fifoAck[..], fifoData[..], start, history, r, RealDelay(delay));
      hide Ring, After, Merged;
      head := head + 1;
      tail := (head - delay) % fifoAck.Length;
      head := head % fifoAck.Length;
      ack := fifoAck[tail];
      odata := fifoData[tail];
      Enter(stb, we, addr, data, sel);
    }
  }
}
