/** Which sequences of reads and writes over the debugging bus return the right
    words, whatever the far end chooses: the host empties its read table when it
    sends an address, the far end empties its own when it announces one, and for
    the address of a write it never does. */
module TtySafe {
  import opened Options
  import opened TtyCodec
  import opened TtyRead
  import opened TtyRuns

  /** No read without an address of its own comes after a write with one, unless
      there was a read in between, or none before the write.  at is the address the host has
      sent last, table says that the far end may have words in its table, and
      stale that the host has lost them. */
  predicate Safe(ops: seq<Op>, at: Option<nat>, table: bool, stale: bool)
    decreases |ops|
  {
    if ops == [] then true
    else
      var op := ops[0];
      var sends := at != Some(op.a);
      if op.WriteV? then Safe(ops[1..], Some(op.EndsAt()), table, stale || (sends && table))
      else (sends || !stale) && Safe(ops[1..], Some(op.EndsAt()), true, false)
  }

  /** What the host knows of the address. */
  function HostAt(s: Reader): Option<nat> { if s.addrSet then Some(s.lastAddr) else None }

  /** What the two flags stand for. */
  ghost predicate Flagged(s: Reader, src: Source, table: bool, stale: bool) {
    && Placed(s, src) && (src.announced || src.hist == [])
    && (!table ==> src.hist == []) && (!stale ==> Linked(s, src))
  }

  /** Safe calls return the words expected. */
  lemma {:induction false} SafeIsRight(s: Reader, src: Source, ops: seq<Op>, table: bool, stale: bool,
                                       rss: seq<seq<Reply>>, mems: seq<nat -> nat>)
    requires Flagged(s, src, table, stale) && ProperOps(ops) && AllAnswered(src, ops, rss, mems)
    requires Safe(ops, HostAt(s), table, stale)
    ensures Results(ops, s, rss) == Expected(ops, mems)
    decreases |ops|
  {
    if ops == [] {
      return;
    }
    AnswersSendable(src, ops, rss, mems);
    FirstOp(src, ops, rss, mems);
    FirstResult(ops, s, rss);
    var op := ops[0];
    OpKeeps(s, src, op, rss[0], mems[0]);
    var s', src' := op.Result(s, rss[0]).1, op.Leaves(src, rss[0]);
    if op.WriteV? {
      LinkedEmpty(s', src');
      SafeIsRight(s', src', ops[1..], table, stale || (op.Sends(s) && table), rss[1..], mems[1..]);
    } else {
      SafeIsRight(s', src', ops[1..], true, false, rss[1..], mems[1..]);
    }
  }

  lemma LinkedEmpty(s: Reader, src: Source)
    requires Placed(s, src)
    ensures src.hist == [] ==> Linked(s, src)
  {
  }

  // ---------- The others ----------

  function Lasts(inc: bool, n: nat): seq<Reply> { seq(n, _ => Last(inc)) }

  function Constant(v: nat): nat -> nat { x => v }

  /** A read of a memory that holds v everywhere: the word itself if the table is
      empty, and after that the same again. */
  function Same(src: Source, inc: bool, n: nat, v: nat): seq<Reply>
    requires n > 0
  {
    if !src.announced then [AddrWide(src.addr), Raw(inc, v)] + Lasts(inc, n - 1)
    else if src.hist == [] then [Raw(inc, v)] + Lasts(inc, n - 1)
    else Lasts(inc, n)
  }

  function Answer(src: Source, op: Op, v: nat): seq<Reply>
    requires op.Proper()
  {
    if op.WriteV? then [] else Same(Asks(src, op.a), op.Up(), op.Len(), v)
  }

  function AllSame(src: Source, ops: seq<Op>, v: nat): (rss: seq<seq<Reply>>)
    requires ProperOps(ops)
    ensures |rss| == |ops|
    decreases |ops|
  {
    if ops == [] then []
    else
      var rs := Answer(src, ops[0], v);
      [rs] + AllSame(ops[0].Leaves(src, rs), ops[1..], v)
  }

  function Constants(n: nat, v: nat): (mems: seq<nat -> nat>)
    ensures |mems| == n
  {
    seq(n, _ => Constant(v))
  }

  lemma {:induction false} LastsFit(src: Source, inc: bool, n: nat, v: nat)
    requires src.announced && src.hist == [v]
    ensures AllSendable(Lasts(inc, n)) && Transcript(src, Lasts(inc, n), inc, n, Constant(v))
    ensures Gone(src, Lasts(inc, n)).hist == [v]
    decreases n
  {
    if n > 0 {
      assert Lasts(inc, n)[1..] == Lasts(inc, n - 1);
      LastsFit(After(src, Last(inc)), inc, n - 1, v);
    }
  }

  lemma RawFits(src: Source, inc: bool, n: nat, v: nat)
    requires src.announced && src.hist == [] && v < WORD && n > 0
    ensures var rs := [Raw(inc, v)] + Lasts(inc, n - 1);
            AllSendable(rs) && Transcript(src, rs, inc, n, Constant(v)) && Gone(src, rs).hist == [v]
  {
    var rs := [Raw(inc, v)] + Lasts(inc, n - 1);
    assert rs[1..] == Lasts(inc, n - 1);
    LastsFit(After(src, Raw(inc, v)), inc, n - 1, v);
  }

  lemma SameFits(src: Source, inc: bool, n: nat, v: nat)
    requires (src.hist == [] || src.hist == [v]) && src.addr < ADDRS && v < WORD && n > 0
    ensures var rs := Same(src, inc, n, v);
            AllSendable(rs) && Transcript(src, rs, inc, n, Constant(v)) && Gone(src, rs).hist == [v]
  {
    if src.announced {
      if src.hist == [] {
        RawFits(src, inc, n, v);
      } else {
        LastsFit(src, inc, n, v);
      }
    } else {
      var src1 := src.(hist := [], announced := true);
      RawFits(src1, inc, n, v);
      var rs := Same(src, inc, n, v);
      assert rs[1..] == [Raw(inc, v)] + Lasts(inc, n - 1);
      hide Lasts;
    }
  }

  lemma AnswerFits(src: Source, op: Op, v: nat)
    requires (src.hist == [] || src.hist == [v]) && v < WORD && op.Proper()
    ensures var rs := Answer(src, op, v);
            op.Answered(src, rs, Constant(v)) && op.Leaves(src, rs).hist == if op.WriteV? then src.hist else [v]
  {
    if !op.WriteV? {
      hide Same, Transcript, Gone;
      SameFits(Asks(src, op.a), op.Up(), op.Len(), v);
    }
  }

  lemma {:induction false} AllSameFit(src: Source, ops: seq<Op>, v: nat)
    requires (src.hist == [] || src.hist == [v]) && v < WORD && ProperOps(ops)
    ensures AllAnswered(src, ops, AllSame(src, ops, v), Constants(|ops|, v))
    decreases |ops|
  {
    hide Answer, Op.Proper, Op.Leaves, Op.Answered;
    if ops != [] {
      var rs := Answer(src, ops[0], v);
      AnswerFits(src, ops[0], v);
      AllSameFit(ops[0].Leaves(src, rs), ops[1..], v);
      assert AllSame(src, ops, v)[1..] == AllSame(ops[0].Leaves(src, rs), ops[1..], v);
      assert Constants(|ops|, v)[1..] == Constants(|ops| - 1, v);
    }
  }

  /** The host takes the same word out of its table again and again. */
  lemma {:induction false} LastsRead(s: Reader, inc: bool, n: nat)
    requires s.Valid()
    ensures Enough(Lasts(inc, n), n)
    ensures var b := ReadAll(s, Lasts(inc, n), n);
            !b.fault && b.reader.table == s.table && b.words == seq(n, _ => s.Entry(1))
    decreases n
  {
    if n > 0 {
      var s1 := s.Advance(inc);
      assert Lasts(inc, n)[0] == Last(inc) && Lasts(inc, n)[1..] == Lasts(inc, n - 1);
      LastsRead(s1, inc, n - 1);
      assert s1.Entry(1) == s.Entry(1);
      hide Lasts;
    }
  }

  lemma RawRead(s: Reader, inc: bool, n: nat, v: nat)
    requires s.Valid() && n > 0
    ensures var rs := [Raw(inc, v)] + Lasts(inc, n - 1);
            Enough(rs, n) && ReadAll(s, rs, n).reader.table == s.table[s.rdaddr := v]
  {
    var rs := [Raw(inc, v)] + Lasts(inc, n - 1);
    assert rs[0] == Raw(inc, v) && rs[1..] == Lasts(inc, n - 1);
    LastsRead(s.Push(v).Advance(inc), inc, n - 1);
    hide Lasts;
  }

  lemma AddressedRead(s: Reader, w: nat, rs: seq<Reply>, n: nat)
    requires s.Valid() && n > 0 && Enough(rs, n)
    ensures Enough([AddrWide(w)] + rs, n)
    ensures ReadAll(s, [AddrWide(w)] + rs, n) == ReadAll(Note(s, AddrWide(w)), rs, n)
  {
    var all := [AddrWide(w)] + rs;
    assert all[0] == AddrWide(w) && all[1..] == rs;
    ReadWordSkips(s, all);
    assert Faults(all) == Faults(rs) && Rest(all) == Rest(rs);
  }

  lemma SameRead(s: Reader, src: Source, inc: bool, n: nat, v: nat)
    requires s.Valid() && n > 0
    ensures var rs := Same(src, inc, n, v);
            && Enough(rs, n)
            && ReadAll(s, rs, n).reader.table ==
               (if src.announced && src.hist != [] then s.table else s.table[s.rdaddr := v])
  {
    hide ReadAll, Enough;
    if src.announced && src.hist != [] {
      LastsRead(s, inc, n);
    } else if src.announced {
      RawRead(s, inc, n, v);
    } else {
      var rs := [Raw(inc, v)] + Lasts(inc, n - 1);
      RawRead(Note(s, AddrWide(src.addr)), inc, n, v);
      AddressedRead(s, src.addr, rs, n);
      assert Same(src, inc, n, v) == [AddrWide(src.addr)] + rs;
    }
  }

  /** Part way through calls on such a memory: the far end's table has at most
      this one word, and the last place of the host's does not. */
  ghost predicate Fooling(s: Reader, src: Source, table: bool, stale: bool, v: nat) {
    && Placed(s, src) && src.announced == s.addrSet && s.table[1023] != v && v < WORD
    && src.hist == (if table then [v] else [])
    && (s.addrSet && (stale || !table) ==> s.rdaddr == 0) && (stale ==> table && s.addrSet)
  }

  lemma FoolingStep(s: Reader, src: Source, op: Op, table: bool, stale: bool, v: nat)
    requires Fooling(s, src, table, stale, v) && op.Proper() && (op.WriteV? || op.Sends(s) || !stale)
    ensures var rs := Answer(src, op, v);
            && Fooling(op.Result(s, rs).1, op.Leaves(src, rs), !op.WriteV? || table,
                       op.WriteV? && (stale || (op.Sends(s) && table)), v)
            && HostAt(op.Result(s, rs).1) == Some(op.EndsAt())
  {
    var rs := Answer(src, op, v);
    AnswerFits(src, op, v);
    OpKeeps(s, src, op, rs, Constant(v));
    if !op.WriteV? {
      SameRead(StartReader(s, op.a), Asks(src, op.a), op.Up(), op.Len(), v);
      hide Same, ReadAll, Enough, Gone, Transcript;
    }
  }

  /** The first unsafe read returns a wrong word. */
  lemma FoolingEnds(s: Reader, src: Source, op: Op, table: bool, v: nat)
    requires Fooling(s, src, table, true, v) && op.Proper() && !op.WriteV? && !op.Sends(s)
    ensures op.Result(s, Answer(src, op, v)).0 != Perform(op.Wanted(), Constant(v)).0
  {
    LastsRead(s, op.Up(), op.Len());
    assert StartReader(s, op.a) == s;
    PerformLoads(op.a / 4, op.Up(), op.Len(), Constant(v));
    hide Lasts, ReadAll, Enough, Perform, Loads;
    assert s.Entry(1) == s.table[1023];
    assert op.Result(s, Answer(src, op, v)).0[0] != MemoryWords(Constant(v), op.a / 4, op.Up(), op.Len())[0];
  }

  /** The answer to the first call, and what becomes of it. */
  lemma FirstSame(s: Reader, src: Source, ops: seq<Op>, v: nat)
    requires s.Valid() && ops != [] && ProperOps(ops)
    ensures ops[0].Proper() && ProperOps(ops[1..])
    ensures var rs := Answer(src, ops[0], v);
            var (words, s') := ops[0].Result(s, rs);
            && Results(ops, s, AllSame(src, ops, v)) ==
               [words] + Results(ops[1..], s', AllSame(ops[0].Leaves(src, rs), ops[1..], v))
            && Expected(ops, Constants(|ops|, v)) ==
               [Perform(ops[0].Wanted(), Constant(v)).0] + Expected(ops[1..], Constants(|ops[1..]|, v))
  {
    hide Op.Result, Op.Leaves, Op.Wanted, Op.Proper, Answer, Perform;
    var rss, mems := AllSame(src, ops, v), Constants(|ops|, v);
    FirstResult(ops, s, rss);
    assert mems[0] == Constant(v) && mems[1..] == Constants(|ops| - 1, v);
    assert rss[1..] == AllSame(ops[0].Leaves(src, rss[0]), ops[1..], v);
  }

  lemma FirstUnsafe(s: Reader, ops: seq<Op>, table: bool, stale: bool)
    requires ops != [] && !Safe(ops, HostAt(s), table, stale)
    ensures var op := ops[0];
            var sends := op.Sends(s);
            || (!op.WriteV? && !sends && stale)
            || !Safe(ops[1..], Some(op.EndsAt()), !op.WriteV? || table, op.WriteV? && (stale || (sends && table)))
  {
  }

  lemma NoneUnsafe(at: Option<nat>, table: bool, stale: bool)
    ensures Safe([], at, table, stale)
  {
  }

  lemma Differ<T>(a: T, b: T, x: seq<T>, y: seq<T>)
    requires a != b || x != y
    ensures [a] + x != [b] + y
  {
    assert ([a] + x)[0] == a && ([a] + x)[1..] == x;
    assert ([b] + y)[0] == b && ([b] + y)[1..] == y;
  }

  lemma {:induction false} Misled(s: Reader, src: Source, ops: seq<Op>, table: bool, stale: bool, v: nat)
    requires s.Valid() && Fooling(s, src, table, stale, v)
    requires ProperOps(ops) && !Safe(ops, HostAt(s), table, stale)
    ensures Results(ops, s, AllSame(src, ops, v)) != Expected(ops, Constants(|ops|, v))
    decreases |ops|
  {
    hide *;
    NoneUnsafe(HostAt(s), table, stale);
    var op := ops[0];
    FirstSame(s, src, ops, v);
    FirstUnsafe(s, ops, table, stale);
    var rs := Answer(src, op, v);
    var s', src' := op.Result(s, rs).1, op.Leaves(src, rs);
    var more, due := Results(ops[1..], s', AllSame(src', ops[1..], v)), Expected(ops[1..], Constants(|ops[1..]|, v));
    if !op.WriteV? && !op.Sends(s) && stale {
      FoolingEnds(s, src, op, table, v);
    } else {
      FoolingStep(s, src, op, table, stale, v);
      Misled(s', src', ops[1..], !op.WriteV? || table, op.WriteV? && (stale || (op.Sends(s) && table)), v);
    }
    Differ(op.Result(s, rs).0, Perform(op.Wanted(), Constant(v)).0, more, due);
  }

  /** From a new bus, calls return the words expected, whatever the memories and
      the answers, if and only if they are safe. */
  lemma SafeIff(s: Reader, src: Source, ops: seq<Op>)
    requires s.Valid() && !s.addrSet && src.addr < ADDRS && !src.announced && src.hist == [] && ProperOps(ops)
    ensures Safe(ops, None, false, false) <==>
            forall rss, mems :: AllAnswered(src, ops, rss, mems) ==> Results(ops, s, rss) == Expected(ops, mems)
  {
    if Safe(ops, None, false, false) {
      forall rss, mems | AllAnswered(src, ops, rss, mems)
        ensures Results(ops, s, rss) == Expected(ops, mems)
      {
        SafeIsRight(s, src, ops, false, false, rss, mems);
      }
    } else {
      var v := if s.table[1023] == 1 then 2 else 1;
      AllSameFit(src, ops, v);
      Misled(s, src, ops, false, false, v);
    }
  }

  /** Writing a register and reading it back is not safe behind a read from
      elsewhere. */
  lemma ReadBackUnsafe(x: nat, y: nat, val: nat)
    requires x != y && x < WORD && y < WORD && x % 4 == 0 && y % 4 == 0
    ensures !Safe([ReadIo(x), WriteV(y, false, [val]), ReadIo(y)], None, false, false)
  {
    var ops := [ReadIo(x), WriteV(y, false, [val]), ReadIo(y)];
    MovedOn(x / 4, false, 0, 0);
    MovedOn(y / 4, false, 0, 0);
    assert ops[0].EndsAt() == x && ops[1].EndsAt() == y;
    assert ops[1..][0] == ops[1] && ops[1..][1..][0] == ops[2];
    assert !Safe(ops[1..][1..], Some(y), true, true);
    assert !Safe(ops[1..], Some(x), true, false);
  }

  /** So some answer to it comes out wrong. */
  lemma ReadBackFails(s: Reader, src: Source, x: nat, y: nat, val: nat)
    requires s.Valid() && !s.addrSet && src.addr < ADDRS && !src.announced && src.hist == []
    requires x != y && x < WORD && y < WORD && x % 4 == 0 && y % 4 == 0 && val < WORD
    ensures var ops := [ReadIo(x), WriteV(y, false, [val]), ReadIo(y)];
            exists rss, mems :: AllAnswered(src, ops, rss, mems) && Results(ops, s, rss) != Expected(ops, mems)
  {
    var ops := [ReadIo(x), WriteV(y, false, [val]), ReadIo(y)];
    assert ProperOps(ops);
    ReadBackUnsafe(x, y, val);
    SafeIff(s, src, ops);
    hide AllAnswered, Results, Expected, Safe;
  }
}
