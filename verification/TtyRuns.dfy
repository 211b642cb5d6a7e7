/** Runs over the debugging bus: the accesses the far end makes one word at a
    time, what they mean on a memory, and sequences of reads and writes. */
module TtyRuns {
  import opened TtyCodec
  import opened TtyWrite
  import opened TtyRead

  // ---------- Accesses ----------

  /** One access of the far end's bus, at a word address. */
  datatype Access = Load(addr: nat) | Store(addr: nat, val: nat)

  function Loads(w: nat, inc: bool, n: nat): seq<Access> {
    seq(n, i => Load((w + i * Bit(inc)) % ADDRS))
  }

  function Stores(w: nat, p: bool, vals: seq<nat>): seq<Access> {
    seq(|vals|, i requires 0 <= i < |vals| => Store((w + i * Bit(p)) % ADDRS, vals[i]))
  }

  /** What the far end does, word by word. */
  function Accesses(acts: seq<Action>): seq<Access> {
    if acts == [] then []
    else
      (match acts[0]
       case Wrote(a, v) => [Store(a / 4, v)]
       case Fetched(a, inc, n) => Loads(a / 4, inc, n))
      + Accesses(acts[1..])
  }

  lemma {:induction false} AccessesAppend(a: seq<Action>, b: seq<Action>)
    ensures Accesses(a + b) == Accesses(a) + Accesses(b)
  {
    hide Loads;
    if a == [] {
      assert a + b == b;
    } else {
      assert (a + b)[0] == a[0] && (a + b)[1..] == a[1..] + b;
      AccessesAppend(a[1..], b);
    }
  }

  /** The word address after n steps. */
  function Moved(w: nat, inc: bool, n: nat): (r: nat)
    ensures r < ADDRS
  {
    (w + Bit(inc) * n) % ADDRS
  }

  lemma MovedOn(w: nat, inc: bool, x: nat, y: nat)
    ensures Moved(Moved(w, inc, x), inc, y) == Moved(w, inc, x + y)
    ensures w < ADDRS ==> Moved(w, inc, 0) == w
  {
    AddTimes(w, Bit(inc), x, y);
  }

  lemma LoadsAppend(w: nat, inc: bool, x: nat, y: nat)
    requires w < ADDRS
    ensures Loads(w, inc, x) + Loads(Moved(w, inc, x), inc, y) == Loads(w, inc, x + y)
  {
    forall i | 0 <= i < y
      ensures ((w + Bit(inc) * x) % ADDRS + i * Bit(inc)) % ADDRS == (w + (x + i) * Bit(inc)) % ADDRS
    {
      AddTimes(w, Bit(inc), x, i);
      Commute(Bit(inc), x, i);
    }
  }

  lemma Commute(d: nat, x: nat, i: nat)
    ensures i * d == d * i && (x + i) * d == d * (x + i)
  {
  }

  lemma AddTimes(w: nat, d: nat, x: nat, y: nat)
    ensures ((w + d * x) % ADDRS + d * y) % ADDRS == (w + d * (x + y)) % ADDRS
  {
    assert d * (x + y) == d * x + d * y;
    ModAdds(w + d * x, d * y);
  }

  /** The writes of a call are stores to its words. */
  lemma {:induction false} WritesStore(a: nat, p: bool, vals: seq<nat>)
    requires a < WORD && a % 4 == 0
    ensures Accesses(Writes(a, p, vals)) == Stores(a / 4, p, vals)
    decreases |vals|
  {
    if vals != [] {
      WritesCons(a, p, vals);
      NextAddrIs(a, p);
      WritesStore(NextAddr(a, p), p, vals[1..]);
      StoresCons(a / 4, p, vals);
      hide Writes, Stores;
      var rest := Writes(NextAddr(a, p), p, vals[1..]);
      AccessesCons(Wrote(a, vals[0]), rest);
    }
  }

  lemma AccessesCons(act: Action, acts: seq<Action>)
    requires act.Wrote?
    ensures Accesses([act] + acts) == [Store(act.addr / 4, act.val)] + Accesses(acts)
  {
    assert ([act] + acts)[1..] == acts;
  }

  lemma StoresCons(w: nat, p: bool, vals: seq<nat>)
    requires vals != [] && w < ADDRS
    ensures Stores(w, p, vals) == [Store(w, vals[0])] + Stores((w + Bit(p)) % ADDRS, p, vals[1..])
  {
    forall i | 1 <= i < |vals|
      ensures (w + i * Bit(p)) % ADDRS == ((w + Bit(p)) % ADDRS + (i - 1) * Bit(p)) % ADDRS
    {
      AddressAdds(w, Bit(p), i);
    }
  }

  lemma LoadsCons(w: nat, inc: bool, n: nat)
    requires n > 0 && w < ADDRS
    ensures Loads(w, inc, n) == [Load(w)] + Loads((w + Bit(inc)) % ADDRS, inc, n - 1)
  {
    forall i | 1 <= i < n
      ensures (w + i * Bit(inc)) % ADDRS == ((w + Bit(inc)) % ADDRS + (i - 1) * Bit(inc)) % ADDRS
    {
      AddressAdds(w, Bit(inc), i);
    }
  }

  // ---------- Accesses of a memory ----------

  function Put(mem: nat -> nat, addr: nat, val: nat): nat -> nat { x => if x == addr then val else mem(x) }

  /** The words loaded, and the memory afterwards. */
  function Perform(accs: seq<Access>, mem: nat -> nat): (seq<nat>, nat -> nat)
    decreases |accs|
  {
    if accs == [] then ([], mem)
    else match accs[0]
      case Load(a) =>
        var (words, mem') := Perform(accs[1..], mem);
        ([mem(a)] + words, mem')
      case Store(a, v) => Perform(accs[1..], Put(mem, a, v))
  }

  lemma {:induction false} PerformLoads(w: nat, inc: bool, n: nat, mem: nat -> nat)
    requires w < ADDRS
    ensures Perform(Loads(w, inc, n), mem) == (MemoryWords(mem, w, inc, n), mem)
    decreases n
  {
    if n == 0 {
      assert Loads(w, inc, 0) == [] && MemoryWords(mem, w, inc, 0) == [];
    } else {
      LoadsCons(w, inc, n);
      MemoryWordsCons(mem, w, inc, n);
      PerformLoads((w + Bit(inc)) % ADDRS, inc, n - 1, mem);
      hide Loads, MemoryWords;
      var rest := Loads((w + Bit(inc)) % ADDRS, inc, n - 1);
      assert ([Load(w)] + rest)[1..] == rest;
    }
  }

  lemma {:induction false} PerformStores(w: nat, p: bool, vals: seq<nat>, mem: nat -> nat)
    requires w < ADDRS
    ensures Perform(Stores(w, p, vals), mem).0 == []
    decreases |vals|
  {
    if vals != [] {
      StoresCons(w, p, vals);
      PerformStores((w + Bit(p)) % ADDRS, p, vals[1..], Put(mem, w, vals[0]));
      hide Stores;
      var rest := Stores((w + Bit(p)) % ADDRS, p, vals[1..]);
      assert ([Store(w, vals[0])] + rest)[1..] == rest;
    }
  }

  /** Where the words of a call leave the address. */
  lemma {:induction false} CodesMove(h: Host, p: bool, vals: seq<nat>)
    requires h.Valid()
    ensures var h' := WordCodes(h, p, vals).1;
            h'.lastAddr == 4 * Moved(h.lastAddr / 4, p, |vals|) && h'.addrSet == h.addrSet
    decreases |vals|
  {
    hide WordCode, Moved;
    if vals == [] {
      MovedOn(h.lastAddr / 4, p, 0, 0);
    } else {
      MovedOn(h.lastAddr / 4, p, 1, |vals| - 1);
      CodeMoves(h, p, vals[0]);
      CodesMove(WordCode(h, p, vals[0]).1, p, vals[1..]);
    }
  }

  lemma CodeMoves(h: Host, p: bool, val: nat)
    requires h.Valid()
    ensures var h' := WordCode(h, p, val).1;
            h'.lastAddr == 4 * Moved(h.lastAddr / 4, p, 1) && h'.addrSet == h.addrSet
  {
    hide FindRef;
  }

  // ---------- Sequences of reads and writes ----------

  /** writev(), readv(), or readio(). */
  datatype Op =
    | WriteV(a: nat, p: bool, vals: seq<nat>)
    | ReadV(a: nat, inc: bool, n: nat)
    | ReadIo(a: nat)
  {
    /** Aligned, not empty, and every word of it can be asked for. */
    predicate Proper() {
      && a < WORD && a % 4 == 0
      && match this
         case WriteV(_, _, _) => vals != [] && forall i :: 0 <= i < |vals| ==> vals[i] < WORD
         case ReadV(_, _, _) => n > 0 && (inc || n % 512 != 8)
         case ReadIo(_) => true
    }

    /** Does the address count up, and how many words are there? */
    function Up(): bool { match this case WriteV(_, p, _) => p case ReadV(_, inc, _) => inc case ReadIo(_) => false }

    function Len(): nat { match this case WriteV(_, _, vals) => |vals| case ReadV(_, _, n) => n case ReadIo(_) => 1 }

    /** What the call is for. */
    function Wanted(): seq<Access> {
      if WriteV? then Stores(a / 4, p, vals) else Loads(a / 4, Up(), Len())
    }

    /** Where it leaves the address. */
    function EndsAt(): nat { 4 * Moved(a / 4, Up(), Len()) }

    /** Does the host send the address? */
    predicate Sends(s: Reader) { !(s.addrSet && s.lastAddr == a) }

    /** A way for the far end to answer, with its memory as it is. */
    ghost predicate Answered(src: Source, rs: seq<Reply>, mem: nat -> nat) {
      AllSendable(rs) && if WriteV? then rs == [] else Transcript(Asks(src, a), rs, Up(), Len(), mem)
    }

    /** Where this leaves the far end.  A write needs no announcement of the
        address, and none is due after it; the table stays. */
    function Leaves(src: Source, rs: seq<Reply>): Source {
      if WriteV? then Source(Moved(a / 4, p, |vals|), src.hist, true) else Gone(Asks(src, a), rs)
    }

    /** What the host makes of it: the words it returns, and the reader after it. */
    function Result(s: Reader, rs: seq<Reply>): (r: (seq<nat>, Reader))
      requires s.Valid()
      ensures r.1.Valid()
    {
      if WriteV? then ([], StartReader(s, a).(addrSet := true, lastAddr := EndsAt()))
      else if !Enough(rs, Len()) then ([], s)
      else
        var b := ReadAll(StartReader(s, a), rs, Len());
        (b.words, b.reader)
    }
  }

  /** A call keeps the host knowing where the far end is.  A read returns the
      words wanted if it sends its address or the host has the far end's table,
      which it then has again; a write leaves the host with the table if it sends
      no address, or the table is empty. */
  lemma OpKeeps(s: Reader, src: Source, op: Op, rs: seq<Reply>, mem: nat -> nat)
    requires Placed(s, src) && op.Proper() && op.Answered(src, rs, mem)
    ensures var ((words, s'), src') := (op.Result(s, rs), op.Leaves(src, rs));
            && Placed(s', src') && src'.announced && s'.addrSet && s'.lastAddr == op.EndsAt() && s'.busErr == s.busErr
            && (op.WriteV? ==> words == Perform(op.Wanted(), mem).0)
            && (op.WriteV? && (src.hist == [] || (Linked(s, src) && src.announced && !op.Sends(s))) ==>
                  Linked(s', src'))
            && (!op.WriteV? && (Linked(s, src) || op.Sends(s)) ==>
                  words == Perform(op.Wanted(), mem).0 && Linked(s', src'))
  {
    if op.WriteV? {
      WriteKeeps(s, src, op);
      PerformStores(op.a / 4, op.p, op.vals, mem);
    } else {
      ReadKeeps(s, src, op, rs, mem);
    }
  }

  lemma WriteKeeps(s: Reader, src: Source, op: Op)
    requires Placed(s, src) && op.Proper() && op.WriteV?
    ensures var (s', src') := (op.Result(s, []).1, op.Leaves(src, []));
            && Placed(s', src')
            && (src.hist == [] || (Linked(s, src) && src.announced && !op.Sends(s)) ==> Linked(s', src'))
  {
    hide Moved;
    var s' := op.Result(s, []).1;
    if !op.Sends(s) {
      assert forall i :: s'.Entry(i) == s.Entry(i);
    }
  }

  lemma ReadKeeps(s: Reader, src: Source, op: Op, rs: seq<Reply>, mem: nat -> nat)
    requires Placed(s, src) && op.Proper() && !op.WriteV? && op.Answered(src, rs, mem)
    ensures Enough(rs, op.Len())
    ensures var ((words, s'), src') := (op.Result(s, rs), op.Leaves(src, rs));
            && Placed(s', src') && src'.announced && s'.addrSet && s'.lastAddr == op.EndsAt() && s'.busErr == s.busErr
            && (Linked(s, src) || op.Sends(s) ==> words == Perform(op.Wanted(), mem).0 && Linked(s', src'))
  {
    hide Sendable, Transcript, Gone, Enough, ReadAll, Agrees, MemoryWords, Loads, Perform;
    StartLinked(s, src, op.a);
    BlockIsRead(StartReader(s, op.a), Asks(src, op.a), rs, op.Up(), op.Len(), mem);
    PerformLoads(op.a / 4, op.Up(), op.Len(), mem);
    assert op.Len() * Bit(op.Up()) == Bit(op.Up()) * op.Len();
  }

  predicate ProperOps(ops: seq<Op>) { forall i :: 0 <= i < |ops| ==> ops[i].Proper() }

  function AllWanted(ops: seq<Op>): seq<Access> {
    if ops == [] then [] else ops[0].Wanted() + AllWanted(ops[1..])
  }

  /** What the calls should return, with these memories behind the far end when
      they are made: registers change by themselves. */
  function Expected(ops: seq<Op>, mems: seq<nat -> nat>): seq<seq<nat>>
    requires |mems| == |ops|
  {
    if ops == [] then [] else [Perform(ops[0].Wanted(), mems[0]).0] + Expected(ops[1..], mems[1..])
  }

  /** What they do return. */
  function Results(ops: seq<Op>, s: Reader, rss: seq<seq<Reply>>): seq<seq<nat>>
    requires s.Valid() && |rss| == |ops|
    decreases |ops|
  {
    if ops == [] then []
    else
      var (words, s') := ops[0].Result(s, rss[0]);
      [words] + Results(ops[1..], s', rss[1..])
  }

  ghost predicate AllAnswered(src: Source, ops: seq<Op>, rss: seq<seq<Reply>>, mems: seq<nat -> nat>)
    decreases |ops|
  {
    |rss| == |ops| == |mems| &&
    (ops == [] ||
     (&& ops[0].Answered(src, rss[0], mems[0])
      && AllAnswered(ops[0].Leaves(src, rss[0]), ops[1..], rss[1..], mems[1..])))
  }

  /** The memories of a memory that nothing else changes. */
  function Memories(ops: seq<Op>, mem: nat -> nat): (mems: seq<nat -> nat>)
    ensures |mems| == |ops|
    decreases |ops|
  {
    if ops == [] then [] else [mem] + Memories(ops[1..], Perform(ops[0].Wanted(), mem).1)
  }

  /** With these, the words expected are those of performing all the accesses on
      the memory one after another. */
  lemma {:induction false} MemoryWins(ops: seq<Op>, mem: nat -> nat)
    ensures Joined(Expected(ops, Memories(ops, mem))) == Perform(AllWanted(ops), mem).0
    decreases |ops|
  {
    hide Op.Wanted;
    if ops != [] {
      var accs, rest := ops[0].Wanted(), AllWanted(ops[1..]);
      var (words, mem1) := Perform(accs, mem);
      MemoryWins(ops[1..], mem1);
      PerformAppend(accs, rest, mem);
      var mems := Memories(ops, mem);
      assert mems[0] == mem && mems[1..] == Memories(ops[1..], mem1);
    }
  }

  function Joined(words: seq<seq<nat>>): seq<nat> { if words == [] then [] else words[0] + Joined(words[1..]) }

  lemma {:induction false} PerformAppend(a: seq<Access>, b: seq<Access>, mem: nat -> nat)
    ensures var (words, mem1) := Perform(a, mem);
            var (more, mem2) := Perform(b, mem1);
            Perform(a + b, mem) == (words + more, mem2)
    decreases |a|
  {
    if a == [] {
      assert a + b == b && [] + Perform(b, mem).0 == Perform(b, mem).0;
    } else {
      assert (a + b)[0] == a[0] && (a + b)[1..] == a[1..] + b;
      match a[0]
      case Load(x) =>
        PerformAppend(a[1..], b, mem);
        var words, more := Perform(a[1..], mem).0, Perform(b, Perform(a, mem).1).0;
        assert [mem(x)] + (words + more) == [mem(x)] + words + more;
      case Store(x, v) => PerformAppend(a[1..], b, Put(mem, x, v));
    }
  }

  predicate AllTextsSendable(rss: seq<seq<Reply>>) { forall i :: 0 <= i < |rss| ==> AllSendable(rss[i]) }

  /** All that comes back. */
  function Texts(rss: seq<seq<Reply>>): string
    requires AllTextsSendable(rss)
  {
    if rss == [] then "" else AllReplyChars(rss[0]) + Texts(rss[1..])
  }

  lemma {:induction false} AnswersSendable(src: Source, ops: seq<Op>, rss: seq<seq<Reply>>, mems: seq<nat -> nat>)
    requires AllAnswered(src, ops, rss, mems)
    ensures AllTextsSendable(rss)
    decreases |ops|
  {
    hide Sendable, Transcript, Op.Leaves;
    if ops != [] {
      AnswersSendable(ops[0].Leaves(src, rss[0]), ops[1..], rss[1..], mems[1..]);
      assert forall i :: 1 <= i < |rss| ==> rss[i] == rss[1..][i - 1];
    }
  }

  lemma AnsweredLengths(src: Source, ops: seq<Op>, rss: seq<seq<Reply>>, mems: seq<nat -> nat>)
    requires AllAnswered(src, ops, rss, mems)
    ensures |rss| == |ops| == |mems|
  {
  }

  /** The first call and its answer, and the others. */
  lemma FirstOp(src: Source, ops: seq<Op>, rss: seq<seq<Reply>>, mems: seq<nat -> nat>)
    requires ops != [] && ProperOps(ops) && AllAnswered(src, ops, rss, mems) && AllTextsSendable(rss)
    ensures |rss| == |ops| == |mems| && AllTextsSendable(rss[1..]) && AllSendable(rss[0])
    ensures ops[0].Proper() && ops[0].Answered(src, rss[0], mems[0]) && ProperOps(ops[1..])
    ensures AllAnswered(ops[0].Leaves(src, rss[0]), ops[1..], rss[1..], mems[1..])
    ensures Expected(ops, mems) == [Perform(ops[0].Wanted(), mems[0]).0] + Expected(ops[1..], mems[1..])
    ensures Texts(rss) == AllReplyChars(rss[0]) + Texts(rss[1..])
    ensures AllWanted(ops) == ops[0].Wanted() + AllWanted(ops[1..])
  {
    hide Sendable, Perform, Transcript, Op.Leaves, Op.Wanted, Op.Proper, AllReplyChars;
  }

  lemma FirstResult(ops: seq<Op>, s: Reader, rss: seq<seq<Reply>>)
    requires s.Valid() && ops != [] && |rss| == |ops|
    ensures var (words, s') := ops[0].Result(s, rss[0]);
            Results(ops, s, rss) == [words] + Results(ops[1..], s', rss[1..])
  {
    hide Op.Result;
  }

  lemma NoOps(src: Source, ops: seq<Op>, s: Reader, rss: seq<seq<Reply>>, mems: seq<nat -> nat>)
    requires s.Valid() && ops == [] && AllAnswered(src, ops, rss, mems) && AllTextsSendable(rss)
    ensures |rss| == 0 == |mems| && Texts(rss) == "" && AllWanted(ops) == []
    ensures Results(ops, s, rss) == [] == Expected(ops, mems)
  {
  }

  /** The replies to the first of some single reads, and the others. */
  lemma FirstText(rss: seq<seq<Reply>>)
    requires rss != [] && AllTextsSendable(rss)
    ensures AllSendable(rss[0]) && AllTextsSendable(rss[1..])
    ensures Texts(rss) == AllReplyChars(rss[0]) + Texts(rss[1..])
  {
    hide Sendable, AllReplyChars;
  }

  lemma NoTexts()
    ensures AllTextsSendable([]) && Texts([]) == ""
  {
  }

  // ---------- Read requests ----------

  /** readcmd(): what a request spells.  Eight words without increment have no
      codeword of their own. */
  function RequestCode(inc: bool, len: nat): Code {
    if !inc && len == 8 then EndOfWrite else ReadWords(inc, len)
  }

  /** The size of request i of a read of len words. */
  function BlockSize(len: nat, i: nat): int {
    if len - 512 * i < 512 then len - 512 * i else 512
  }

  function Blocks(len: nat): nat { (len + 511) / 512 }

  /** The first m requests of a read of len words. */
  function Requests(inc: bool, len: nat, m: nat): seq<Code>
    requires m <= Blocks(len)
  {
    seq(m, i requires 0 <= i < m => RequestCode(inc, BlockSize(len, i)))
  }

  lemma RequestsSpellable(inc: bool, len: nat, m: nat)
    requires m <= Blocks(len)
    ensures AllSpellable(Requests(inc, len, m))
    ensures forall i :: 0 <= i < m ==> 1 <= BlockSize(len, i) <= 512
    ensures Blocks(len) == (len + 511) / 512
    ensures forall i :: 0 <= i < m ==> BlockSize(len, i) == if len - 512 * i > 512 then 512 else len - 512 * i
  {
  }

  /** A request by itself: all its words, or none of them. */
  lemma OneRequest(f: Far, inc: bool, n: nat)
    requires f.Valid() && 1 <= n <= 512
    ensures var (f', acts) := FarRun(f, [RequestCode(inc, n)]);
            && f' == f.(addr := Moved(f.addr, inc, n))
            && Accesses(acts) == Loads(f.addr, inc, if !inc && n == 8 then 0 else n)
  {
    hide Loads, Accesses, Moved, FarRun, FarStep, RequestCode;
    FarRunOne(f, RequestCode(inc, n));
    RequestStep(f, inc, n);
    if !inc && n == 8 {
      Nothing(f, inc);
    } else {
      FetchAlone(4 * f.addr, inc, n);
    }
  }

  lemma RequestStep(f: Far, inc: bool, n: nat)
    requires f.Valid() && 1 <= n <= 512
    ensures FarStep(f, RequestCode(inc, n)) ==
            if !inc && n == 8 then (f, []) else (f.(addr := Moved(f.addr, inc, n)), [Fetched(4 * f.addr, inc, n)])
    ensures !inc ==> Moved(f.addr, inc, n) == f.addr
  {
  }

  lemma FetchAlone(a: nat, inc: bool, n: nat)
    ensures Accesses([Fetched(a, inc, n)]) == Loads(a / 4, inc, n)
  {
    var acts := [Fetched(a, inc, n)];
    assert acts[1..] == [] && Accesses([]) == [];
    hide Loads;
    assert Loads(a / 4, inc, n) + [] == Loads(a / 4, inc, n);
  }

  lemma Nothing(f: Far, inc: bool)
    requires f.Valid()
    ensures Accesses([]) == [] == Loads(f.addr, inc, 0)
    ensures f == f.(addr := Moved(f.addr, inc, 0))
  {
  }

  /** The words the first m requests are for. */
  function Asked(len: nat, m: nat): nat { if 512 * m < len then 512 * m else len }

  /** Of these, the words whose request is lost. */
  function Lost(inc: bool, len: nat, m: nat): (n: nat)
    requires m <= Blocks(len)
    ensures n <= Asked(len, m)
  {
    if !inc && m == Blocks(len) && len % 512 == 8 then 8 else 0
  }

  lemma AskedMore(inc: bool, len: nat, m: nat)
    requires 0 < m <= Blocks(len)
    ensures Asked(len, m) == Asked(len, m - 1) + BlockSize(len, m - 1)
    ensures Lost(inc, len, m - 1) == 0
    ensures Lost(inc, len, m) == if !inc && BlockSize(len, m - 1) == 8 then 8 else 0
  {
  }

  /** One request more. */
  lemma MoreRequests(f: Far, codes: seq<Code>, inc: bool, k: nat, n: nat)
    requires f.Valid() && 1 <= n <= 512
    requires var (f1, acts) := FarRun(f, codes);
             f1 == f.(addr := Moved(f.addr, inc, k)) && Accesses(acts) == Loads(f.addr, inc, k)
    ensures var (f', acts) := FarRun(f, codes + [RequestCode(inc, n)]);
            && f' == f.(addr := Moved(f.addr, inc, k + n))
            && Accesses(acts) == Loads(f.addr, inc, k + if !inc && n == 8 then 0 else n)
  {
    hide *;
    var last := [RequestCode(inc, n)];
    var (f1, acts) := FarRun(f, codes);
    var (f2, more) := FarRun(f1, last);
    FarRunAppend(f, codes, last);
    OneRequest(f1, inc, n);
    JoinRequests(f, f1, f2, acts, more, inc, k, n, if !inc && n == 8 then 0 else n);
  }

  lemma JoinRequests(f: Far, f1: Far, f2: Far, acts: seq<Action>, more: seq<Action>,
                     inc: bool, k: nat, n: nat, got: nat)
    requires f.Valid()
    requires f1 == f.(addr := Moved(f.addr, inc, k)) && Accesses(acts) == Loads(f.addr, inc, k)
    requires f2 == f1.(addr := Moved(f1.addr, inc, n)) && Accesses(more) == Loads(f1.addr, inc, got)
    ensures f2 == f.(addr := Moved(f.addr, inc, k + n))
    ensures Accesses(acts + more) == Loads(f.addr, inc, k + got)
  {
    hide Loads, Accesses, Moved;
    AccessesAppend(acts, more);
    MovedOn(f.addr, inc, k, n);
    LoadsAppend(f.addr, inc, k, got);
  }

  lemma RequestsMore(inc: bool, len: nat, m: nat)
    requires 0 < m <= Blocks(len)
    ensures 1 <= BlockSize(len, m - 1) <= 512
    ensures Requests(inc, len, m) == Requests(inc, len, m - 1) + [RequestCode(inc, BlockSize(len, m - 1))]
  {
    RequestsSpellable(inc, len, m);
  }

  /** The requests of a read fetch all its words in order, except that a request
      for eight words without increment is lost. */
  lemma {:induction false} RequestsFetch(f: Far, inc: bool, len: nat, m: nat)
    requires f.Valid() && m <= Blocks(len)
    ensures var (f', acts) := FarRun(f, Requests(inc, len, m));
            && f' == f.(addr := Moved(f.addr, inc, Asked(len, m)))
            && Accesses(acts) == Loads(f.addr, inc, Asked(len, m) - Lost(inc, len, m))
  {
    if m == 0 {
      assert Requests(inc, len, 0) == [];
      Nothing(f, inc);
    } else {
      RequestsMore(inc, len, m);
      AskedMore(inc, len, m);
      hide FarRun, Accesses, Loads, Moved, Requests, Asked, BlockSize, RequestCode, Blocks, Lost;
      RequestsFetch(f, inc, len, m - 1);
      MoreRequests(f, Requests(inc, len, m - 1), inc, Asked(len, m - 1), BlockSize(len, m - 1));
    }
  }

  /** What a whole read sends makes the far end fetch the words of the read. */
  lemma RequestsReach(h: Host, f: Far, a: nat, inc: bool, len: nat)
    requires InSync(h, f) && a < WORD && a % 4 == 0
    ensures var (f', acts) := FarRun(f, AddressCodes(h, a) + Requests(inc, len, Blocks(len)));
            && f' == f.(addr := Moved(a / 4, inc, len))
            && Accesses(acts) == Loads(a / 4, inc, len - Lost(inc, len, Blocks(len)))
  {
    var m := Blocks(len);
    AllAskedFor(len);
    hide AddressCodes, Requests, FarRun, FarStep, Accesses, Loads, Moved, Lost, Asked, Blocks, Spellable;
    var first := AddressCodes(h, a);
    AddressReaches(h, f, a);
    hide InSync;
    var f1 := f.(addr := a / 4);
    RequestsFetch(f1, inc, len, m);
    RunsOn(f, f1, first, Requests(inc, len, m));
  }

  /** A read gets all of its words unless it ends in a request for eight words
      without increment. */
  lemma NothingLost(h: Host, f: Far, a: nat, inc: bool, len: nat)
    requires InSync(h, f) && a < WORD && a % 4 == 0
    ensures Accesses(FarRun(f, AddressCodes(h, a) + Requests(inc, len, Blocks(len))).1) == Loads(a / 4, inc, len)
       <==> inc || len % 512 != 8
  {
    RequestsReach(h, f, a, inc, len);
    assert |Loads(a / 4, inc, len - Lost(inc, len, Blocks(len)))| == len - Lost(inc, len, Blocks(len));
    assert |Loads(a / 4, inc, len)| == len;
    hide Loads, Accesses, FarRun, AddressCodes, Requests, InSync;
  }

  /** Eight words from one address are not fetched at all. */
  lemma EightLost(h: Host, f: Far, a: nat)
    requires InSync(h, f) && a < WORD && a % 4 == 0
    ensures Accesses(FarRun(f, AddressCodes(h, a) + Requests(false, 8, Blocks(8))).1) == []
  {
    RequestsReach(h, f, a, false, 8);
  }

  lemma AllAskedFor(len: nat)
    ensures Asked(len, Blocks(len)) == len
  {
  }

  lemma RunsOn(f: Far, f1: Far, first: seq<Code>, more: seq<Code>)
    requires f.Valid() && FarRun(f, first) == (f1, [])
    ensures FarRun(f, first + more) == FarRun(f1, more)
  {
    hide FarStep;
    FarRunAppend(f, first, more);
    var acts := FarRun(f1, more).1;
    assert [] + acts == acts;
    hide FarRun;
  }
}
