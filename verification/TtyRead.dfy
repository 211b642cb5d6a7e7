/** Reads over the debugging bus: the replies of the far end, the table they
    refer to, and what readword() makes of them. */
module TtyRead {
  import opened Options
  import opened TtyCodec

  // ---------- The codewords of the far end (rtl/wbubus/wbudeword.v) ----------

  datatype Reply =
    | Line
    | Status(k: nat)
    | Reset
    | Interrupt
    | Error
    | AddrWide(word: nat)
    | AddrSmall(n: nat, word: nat)
    | Last(inc: bool)
    | Recent(inc: bool, back: nat)
    | Older(inc: bool, back: nat)
    | Raw(inc: bool, val: nat)

  predicate Sendable(r: Reply) {
    match r
    case Line => true
    case Status(k) => k < 3
    case Reset => true
    case Interrupt => true
    case Error => true
    case AddrWide(w) => w < ADDRS
    case AddrSmall(n, w) => 1 <= n <= 4 && w < Pow64(n)
    case Last(_) => true
    case Recent(_, k) => 2 <= k <= 9
    case Older(_, k) => 10 <= k <= 521
    case Raw(_, v) => v < WORD
  }

  /** The six-bit values of a reply; a line end is not part of the code. */
  function ReplySix(r: Reply): seq<sixbit>
    requires Sendable(r)
  {
    match r
    case Line => []
    case Status(k) => [k]
    case Reset => [3]
    case Interrupt => [4]
    case Error => [5]
    case AddrWide(w) => [0x08] + Digits(w, 5)
    case AddrSmall(n, w) => [0x0c + n - 1] + Digits(w, n)
    case Last(inc) => [0x06 + Bit(inc)]
    case Recent(inc, k) => [0x20 + (k - 2) * 2 + Bit(inc)]
    case Older(inc, k) => [0x10 + (k - 10) / 64 * 2 + Bit(inc), (k - 10) % 64]
    case Raw(inc, v) => [0x38 + v / ADDRS * 2 + Bit(inc)] + Digits(v % ADDRS, 5)
  }

  function ReplyChars(r: Reply): string
    requires Sendable(r)
  {
    if r == Line then "\n" else Shown(ReplySix(r))
  }

  predicate AllSendable(rs: seq<Reply>) { forall i :: 0 <= i < |rs| ==> Sendable(rs[i]) }

  function AllReplyChars(rs: seq<Reply>): string
    requires AllSendable(rs)
  {
    if rs == [] then [] else ReplyChars(rs[0]) + AllReplyChars(rs[1..])
  }

  // ---------- The host's side ----------

  /** What readword() keeps: the address, and a ring of the last 1024 raw words. */
  datatype Reader = Reader(addrSet: bool, lastAddr: nat, rdaddr: nat, table: seq<nat>, interrupt: bool, busErr: bool) {
    predicate Valid() { rdaddr < 1024 && |table| == 1024 }

    function Entry(back: nat): nat
      requires Valid()
    {
      table[(rdaddr - back) % 1024]
    }

    /** A word has been read: the address moves on if the codeword says so. */
    function Advance(inc: bool): Reader { this.(lastAddr := NextLast(lastAddr, inc)) }

    function Push(v: nat): Reader
      requires Valid()
    {
      this.(table := table[rdaddr := v], rdaddr := (rdaddr + 1) % 1024)
    }
  }

  function NextLast(last: nat, inc: bool): nat { (last + 4 * Bit(inc)) % WORD }

  lemma NextLastFits(last: nat, inc: bool)
    requires last % 4 == 0
    ensures NextLast(last, inc) < WORD && NextLast(last, inc) % 4 == 0
  {
  }

  lemma NextLastFollows(addr: nat, inc: bool)
    requires addr < ADDRS
    ensures NextLast(4 * addr, inc) == 4 * ((addr + Bit(inc)) % ADDRS)
  {
  }

  datatype Outcome = Word(val: nat) | BusError

  predicate IsData(r: Reply) { r.Last? || r.Recent? || r.Older? || r.Raw? }

  predicate IsFault(r: Reply) { r.Reset? || r.Error? }

  /** Does readword() return, or throw, before the replies run out? */
  predicate Answers(rs: seq<Reply>) {
    rs != [] && (IsData(rs[0]) || IsFault(rs[0]) || Answers(rs[1..]))
  }

  /** A reply that does not end readword(). */
  function Note(s: Reader, r: Reply): Reader {
    match r
    case Interrupt => s.(interrupt := true)
    case AddrWide(w) => s.(addrSet := true, lastAddr := 4 * w)
    case AddrSmall(_, w) => s.(addrSet := true, lastAddr := 4 * w)
    case _ => s
  }

  /** A reply that ends it. */
  function Finish(s: Reader, r: Reply): (Outcome, Reader)
    requires s.Valid() && (IsData(r) || IsFault(r))
  {
    match r
    case Last(inc) => (Word(s.Entry(1)), s.Advance(inc))
    case Recent(inc, k) => (Word(s.Entry(k)), s.Advance(inc))
    case Older(inc, k) => (Word(s.Entry(k)), s.Advance(inc))
    case Raw(inc, v) => (Word(v), s.Push(v).Advance(inc))
    case _ => (BusError, s.(busErr := true))
  }

  /** readword(): the outcome, the reader after it, and the replies left. */
  function ReadWord(s: Reader, rs: seq<Reply>): (r: (Outcome, Reader, seq<Reply>))
    requires s.Valid() && Answers(rs)
    ensures r.1.Valid() && |r.2| < |rs|
    decreases |rs|
  {
    if IsData(rs[0]) || IsFault(rs[0]) then
      var (o, s') := Finish(s, rs[0]);
      (o, s', rs[1..])
    else ReadWord(Note(s, rs[0]), rs[1..])
  }

  // ---------- The far end ----------

  /** The address of the next word, the raw words sent since its table was
      last cleared, and whether no announcement of the address is due.  One is
      due after a reset and when an address has been set, until the next access
      of its bus; only announcements clear the table (rtl/wbubus/wbuexec.v:274-281,
      wbucompress.v:186-195). */
  datatype Source = Source(addr: nat, hist: seq<nat>, announced: bool)

  /** The word a data reply stands for, given what was sent before. */
  function Denotes(hist: seq<nat>, r: Reply): Option<nat>
    requires IsData(r)
  {
    var k := match r case Last(_) => 1 case Recent(_, k) => k case Older(_, k) => k case Raw(_, _) => 0;
    if r.Raw? then Some(r.val)
    else if 1 <= k <= |hist| then Some(hist[|hist| - k])
    else None
  }

  function After(src: Source, r: Reply): Source
    requires IsData(r)
  {
    Source((src.addr + Bit(r.inc)) % ADDRS, if r.Raw? then src.hist + [r.val] else src.hist, src.announced)
  }

  /** The far end after it has sent some replies: an address clears the table. */
  function Gone(src: Source, rs: seq<Reply>): Source
    decreases |rs|
  {
    if rs == [] then src
    else Gone(if IsData(rs[0]) then After(src, rs[0])
              else if rs[0].AddrWide? || rs[0].AddrSmall? then src.(hist := [], announced := true)
              else src,
              rs[1..])
  }

  /** rs is a way to answer a read of n words: every word of the memory in
      turn, each in any of the forms that denote it, after an announcement of
      the address if one is due, with anything harmless in between. */
  ghost predicate Transcript(src: Source, rs: seq<Reply>, inc: bool, n: nat, mem: nat -> nat)
    decreases |rs|
  {
    if n == 0 then rs == []
    else
      && rs != []
      && match rs[0]
         case AddrWide(w) =>
           w == src.addr && Transcript(src.(hist := [], announced := true), rs[1..], inc, n, mem)
         case AddrSmall(_, w) =>
           w == src.addr && Transcript(src.(hist := [], announced := true), rs[1..], inc, n, mem)
         case Reset => false
         case Error => false
         case Line => Transcript(src, rs[1..], inc, n, mem)
         case Status(_) => Transcript(src, rs[1..], inc, n, mem)
         case Interrupt => Transcript(src, rs[1..], inc, n, mem)
         case _ =>
           && src.announced && rs[0].inc == inc && Denotes(src.hist, rs[0]) == Some(mem(src.addr))
           && Transcript(After(src, rs[0]), rs[1..], inc, n - 1, mem)
  }

  /** The host knows where the far end is, unless an announcement is due. */
  ghost predicate Placed(s: Reader, src: Source) {
    s.Valid() && src.addr < ADDRS && (src.announced ==> s.addrSet && s.lastAddr == 4 * src.addr)
  }

  /** It has all the words that the far end may refer to in their places. */
  ghost predicate Agrees(s: Reader, hist: seq<nat>)
    requires s.Valid()
  {
    forall i :: 1 <= i <= 1024 && i <= |hist| ==> s.Entry(i) == hist[|hist| - i]
  }

  ghost predicate Linked(s: Reader, src: Source) {
    Placed(s, src) && (src.announced ==> Agrees(s, src.hist))
  }

  lemma PushKeeps(s: Reader, hist: seq<nat>, v: nat)
    requires s.Valid() && Agrees(s, hist)
    ensures Agrees(s.Push(v), hist + [v])
  {
    forall i | 1 <= i <= 1024 && i <= |hist| + 1
      ensures s.Push(v).Entry(i) == (hist + [v])[|hist| + 1 - i]
    {
      if i > 1 {
        RingPlace(s.rdaddr, i);
        assert s.Entry(i - 1) == hist[|hist| - (i - 1)];
      } else {
        RingPlace(s.rdaddr, 1);
      }
    }
  }

  lemma RingPlace(r: nat, i: nat)
    requires r < 1024 && 1 <= i <= 1024
    ensures ((r + 1) % 1024 - i) % 1024 == (r - (i - 1)) % 1024
    ensures (r - (i - 1)) % 1024 == r <==> i == 1
  {
  }

  /** A data reply is read as some word, and as the word it stands for if the
      host has the far end's table. */
  lemma DataIsRead(s: Reader, src: Source, r: Reply, v: nat)
    requires Placed(s, src) && src.announced && IsData(r) && Sendable(r) && Denotes(src.hist, r) == Some(v)
    ensures var (o, s') := Finish(s, r);
            && o.Word? && Placed(s', After(src, r)) && s'.busErr == s.busErr
            && (Agrees(s, src.hist) ==> o == Word(v) && Agrees(s', After(src, r).hist))
  {
    NextLastFollows(src.addr, r.inc);
    hide NextLast;
    var s' := Finish(s, r).1;
    if r.Raw? {
      if Agrees(s, src.hist) {
        PushKeeps(s, src.hist, v);
      }
      assert forall i :: s'.Entry(i) == s.Push(v).Entry(i);
    } else {
      assert forall i :: s'.Entry(i) == s.Entry(i);
    }
  }

  lemma NoteKeeps(s: Reader, src: Source, r: Reply)
    requires Placed(s, src) && !IsData(r) && !r.AddrWide? && !r.AddrSmall?
    ensures Placed(Note(s, r), src) && Note(s, r).busErr == s.busErr
    ensures Agrees(s, src.hist) ==> Agrees(Note(s, r), src.hist)
  {
    assert forall i :: Note(s, r).Entry(i) == s.Entry(i);
  }

  /** readword() on the transcript of a read returns a word, which is that of the
      memory if the host has the far end's table, and leaves the transcript of
      the rest of the read. */
  lemma {:induction false} WordIsRead(s: Reader, src: Source, rs: seq<Reply>, inc: bool, n: nat, mem: nat -> nat)
    returns (src': Source)
    requires Placed(s, src) && AllSendable(rs) && n > 0 && Transcript(src, rs, inc, n, mem)
    ensures Answers(rs)
    ensures var (o, s', rest) := ReadWord(s, rs);
            && o.Word? && Placed(s', src') && src'.announced && s'.busErr == s.busErr
            && AllSendable(rest) && Transcript(src', rest, inc, n - 1, mem)
            && src'.addr == (src.addr + Bit(inc)) % ADDRS && Gone(src, rs) == Gone(src', rest)
            && (Linked(s, src) ==> o == Word(mem(src.addr)) && Linked(s', src'))
    decreases |rs|
  {
    hide Sendable, Agrees;
    if IsData(rs[0]) {
      DataIsRead(s, src, rs[0], mem(src.addr));
      src' := After(src, rs[0]);
    } else if rs[0].AddrWide? || rs[0].AddrSmall? {
      var s1, src1 := Note(s, rs[0]), src.(hist := [], announced := true);
      NothingToAgree(s1);
      src' := WordIsRead(s1, src1, rs[1..], inc, n, mem);
    } else {
      NoteKeeps(s, src, rs[0]);
      src' := WordIsRead(Note(s, rs[0]), src, rs[1..], inc, n, mem);
    }
  }

  lemma NothingToAgree(s: Reader)
    requires s.Valid()
    ensures Agrees(s, [])
  {
  }

  // ---------- Recognising a reply by its first value ----------

  /** What readword() can tell from the six-bit values of a reply. */
  ghost predicate Recognised(r: Reply, six: seq<sixbit>)
    requires |six| > 0
  {
    var h, num := six[0], Num(six[1..]);
    match r
    case Line => false
    case Status(_) => h < 3 && |six| == 1
    case Reset => h == 3 && |six| == 1
    case Interrupt => h == 4 && |six| == 1
    case Error => h == 5 && |six| == 1
    case AddrWide(w) => h / 4 == 2 && |six| == 6 && w == h % 4 * ADDRS + num
    case AddrSmall(_, w) => h / 4 == 3 && |six| == h % 4 + 2 && w == num
    case Last(inc) => h / 2 == 3 && |six| == 1 && inc == (h % 2 == 1)
    case Recent(inc, k) => h / 16 == 2 && |six| == 1 && k == h / 2 % 8 + 2 && inc == (h % 2 == 1)
    case Older(inc, k) => h / 16 == 1 && |six| == 2 && k == h / 2 % 8 * 64 + num + 10 && inc == (h % 2 == 1)
    case Raw(inc, v) => h / 8 == 7 && |six| == 6 && v == h / 2 % 4 * ADDRS + num && inc == (h % 2 == 1)
  }

  lemma RecogniseAddress(r: Reply)
    requires Sendable(r) && (r.AddrWide? || r.AddrSmall?)
    ensures |ReplySix(r)| > 0
    ensures Recognised(r, ReplySix(r))
  {
    Pow64s();
    hide Num, Digits, Pow64;
    match r
    case AddrWide(w) => DigitsRoundTrip(w, 5);
    case AddrSmall(n, w) => DigitsRoundTrip(w, n);
  }

  lemma RecogniseTable(r: Reply)
    requires Sendable(r) && (r.Recent? || r.Older?)
    ensures |ReplySix(r)| > 0
    ensures Recognised(r, ReplySix(r))
  {
    hide Num;
    if r.Older? {
      OneDigit((r.back - 10) % 64);
    }
  }

  lemma RecogniseRaw(r: Reply)
    requires Sendable(r) && r.Raw?
    ensures |ReplySix(r)| > 0
    ensures Recognised(r, ReplySix(r))
  {
    Pow64s();
    hide Num, Digits, Pow64;
    DigitsRoundTrip(r.val % ADDRS, 5);
  }

  lemma RecogniseShort(r: Reply)
    requires Sendable(r) && (r.Status? || r.Last? || r.Interrupt? || IsFault(r))
    ensures |ReplySix(r)| > 0
    ensures Recognised(r, ReplySix(r))
  {
    hide Num;
  }

  lemma Recognise(r: Reply)
    requires Sendable(r) && r != Line
    ensures |ReplySix(r)| > 0 && Recognised(r, ReplySix(r))
  {
    hide Recognised, ReplySix;
    match r
    case AddrWide(_) => RecogniseAddress(r);
    case AddrSmall(_, _) => RecogniseAddress(r);
    case Raw(_, _) => RecogniseRaw(r);
    case Older(_, _) => RecogniseTable(r);
    case Recent(_, _) => RecogniseTable(r);
    case _ => RecogniseShort(r);
  }

  /** What a reply carries, in the slices of the thirty-six bits that the far end
      takes it from (rtl/wbubus/wbucompress.v:105-112, 366-383): addresses, and
      words and places in the table beside the increment in bit 30. */
  lemma AddressReply(r: Reply)
    requires Sendable(r) && (r.AddrWide? || r.AddrSmall?)
    ensures 1 < |ReplySix(r)| <= 6
    ensures var h, low := ReplySix(r)[0], Padded(ReplySix(r)[1..]);
            if r.AddrWide? then h / 4 == 2 && h % 4 * 0x4000_0000 + low == r.word
            else h == 0x0c + r.n - 1 && Slice(low, r.n) == r.word
  {
    Pow64s();
    hide Num, Digits, Pow64, Padded, Slice;
    match r
    case AddrWide(w) =>
      PaddedDigits(w, 5);
      assert ReplySix(r)[1..] == Digits(w, 5) && w * 1 == w;
    case AddrSmall(n, w) =>
      PaddedSlice(w, n);
      assert ReplySix(r)[1..] == Digits(w, n);
  }

  lemma DataReply(r: Reply)
    requires Sendable(r) && IsData(r)
    ensures 0 < |ReplySix(r)| <= 6
    ensures var h, low := ReplySix(r)[0], Padded(ReplySix(r)[1..]);
            && h % 2 == (if r.inc then 1 else 0)
            && match r
               case Last(_) => h / 2 == 3
               case Recent(_, k) => h / 16 == 2 && h / 2 % 8 == k - 2
               case Older(_, k) => h / 16 == 1 && h / 2 % 8 * 64 + low / 0x100_0000 == k - 10
               case Raw(_, v) => h / 8 == 7 && h / 2 % 4 * 0x4000_0000 + low == v
  {
    Pow64s();
    hide Num, Digits, Pow64, Padded, Slice;
    var bit := if r.inc then 1 else 0;
    match r
    case Last(_) =>
    case Recent(_, k) => HeadFields(2, k - 2, bit);
    case Older(_, k) =>
      HeadFields(1, (k - 10) / 64, bit);
      PaddedOne((k - 10) % 64);
      assert ReplySix(r)[1..] == [(k - 10) % 64];
    case Raw(_, v) =>
      HeadFields(3, 4 + v / ADDRS, bit);
      PaddedDigits(v % ADDRS, 5);
      assert ReplySix(r)[1..] == Digits(v % ADDRS, 5) && v % ADDRS * 1 == v % ADDRS;
  }

  /** The replies left after a reply that does not end readword(). */
  lemma ReadWordSkips(s: Reader, rs: seq<Reply>)
    requires s.Valid() && Answers(rs) && !IsData(rs[0]) && !IsFault(rs[0])
    ensures Answers(rs[1..]) && ReadWord(s, rs) == ReadWord(Note(s, rs[0]), rs[1..])
  {
  }

  lemma ReplyCharsCons(rs: seq<Reply>, rest: string)
    requires rs != [] && AllSendable(rs)
    ensures Sendable(rs[0]) && AllSendable(rs[1..])
    ensures AllReplyChars(rs) + rest == ReplyChars(rs[0]) + (AllReplyChars(rs[1..]) + rest)
  {
    hide ReplyChars;
  }

  lemma ShownCons(six: seq<sixbit>)
    requires six != []
    ensures Shown(six) == [DeviceChar(six[0])] + Shown(six[1..])
  {
  }

  // ---------- Reading a block of words ----------

  /** The replies left after the first one that ends readword(). */
  function Rest(rs: seq<Reply>): (r: seq<Reply>)
    requires Answers(rs)
    ensures |r| < |rs|
  {
    if IsData(rs[0]) || IsFault(rs[0]) then rs[1..] else Rest(rs[1..])
  }

  /** Is the first reply that ends readword() a fault? */
  predicate Faults(rs: seq<Reply>)
    requires Answers(rs)
  {
    if IsData(rs[0]) || IsFault(rs[0]) then IsFault(rs[0]) else Faults(rs[1..])
  }

  /** The replies answer n calls of readword(), or a fault comes first. */
  predicate Enough(rs: seq<Reply>, n: nat)
    decreases n
  {
    n == 0 || (Answers(rs) && (Faults(rs) || Enough(Rest(rs), n - 1)))
  }

  lemma {:induction false} ReadWordRest(s: Reader, rs: seq<Reply>)
    requires s.Valid() && Answers(rs)
    ensures var (o, _, left) := ReadWord(s, rs);
            left == Rest(rs) && (o == BusError <==> Faults(rs))
    decreases |rs|
  {
    if !(IsData(rs[0]) || IsFault(rs[0])) {
      ReadWordRest(Note(s, rs[0]), rs[1..]);
    }
  }

  /** An interrupt among the replies that readword() takes is noted, and so is a
      fault. */
  lemma {:induction false} Noted(s: Reader, rs: seq<Reply>)
    requires s.Valid() && Answers(rs)
    ensures var (_, s', left) := ReadWord(s, rs);
            var used := rs[..|rs| - |left|];
            && 0 < |used| && left == rs[|used|..]
            && (s'.interrupt <==> s.interrupt || Interrupt in used)
            && (s'.busErr <==> s.busErr || Reset in used || Error in used)
    decreases |rs|
  {
    var left := ReadWord(s, rs).2;
    if !(IsData(rs[0]) || IsFault(rs[0])) {
      Noted(Note(s, rs[0]), rs[1..]);
      assert rs[..|rs| - |left|] == [rs[0]] + rs[1..][..|rs[1..]| - |left|];
    } else {
      assert rs[..|rs| - |left|] == [rs[0]];
    }
  }

  datatype Block = Block(words: seq<nat>, fault: bool, reader: Reader, left: seq<Reply>)

  /** n calls of readword(), up to the first fault. */
  function ReadAll(s: Reader, rs: seq<Reply>, n: nat): (b: Block)
    requires s.Valid() && Enough(rs, n)
    ensures b.reader.Valid() && if b.fault then |b.words| < n else |b.words| == n
    decreases n
  {
    if n == 0 then Block([], false, s, rs)
    else
      ReadWordRest(s, rs);
      var (o, s', left) := ReadWord(s, rs);
      match o
      case BusError => Block([], true, s', left)
      case Word(v) =>
        var b := ReadAll(s', left, n - 1);
        b.(words := [v] + b.words)
  }

  /** The words of the memory that a read of n words is for. */
  function MemoryWords(mem: nat -> nat, w: nat, inc: bool, n: nat): seq<nat> {
    seq(n, i => mem((w + i * Bit(inc)) % ADDRS))
  }

  lemma WordsAre(mem: nat -> nat, w: nat, inc: bool, n: nat)
    ensures |MemoryWords(mem, w, inc, n)| == n
    ensures forall i :: 0 <= i < n ==> MemoryWords(mem, w, inc, n)[i] == mem((w + if inc then i else 0) % 0x4000_0000)
  {
  }

  /** Whatever the far end chose, so many words are read, and the address ends up
      where the read left it; they are the words of the memory if the host has
      the far end's table, and then it has it again. */
  lemma {:induction false} BlockIsRead(s: Reader, src: Source, rs: seq<Reply>, inc: bool, n: nat, mem: nat -> nat)
    requires Placed(s, src) && AllSendable(rs) && Transcript(src, rs, inc, n, mem)
    ensures Enough(rs, n)
    ensures var b, src' := ReadAll(s, rs, n), Gone(src, rs);
            && !b.fault && b.left == [] && b.reader.busErr == s.busErr
            && Placed(b.reader, src') && (n > 0 || src.announced ==> src'.announced)
            && src'.addr == (src.addr + n * Bit(inc)) % ADDRS
            && (Linked(s, src) ==> b.words == MemoryWords(mem, src.addr, inc, n) && Linked(b.reader, src'))
    decreases n
  {
    hide Sendable, ReadWord, Answers, Faults, Rest, Agrees;
    if n == 0 {
      LinkedSource(s, src);
      return;
    }
    var src1 := WordIsRead(s, src, rs, inc, n, mem);
    ReadWordRest(s, rs);
    var (o, s1, left) := ReadWord(s, rs);
    hide Linked, Placed, Transcript;
    LinkedSource(s, src);
    BlockIsRead(s1, src1, left, inc, n - 1, mem);
    MemoryWordsCons(mem, src.addr, inc, n);
    AddressAdds(src.addr, Bit(inc), n);
    hide MemoryWords;
  }

  lemma LinkedSource(s: Reader, src: Source)
    requires Placed(s, src)
    ensures s.Valid() && src.addr < ADDRS && src.addr == (src.addr + 0) % ADDRS
  {
  }

  lemma MemoryWordsCons(mem: nat -> nat, w: nat, inc: bool, n: nat)
    requires n > 0 && w < ADDRS
    ensures MemoryWords(mem, w, inc, n) ==
            [mem(w)] + MemoryWords(mem, (w + Bit(inc)) % ADDRS, inc, n - 1)
  {
    forall i | 1 <= i < n
      ensures (w + i * Bit(inc)) % ADDRS == ((w + Bit(inc)) % ADDRS + (i - 1) * Bit(inc)) % ADDRS
    {
      AddressAdds(w, Bit(inc), i);
    }
  }

  lemma AddressAdds(w: nat, d: nat, n: nat)
    requires n > 0 && d <= 1
    ensures (w + n * d) % ADDRS == ((w + d) % ADDRS + (n - 1) * d) % ADDRS
  {
    assert n * d == d + (n - 1) * d;
    ModAdds(w + d, (n - 1) * d);
  }

  lemma ModAdds(x: nat, y: nat)
    ensures (x % ADDRS + y) % ADDRS == (x + y) % ADDRS
  {
  }

  // ---------- A block against single reads ----------

  /** The reader when the words of a read start to arrive: an address that has
      to be sent makes its table start afresh. */
  function StartReader(s: Reader, a: nat): Reader {
    s.(rdaddr := if s.addrSet && s.lastAddr == a then s.rdaddr else 0)
  }

  /** The far end when it starts to answer a read at a: an address that it is
      sent has to be announced. */
  function Asks(src: Source, a: nat): Source {
    Source(a / 4, src.hist, src.announced && src.addr == a / 4)
  }

  /** A read can begin; it does so with the far end's table known if it was
      known before, or if the read sends its address. */
  lemma StartLinked(s: Reader, src: Source, a: nat)
    requires Placed(s, src) && a < WORD && a % 4 == 0
    ensures Placed(StartReader(s, a), Asks(src, a))
    ensures Linked(s, src) || !(s.addrSet && s.lastAddr == a) ==> Linked(StartReader(s, a), Asks(src, a))
  {
    hide Agrees;
    if src.announced && src.addr == a / 4 {
      assert StartReader(s, a) == s && Asks(src, a) == src;
    }
  }

  /** The address of the next single read, or the same again. */
  function NextAddr(a: nat, inc: bool): nat { (a + 4 * Bit(inc)) % WORD }

  /** The replies to single reads at a and the addresses after it. */
  ghost predicate Singly(src: Source, a: nat, inc: bool, rss: seq<seq<Reply>>, mem: nat -> nat)
    decreases |rss|
  {
    rss == [] ||
    (&& AllSendable(rss[0]) && Transcript(Asks(src, a), rss[0], false, 1, mem)
     && Singly(Gone(Asks(src, a), rss[0]), NextAddr(a, inc), inc, rss[1..], mem))
  }

  /** The far end after it has answered them. */
  function GoneSingly(src: Source, a: nat, inc: bool, rss: seq<seq<Reply>>): Source
    decreases |rss|
  {
    if rss == [] then src else GoneSingly(Gone(Asks(src, a), rss[0]), NextAddr(a, inc), inc, rss[1..])
  }

  /** What so many single reads return, up to the first that does not return,
      and the reader after them. */
  function ReadSingly(s: Reader, a: nat, inc: bool, rss: seq<seq<Reply>>): (seq<nat>, Reader)
    requires s.Valid()
    decreases |rss|
  {
    if rss == [] || !Enough(rss[0], 1) then ([], s)
    else
      var b := ReadAll(StartReader(s, a), rss[0], 1);
      if b.fault then ([], b.reader)
      else
        var (words, s') := ReadSingly(b.reader, NextAddr(a, inc), inc, rss[1..]);
        (b.words + words, s')
  }

  lemma NextAddrIs(a: nat, inc: bool)
    requires a < WORD && a % 4 == 0
    ensures NextAddr(a, inc) < WORD && NextAddr(a, inc) % 4 == 0
    ensures NextAddr(a, inc) / 4 == (a / 4 + Bit(inc)) % ADDRS
  {
  }

  lemma SingleIsRead(s: Reader, src: Source, a: nat, rs: seq<Reply>, mem: nat -> nat)
    requires Linked(s, src) && a < WORD && a % 4 == 0
    requires AllSendable(rs) && Transcript(Asks(src, a), rs, false, 1, mem)
    ensures Enough(rs, 1)
    ensures var b := ReadAll(StartReader(s, a), rs, 1);
            && !b.fault && b.left == [] && b.words == [mem(a / 4)]
            && Linked(b.reader, Gone(Asks(src, a), rs)) && b.reader.busErr == s.busErr
    ensures Gone(Asks(src, a), rs).announced && Gone(Asks(src, a), rs).addr == a / 4
  {
    hide Sendable, Transcript, Gone, Enough, ReadAll, Agrees;
    StartLinked(s, src, a);
    BlockIsRead(StartReader(s, a), Asks(src, a), rs, false, 1, mem);
  }

  /** The first of some single reads, and the others. */
  lemma FirstSingle(src: Source, a: nat, inc: bool, rss: seq<seq<Reply>>, mem: nat -> nat)
    requires rss != [] && Singly(src, a, inc, rss, mem)
    ensures AllSendable(rss[0]) && Transcript(Asks(src, a), rss[0], false, 1, mem)
    ensures var src1 := Gone(Asks(src, a), rss[0]);
            && Singly(src1, NextAddr(a, inc), inc, rss[1..], mem)
            && GoneSingly(src, a, inc, rss) == GoneSingly(src1, NextAddr(a, inc), inc, rss[1..])
  {
    hide Sendable, Transcript, Gone, Asks, NextAddr;
  }

  lemma ReadFirst(s: Reader, a: nat, inc: bool, rss: seq<seq<Reply>>)
    requires s.Valid() && rss != [] && Enough(rss[0], 1) && !ReadAll(StartReader(s, a), rss[0], 1).fault
    ensures var b := ReadAll(StartReader(s, a), rss[0], 1);
            var (words, s') := ReadSingly(b.reader, NextAddr(a, inc), inc, rss[1..]);
            ReadSingly(s, a, inc, rss) == (b.words + words, s')
  {
    hide Enough, ReadAll, NextAddr;
  }

  lemma NoSingles(s: Reader, src: Source, a: nat, inc: bool, mem: nat -> nat)
    ensures s.Valid() ==> ReadSingly(s, a, inc, []) == ([], s)
    ensures GoneSingly(src, a, inc, []) == src
    ensures MemoryWords(mem, a / 4, inc, 0) == []
  {
  }

  lemma LinkedValid(s: Reader, src: Source, a: nat)
    requires Linked(s, src) && a < WORD
    ensures s.Valid() && StartReader(s, a).Valid() && a / 4 < ADDRS
  {
  }

  /** Single reads return the words of the memory, and leave the host knowing
      where the far end is. */
  lemma {:induction false} SinglesAreRead(s: Reader, src: Source, a: nat, inc: bool,
                                          rss: seq<seq<Reply>>, mem: nat -> nat)
    requires Linked(s, src) && a < WORD && a % 4 == 0 && Singly(src, a, inc, rss, mem)
    ensures s.Valid()
    ensures var (words, s') := ReadSingly(s, a, inc, rss);
            && words == MemoryWords(mem, a / 4, inc, |rss|)
            && Linked(s', GoneSingly(src, a, inc, rss)) && s'.busErr == s.busErr
    decreases |rss|
  {
    hide *;
    LinkedValid(s, src, a);
    if rss == [] {
      NoSingles(s, src, a, inc, mem);
      return;
    }
    FirstSingle(src, a, inc, rss, mem);
    SingleIsRead(s, src, a, rss[0], mem);
    NextAddrIs(a, inc);
    var b, next := ReadAll(StartReader(s, a), rss[0], 1), NextAddr(a, inc);
    SinglesAreRead(b.reader, Gone(Asks(src, a), rss[0]), next, inc, rss[1..], mem);
    ReadFirst(s, a, inc, rss);
    MemoryWordsCons(mem, a / 4, inc, |rss|);
  }

  /** A block read returns, word for word, what a loop of single reads returns,
      whatever the far end chooses to answer either with; both leave the ends
      in step. */
  lemma BlockIsLoop(s: Reader, src: Source, a: nat, inc: bool, rs: seq<Reply>, rss: seq<seq<Reply>>, mem: nat -> nat)
    requires Linked(s, src) && a < WORD && a % 4 == 0
    requires AllSendable(rs) && Transcript(Asks(src, a), rs, inc, |rss|, mem)
    requires Singly(src, a, inc, rss, mem)
    ensures Enough(rs, |rss|)
    ensures var b, (words, s') := ReadAll(StartReader(s, a), rs, |rss|), ReadSingly(s, a, inc, rss);
            && !b.fault && b.words == words
            && Linked(b.reader, Gone(Asks(src, a), rs)) && Linked(s', GoneSingly(src, a, inc, rss))
  {
    hide Sendable, Transcript, Singly, Gone, GoneSingly, ReadSingly, ReadAll, Enough, Agrees;
    StartLinked(s, src, a);
    BlockIsRead(StartReader(s, a), Asks(src, a), rs, inc, |rss|, mem);
    SinglesAreRead(s, src, a, inc, rss, mem);
  }
}
