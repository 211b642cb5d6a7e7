/** The host end of the debugging bus, class TTYBUS of sw/host/ttybus.{h,cpp},
    as it updates its fields and tables. */
module TtyBus {
  import opened TtyCodec
  import opened TtyWrite
  import opened TtyRead
  import opened TtyRuns
  import opened TtySafe

  const MAXRDLEN: nat := 1024
  const MAXWRLEN: nat := 32

  /** The characters sent carry exactly these codewords. */
  ghost predicate Carries(s: string, cs: seq<Code>) {
    forall rest: string :: Parse(s + rest) == cs + Parse(rest)
  }

  lemma CarriesLine(s: string, cs: seq<Code>)
    requires Carries(s, cs)
    ensures Carries(s + "\n", cs)
  {
    hide Parse;
    forall rest: string
      ensures Parse(s + "\n" + rest) == cs + Parse(rest)
    {
      assert s + "\n" + rest == s + ("\n" + rest);
      ParseLine(rest);
    }
  }

  lemma CarriesMore(s: string, cs: seq<Code>, t: string, ds: seq<Code>)
    requires Carries(s, cs) && Carries(t, ds)
    ensures Carries(s + t, cs + ds)
  {
    hide Parse;
    forall rest: string
      ensures Parse(s + t + rest) == cs + ds + Parse(rest)
    {
      assert s + t + rest == s + (t + rest);
      assert cs + (ds + Parse(rest)) == cs + ds + Parse(rest);
    }
  }

  lemma CarriesCode(c: Code)
    requires Spellable(c)
    ensures Carries(Chars(c), [c])
  {
    hide Parse, Chars;
    forall rest: string
      ensures Parse(Chars(c) + rest) == [c] + Parse(rest)
    {
      ParseCode(c, rest);
    }
  }

  lemma CarriesParse(s: string, cs: seq<Code>)
    requires Carries(s, cs)
    ensures Parse(s) == cs
  {
    assert s + "" == s && Parse("") == [];
  }

  /** What these characters make the far end do: where it is afterwards, and its
      accesses. */
  ghost predicate Did(f: Far, text: string, f': Far, accs: seq<Access>) {
    && f.Valid() && f'.Valid() && Carries(text, Parse(text))
    && FarRun(f, Parse(text)).0 == f' && Accesses(FarRun(f, Parse(text)).1) == accs
  }

  lemma DidMore(f: Far, text: string, f1: Far, accs: seq<Access>, more: string, f2: Far, rest: seq<Access>)
    requires Did(f, text, f1, accs) && Did(f1, more, f2, rest)
    ensures Did(f, text + more, f2, accs + rest)
  {
    hide Parse, Carries, FarRun, Accesses;
    CarriesMore(text, Parse(text), more, Parse(more));
    CarriesParse(text + more, Parse(text) + Parse(more));
    FarRunAppend(f, Parse(text), Parse(more));
    AccessesAppend(FarRun(f, Parse(text)).1, FarRun(f1, Parse(more)).1);
  }

  lemma DidNothing(f: Far)
    requires f.Valid()
    ensures Did(f, "", f, [])
  {
    hide FarStep;
    assert Parse("") == [];
    forall rest: string
      ensures Parse("" + rest) == [] + Parse(rest)
    {
      assert "" + rest == rest;
    }
  }

  /** It did what these codewords say. */
  lemma DidCodes(f: Far, text: string, cs: seq<Code>)
    requires f.Valid() && Carries(text, cs)
    ensures Did(f, text, FarRun(f, cs).0, Accesses(FarRun(f, cs).1))
  {
    CarriesParse(text, cs);
    hide Parse, Carries, FarRun, Accesses;
  }

  // ---------- Spellings ----------

  lemma SpellOut(six: seq<sixbit>)
    ensures |Spell(six)| == |six|
    ensures |six| == 1 ==> Spell(six) == [Charenc(six[0])]
    ensures |six| == 2 ==> Spell(six) == [Charenc(six[0]), Charenc(six[1])]
    ensures |six| == 3 ==> Spell(six) == [Charenc(six[0]), Charenc(six[1]), Charenc(six[2])]
    ensures |six| == 4 ==> Spell(six) == [Charenc(six[0]), Charenc(six[1]), Charenc(six[2]), Charenc(six[3])]
    ensures |six| == 5 ==>
      Spell(six) == [Charenc(six[0]), Charenc(six[1]), Charenc(six[2]), Charenc(six[3]), Charenc(six[4])]
    ensures |six| == 6 ==>
      Spell(six) == [Charenc(six[0]), Charenc(six[1]), Charenc(six[2]), Charenc(six[3]), Charenc(six[4]),
                     Charenc(six[5])]
  {
    hide Charenc;
  }

  function DiffSpelling(d: nat): string {
    if d < 32 then Spell([0x09] + Digits(d, 1))
    else if d < 2048 then Spell([0x0b] + Digits(d, 2))
    else if d < 0x2_0000 then Spell([0x0d] + Digits(d, 3))
    else if d < 0x80_0000 then Spell([0x0f] + Digits(d, 4))
    else []
  }

  function AbsoluteSpelling(addr: nat, diff: string): string {
    if addr <= 0x3f && (diff == [] || |diff| >= 2) then Spell([0x08] + Digits(addr, 1))
    else if addr <= 0xfff && (diff == [] || |diff| >= 3) then Spell([0x0a] + Digits(addr, 2))
    else if addr <= 0x3_ffff && (diff == [] || |diff| >= 4) then Spell([0x0c] + Digits(addr, 3))
    else if addr <= 0xff_ffff && (diff == [] || |diff| >= 5) then Spell([0x0e] + Digits(addr, 4))
    else if diff == [] then Spell([0] + Digits(addr, 5))
    else diff
  }

  lemma DiffSpelled(h: Host, a: nat)
    requires h.Valid() && h.addrSet && a < WORD && a % 4 == 0
    ensures var d, cs := (a - h.lastAddr) % WORD / 4, DiffCode(h, a);
            && |DiffSpelling(d)| == AddressLength(cs)
            && (cs == [] || (Spellable(cs[0]) && DiffSpelling(d) == Chars(cs[0])))
            && (cs != [] ==> |cs| == 1 && |DiffSpelling(d)| == cs[0].n + 1)
  {
    Pow64s();
    hide Pow64, Digits;
  }

  lemma AddressSpelled(h: Host, a: nat, diff: string)
    requires h.Valid() && a < WORD && a % 4 == 0 && !(h.addrSet && a == h.lastAddr)
    requires diff == if h.addrSet then DiffSpelling((a - h.lastAddr) % WORD / 4) else []
    ensures var cs := AddressCodes(h, a);
            && |cs| == 1 && AllSpellable(cs) && AbsoluteSpelling(a / 4, diff) == AllChars(cs)
  {
    Pow64s();
    if h.addrSet {
      DiffSpelled(h, a);
    }
    hide Pow64, Digits, DiffCode, DiffSpelling;
    var cs := AddressCodes(h, a);
    assert cs[1..] == [] && AllChars([]) == [] && AllChars(cs) == Chars(cs[0]) + [];
  }

  lemma AddressNone(h: Host, a: nat)
    ensures h.addrSet && a == h.lastAddr ==> AddressCodes(h, a) == [] && AllChars([]) == []
  {
  }

  lemma FindRefStep(h: Host, val: nat, i: nat, tstaddr: nat)
    requires h.Valid() && 1 <= i < 256 && tstaddr == (h.wraddr - i) % 256
    ensures (h.wraddr - tstaddr) % 256 == i
    ensures FindRef(h, val, i) ==
            if !h.wrLoaded && tstaddr > h.wraddr then 0
            else if h.table[tstaddr] == val then i
            else FindRef(h, val, i + 1)
  {
  }

  lemma {:induction false} AllCharsAppend(a: seq<Code>, b: seq<Code>)
    requires AllSpellable(a) && AllSpellable(b)
    ensures AllChars(a + b) == AllChars(a) + AllChars(b)
  {
    hide Chars, Spellable;
    if a == [] {
      assert a + b == b;
    } else {
      assert (a + b)[0] == a[0] && (a + b)[1..] == a[1..] + b;
      AllCharsAppend(a[1..], b);
    }
  }

  lemma AllCharsOne(c: Code)
    requires Spellable(c)
    ensures AllChars([c]) == Chars(c)
  {
    hide Chars, Spellable;
    assert [c][1..] == [] && AllChars([]) == [];
  }

  /** What the code spells is read back as the code. */
  lemma CarriesChars(cs: seq<Code>)
    requires AllSpellable(cs)
    ensures Carries(AllChars(cs), cs)
  {
    hide Parse, AllChars;
    forall rest: string
      ensures Parse(AllChars(cs) + rest) == cs + Parse(rest)
    {
      ParseCodes(cs, rest);
    }
  }

  /** Part way through a call of writev(): text spells the codewords so far,
      and what the words still to come will add makes up the total. */
  ghost predicate Progress(text: string, h: Host, p: bool, vals: seq<nat>, total: seq<Code>, end: Host) {
    && h.Valid() && WordCodes(h, p, vals).1 == end
    && var cs := WordCodes(h, p, vals).0;
       |cs| <= |total| && cs == total[|total| - |cs|..]
       && AllSpellable(total[..|total| - |cs|]) && text == AllChars(total[..|total| - |cs|])
  }

  lemma StartProgress(text: string, h: Host, p: bool, vals: seq<nat>, cs: seq<Code>)
    requires h.Valid() && AllSpellable(cs) && text == AllChars(cs)
    ensures var (more, end) := WordCodes(h, p, vals);
            Progress(text, h, p, vals, cs + more, end)
  {
    hide AllChars, WordCodes, Spellable;
    var more := WordCodes(h, p, vals).0;
    assert (cs + more)[..|cs|] == cs && (cs + more)[|cs|..] == more;
  }

  lemma MoreProgress(text: string, h: Host, p: bool, vals: seq<nat>, total: seq<Code>, end: Host)
    requires Progress(text, h, p, vals, total, end) && vals != [] && Spellable(WordCode(h, p, vals[0]).0)
    ensures var (c, h1) := WordCode(h, p, vals[0]);
            Progress(text + Chars(c), h1, p, vals[1..], total, end)
  {
    hide WordCode, AllChars, Chars, Spellable;
    var (c, h1) := WordCode(h, p, vals[0]);
    var cs := WordCodes(h1, p, vals[1..]).0;
    assert WordCodes(h, p, vals).0 == [c] + cs;
    hide WordCodes;
    var n := |total| - |cs|;
    assert total[n - 1..] == [c] + cs;
    assert total[n..] == total[n - 1..][1..] == cs;
    assert total[n - 1] == total[n - 1..][0] == c;
    assert total[..n] == total[..n - 1] + [c];
    AllCharsOne(c);
    AllCharsAppend(total[..n - 1], [c]);
  }

  lemma EndProgress(text: string, h: Host, p: bool, total: seq<Code>, end: Host)
    requires Progress(text, h, p, [], total, end)
    ensures h == end && AllSpellable(total) && text == AllChars(total)
  {
    hide AllChars, Spellable;
    assert total[..|total|] == total;
  }

  lemma AllNone(h: Host, p: bool)
    requires h.Valid()
    ensures WordCodes(h, p, []) == ([], h) && AllChars([]) == []
  {
  }

  /** A reply other than a line end, as it stands in the stream. */
  lemma ReplyOpens(rs: seq<Reply>, rest: string)
    requires rs != [] && AllSendable(rs) && rs[0] != Line
    ensures Sendable(rs[0]) && AllSendable(rs[1..])
    ensures var six := ReplySix(rs[0]);
            var s := AllReplyChars(rs) + rest;
            && |six| > 0 && Recognised(rs[0], six)
            && s != [] && Chardec(s[0]) == six[0]
            && s[1..] == Shown(six[1..]) + (AllReplyChars(rs[1..]) + rest)
  {
    hide ReplySix, Recognised, AllReplyChars, Sendable, Shown, DeviceChar, Chardec;
    ReplyCharsCons(rs, rest);
    Recognise(rs[0]);
    var six := ReplySix(rs[0]);
    ShownCons(six);
    HostReads(DeviceChar(six[0]));
    var tail, more := Shown(six[1..]), AllReplyChars(rs[1..]) + rest;
    assert AllReplyChars(rs) + rest == [DeviceChar(six[0])] + tail + more;
  }

  lemma LineOpens(rs: seq<Reply>, rest: string)
    requires rs != [] && AllSendable(rs) && rs[0] == Line
    ensures AllSendable(rs[1..])
    ensures var s := AllReplyChars(rs) + rest;
            s != [] && Chardec(s[0]) == 0x100 && s[1..] == AllReplyChars(rs[1..]) + rest
  {
    ReplyCharsCons(rs, rest);
    hide AllReplyChars, Sendable;
  }

  lemma Shifted(h: nat, p: nat, n: nat, d: nat)
    ensures (h * p + n) * 64 + d == h * (64 * p) + (n * 64 + d)
  {
  }

  lemma ShownNone(six: seq<sixbit>, rest: string)
    requires |six| == 1
    ensures Shown(six[1..]) + rest == rest
  {
  }

  lemma ReadWordFault(s: Reader, rs: seq<Reply>)
    requires s.Valid() && Answers(rs) && IsFault(rs[0])
    ensures ReadWord(s, rs) == (BusError, s.(busErr := true), rs[1..])
  {
  }

  lemma ReadWordEnds(s: Reader, rs: seq<Reply>)
    requires s.Valid() && Answers(rs) && IsData(rs[0])
    ensures var (o, s') := Finish(s, rs[0]); ReadWord(s, rs) == (o, s', rs[1..])
  {
  }

  // ---------- Reading a block ----------

  /** Part way through a read that comes to b: these words have been read, and
      n are still to come. */
  ghost predicate Reading(b: Block, s: Reader, left: seq<Reply>, got: seq<nat>, n: nat) {
    && s.Valid() && Enough(left, n)
    && var more := ReadAll(s, left, n);
       b == more.(words := got + more.words)
  }

  lemma StartReading(s: Reader, rs: seq<Reply>, n: nat)
    requires s.Valid() && Enough(rs, n)
    ensures Reading(ReadAll(s, rs, n), s, rs, [], n)
  {
    hide ReadAll, Enough;
  }

  lemma NextReading(b: Block, s: Reader, left: seq<Reply>, got: seq<nat>, n: nat)
    requires Reading(b, s, left, got, n) && n > 0
    ensures Answers(left)
    ensures var (o, s', left') := ReadWord(s, left);
            match o
            case Word(v) => Reading(b, s', left', got + [v], n - 1)
            case BusError => b == Block(got, true, s', left')
  {
    ReadWordRest(s, left);
    var (o, s', left') := ReadWord(s, left);
    hide ReadWord;
    match o
    case Word(v) =>
      var more := ReadAll(s', left', n - 1).words;
      assert got + ([v] + more) == got + [v] + more;
    case BusError =>
      assert got + [] == got;
  }

  lemma EndReading(b: Block, s: Reader, left: seq<Reply>, got: seq<nat>)
    requires Reading(b, s, left, got, 0)
    ensures b == Block(got, false, s, left)
  {
    assert got + [] == got;
  }

  /** The words asked for and not yet read, after some traffic: n for a request
      of n words, -1 for a word read. */
  function Outstanding(trace: seq<int>): int {
    if trace == [] then 0 else Outstanding(trace[..|trace| - 1]) + trace[|trace| - 1]
  }

  /** No word is read before it has been asked for, and the far end never owes
      more than its queue holds. */
  predicate Windowed(trace: seq<int>) {
    trace == [] || (Windowed(trace[..|trace| - 1]) && 0 <= Outstanding(trace) <= MAXRDLEN)
  }

  lemma MoreTraffic(trace: seq<int>, x: int)
    ensures Outstanding(trace + [x]) == Outstanding(trace) + x
    ensures Windowed(trace + [x]) <==> Windowed(trace) && 0 <= Outstanding(trace) + x <= MAXRDLEN
  {
    assert (trace + [x])[..|trace|] == trace;
  }

  lemma WindowHolds(trace: seq<int>)
    requires Windowed(trace)
    ensures 0 <= Outstanding(trace) <= 1024
  {
  }

  lemma NextBlock(len: nat, m: nat)
    requires Asked(len, m) < len
    ensures m < Blocks(len) && BlockSize(len, m) == if len - Asked(len, m) > 512 then 512 else len - Asked(len, m)
    ensures Asked(len, m + 1) == Asked(len, m) + BlockSize(len, m)
  {
  }

  lemma AllAsked(len: nat, m: nat)
    requires m <= Blocks(len) && Asked(len, m) == len
    ensures m == Blocks(len)
  {
  }

  lemma NextRequest(text: string, first: seq<Code>, inc: bool, len: nat, m: nat, t: string)
    requires m < Blocks(len) && 1 <= BlockSize(len, m) && Carries(text, first + Requests(inc, len, m))
    requires Spellable(RequestCode(inc, BlockSize(len, m))) && t == Chars(RequestCode(inc, BlockSize(len, m)))
    ensures Carries(text + t, first + Requests(inc, len, m + 1))
  {
    hide Carries, Chars, Spellable, RequestCode, BlockSize;
    var c := RequestCode(inc, BlockSize(len, m));
    CarriesCode(c);
    CarriesMore(text, first + Requests(inc, len, m), t, [c]);
    assert first + Requests(inc, len, m) + [c] == first + Requests(inc, len, m + 1);
  }

  lemma FirstRequest(text: string, first: seq<Code>, inc: bool, len: nat)
    requires AllSpellable(first) && text == AllChars(first)
    ensures Carries(text, first + Requests(inc, len, 0))
  {
    hide Carries, Spellable, AllChars;
    CarriesChars(first);
    assert first + Requests(inc, len, 0) == first;
  }

  lemma NoTraffic(len: nat)
    ensures Windowed([]) && Outstanding([]) == 0 && Asked(len, 0) == 0
  {
  }

  /** How a read ends: as it should, with an exception, or by leaving the program. */
  datatype ReadResult = Done | Threw(addr: nat) | Exited

  lemma Endings(w: nat, inc: bool, len: nat)
    requires w < ADDRS
    ensures 4 * ((w + len * Bit(inc)) % ADDRS) == (4 * w + 4 * Bit(inc) * len) % WORD
    ensures (w + len * Bit(inc)) % ADDRS == Moved(w, inc, len)
  {
  }

  lemma StepsNone(a: nat, inc: bool, mem: nat -> nat)
    requires a < WORD
    ensures var w := a / 4;
            w < ADDRS && Moved(w, inc, 0) == w && Loads(w, inc, 0) == [] && MemoryWords(mem, w, inc, 0) == []
  {
  }

  lemma StepsMore(w: nat, inc: bool, i: nat, mem: nat -> nat)
    requires w < ADDRS
    ensures Moved(w, inc, i + 1) == (Moved(w, inc, i) + Bit(inc)) % ADDRS
    ensures Loads(w, inc, i + 1) == Loads(w, inc, i) + Loads(Moved(w, inc, i), false, 1)
    ensures MemoryWords(mem, w, inc, i + 1) == MemoryWords(mem, w, inc, i) + [mem(Moved(w, inc, i))]
  {
    MovedOn(w, inc, i, 1);
    LoadsAppend(w, inc, i, 1);
    assert Loads(Moved(w, inc, i), inc, 1) == Loads(Moved(w, inc, i), false, 1);
  }

  lemma OneWord(mem: nat -> nat, w: nat)
    requires w < ADDRS
    ensures MemoryWords(mem, w, false, 1) == [mem(w)]
  {
  }

  lemma SameAddress(a: nat, n: nat)
    requires a < WORD
    ensures (a + 4 * Bit(false) * n) % WORD == a
  {
  }

  lemma NoReplies(rest: string)
    ensures AllSendable([]) && AllReplyChars([]) + rest == rest
  {
  }

  class TtyBus {
    var addrSet: bool
    var lastAddr: nat
    var wrLoaded: bool
    var wraddr: nat
    const writeTbl: array<nat>
    var rdaddr: nat
    const readTbl: array<nat>
    var interrupt: bool
    var busErr: bool
    /** All that has been written to the device, and all that can be read from it. */
    var sent: string
    var incoming: string
    /** The calls until the device has more of it. */
    var delay: nat
    /** The requests and words of the last read. */
    ghost var trace: seq<int>

    ghost predicate Valid()
      reads this, writeTbl, readTbl
    {
      && writeTbl != readTbl && writeTbl.Length == 512 && readTbl.Length == 1024
      && HostView().Valid() && ReaderView().Valid()
    }

    ghost function HostView(): Host
      requires writeTbl.Length == 512
      reads this, writeTbl
    {
      Host(addrSet, lastAddr, wrLoaded, wraddr, writeTbl[..256])
    }

    ghost function ReaderView(): Reader
      reads this, readTbl
    {
      Reader(addrSet, lastAddr, rdaddr, readTbl[..], interrupt, busErr)
    }

    /** replies is all that will come back. */
    constructor (replies: string)
      ensures Valid() && fresh(writeTbl) && fresh(readTbl)
      ensures !addrSet && !wrLoaded && wraddr == 0 && rdaddr == 0 && sent == [] && incoming == replies
      ensures forall f: Far, src: Source ::
                f.Valid() && f.wr == 0 && src.addr == f.addr && !src.announced ==> InStep(f, src)
    {
      var w, r := new nat[512](_ => 0), new nat[1024](_ => 0);
      writeTbl, readTbl := w, r;
      addrSet, lastAddr, wrLoaded, wraddr, rdaddr := false, 0, false, 0, 0;
      interrupt, busErr, sent, incoming, delay, trace := false, false, [], replies, 0, [];
    }

    /** The characters of a difference address: as many digits as it needs, or
        none at all if it does not fit in four. */
    method EncodeDiff(diffaddr: nat) returns (ptr: string)
      ensures ptr == DiffSpelling(diffaddr)
    {
      hide Charenc, Digits, Spell;
      DigitsOut(diffaddr);
      ptr := [];
      if diffaddr < 32 {
        SpellOut([0x09] + Digits(diffaddr, 1));
        ptr := ptr + [Charenc(0x09)];
        ptr := ptr + [Charenc(diffaddr % 64)];
      } else if diffaddr < 2048 {
        SpellOut([0x0b] + Digits(diffaddr, 2));
        ptr := ptr + [Charenc(0x0b)];
        ptr := ptr + [Charenc(diffaddr / 64 % 64)];
        ptr := ptr + [Charenc(diffaddr % 64)];
      } else if diffaddr < 0x2_0000 {
        SpellOut([0x0d] + Digits(diffaddr, 3));
        ptr := ptr + [Charenc(0x0d)];
        ptr := ptr + [Charenc(diffaddr / 0x1000 % 64)];
        ptr := ptr + [Charenc(diffaddr / 64 % 64)];
        ptr := ptr + [Charenc(diffaddr % 64)];
      } else if diffaddr < 0x80_0000 {
        SpellOut([0x0f] + Digits(diffaddr, 4));
        ptr := ptr + [Charenc(0x0f)];
        ptr := ptr + [Charenc(diffaddr / 0x4_0000 % 64)];
        ptr := ptr + [Charenc(diffaddr / 0x1000 % 64)];
        ptr := ptr + [Charenc(diffaddr / 64 % 64)];
        ptr := ptr + [Charenc(diffaddr % 64)];
      }
    }

    /** The absolute form, if it is no longer than what has been encoded. */
    method EncodeAbsolute(addr: nat, diff: string) returns (ptr: string)
      requires addr < ADDRS
      ensures ptr == AbsoluteSpelling(addr, diff)
    {
      hide Charenc, Digits, Spell;
      DigitsOut(addr);
      ptr := diff;
      if addr <= 0x3f && (ptr == [] || |ptr| >= 2) {
        SpellOut([0x08] + Digits(addr, 1));
        ptr := [Charenc(0x08)];
        ptr := ptr + [Charenc(addr)];
      } else if addr <= 0xfff && (ptr == [] || |ptr| >= 3) {
        SpellOut([0x0a] + Digits(addr, 2));
        ptr := [Charenc(0x0a)];
        ptr := ptr + [Charenc(addr / 64 % 64)];
        ptr := ptr + [Charenc(addr % 64)];
      } else if addr <= 0x3_ffff && (ptr == [] || |ptr| >= 4) {
        SpellOut([0x0c] + Digits(addr, 3));
        ptr := [Charenc(0x0c)];
        ptr := ptr + [Charenc(addr / 0x1000 % 64)];
        ptr := ptr + [Charenc(addr / 64 % 64)];
        ptr := ptr + [Charenc(addr % 64)];
      } else if addr <= 0xff_ffff && (ptr == [] || |ptr| >= 5) {
        SpellOut([0x0e] + Digits(addr, 4));
        ptr := [Charenc(0x0e)];
        ptr := ptr + [Charenc(addr / 0x4_0000 % 64)];
        ptr := ptr + [Charenc(addr / 0x1000 % 64)];
        ptr := ptr + [Charenc(addr / 64 % 64)];
        ptr := ptr + [Charenc(addr % 64)];
      } else if ptr == [] {
        ptr := Encode(0, addr);
      }
    }

    /** encode(): two bits in front, then thirty-two. */
    method Encode(hb: nat, val: nat) returns (buf: string)
      requires hb < 16 && val < WORD
      ensures buf == Spell([hb * 4 + val / ADDRS] + Digits(val % ADDRS, 5))
    {
      hide Charenc, Digits, Spell;
      var v := val % ADDRS;
      DigitsOut(v);
      SpellOut([hb * 4 + val / ADDRS] + Digits(v, 5));
      buf := [Charenc(hb * 4 + val / ADDRS), Charenc(v / 0x100_0000 % 64), Charenc(v / 0x4_0000 % 64),
              Charenc(v / 0x1000 % 64), Charenc(v / 64 % 64), Charenc(v % 64)];
    }

    /** encode_address(): the characters that make a the address; the read
        table starts afresh if there are any.  A misaligned address throws. */
    method EncodeAddress(a: nat) returns (thrown: bool, ptr: string)
      requires Valid() && a < WORD
      modifies this`rdaddr
      ensures Valid()
      ensures thrown <==> a % 4 != 0
      ensures !thrown ==> AllSpellable(AddressCodes(HostView(), a)) && ptr == AllChars(AddressCodes(HostView(), a))
      ensures ReaderView() == if thrown then old(ReaderView()) else StartReader(old(ReaderView()), a)
    {
      hide DiffSpelling, AbsoluteSpelling, AddressCodes, AllChars, DiffCode;
      AddressNone(HostView(), a);
      var addr := a / 4;
      ptr := [];
      if a % 4 != 0 {
        return true, [];
      }
      if addrSet && a == lastAddr {
        return false, [];
      }
      if addrSet {
        var diffaddr := (a - lastAddr) % WORD / 4;
        ptr := EncodeDiff(diffaddr);
      }
      AddressSpelled(HostView(), a, ptr);
      ptr := EncodeAbsolute(addr, ptr);
      rdaddr := 0;
      thrown := false;
    }

    /** How far back in the table of words sent this word is, or 0. */
    method FindBack(val: nat) returns (caddr: nat)
      requires Valid()
      ensures caddr == FindRef(HostView(), val, 1)
    {
      ghost var h := HostView();
      assert FindRef(h, val, 256) == 0;
      hide FindRef;
      var i := 1;
      while i < 256
        invariant 1 <= i <= 256
        invariant FindRef(h, val, 1) == FindRef(h, val, i)
      {
        var tstaddr := (wraddr - i) % 256;
        FindRefStep(h, val, i, tstaddr);
        if !wrLoaded && tstaddr > wraddr {
          return 0;
        }
        if writeTbl[tstaddr] == val {
          return (wraddr - tstaddr) % 256;
        }
        i := i + 1;
      }
      caddr := 0;
    }

    /** The characters of a reference to the table, or of the word itself. */
    method SpellWord(p: bool, val: nat, caddr: nat) returns (ptr: string)
      requires val < WORD && caddr < 256
      ensures ptr == Chars(if caddr != 0 then WriteRef(p, caddr) else WriteRaw(p, val))
    {
      hide Charenc, Digits, Spell;
      if caddr != 0 {
        SpellOut([0x10 + caddr / 64 * 2 + Bit(p), caddr % 64]);
        ptr := [Charenc(caddr / 64 % 4 * 2 + (if p then 1 else 0) + 0x10)];
        ptr := ptr + [Charenc(caddr % 64)];
      } else {
        var low := val % ADDRS;
        DigitsOut(low);
        SpellOut([0x18 + val / ADDRS * 2 + Bit(p)] + Digits(low, 5));
        ptr := [Charenc(val / ADDRS % 4 * 2 + (if p then 1 else 0) + 0x18)];
        ptr := ptr + [Charenc(low / 0x100_0000 % 64)];
        ptr := ptr + [Charenc(low / 0x4_0000 % 64)];
        ptr := ptr + [Charenc(low / 0x1000 % 64)];
        ptr := ptr + [Charenc(low / 64 % 64)];
        ptr := ptr + [Charenc(low % 64)];
      }
    }

    /** One word of writev(): its characters, and the table after it. */
    method WriteWord(p: bool, val: nat) returns (ptr: string)
      requires Valid() && val < WORD
      modifies this`lastAddr, this`wrLoaded, this`wraddr, writeTbl
      ensures Valid()
      ensures Spellable(WordCode(old(HostView()), p, val).0)
      ensures ptr == Chars(WordCode(old(HostView()), p, val).0)
      ensures HostView() == WordCode(old(HostView()), p, val).1
    {
      hide FindRef, Chars;
      var caddr := FindBack(val);
      ptr := SpellWord(p, val, caddr);
      if caddr == 0 {
        writeTbl[wraddr] := val;
        wraddr := (wraddr + 1) % 256;
        if wraddr == 0 {
          wrLoaded := true;
        }
      }
      if p {
        lastAddr := (lastAddr + 4) % WORD;
      }
    }

    /** Some words of writev(), put behind the characters in start; before is
        what the device has had already. */
    method WriteSome(p: bool, buf: seq<nat>, nw: nat, ln: nat, start: string,
                     ghost before: string, ghost total: seq<Code>, ghost end: Host)
      returns (ptr: string)
      requires Valid() && nw + ln <= |buf| && forall i :: 0 <= i < |buf| ==> buf[i] < WORD
      requires Progress(before + start, HostView(), p, buf[nw..], total, end)
      modifies this`lastAddr, this`wrLoaded, this`wraddr, writeTbl
      ensures Valid() && Progress(before + ptr, HostView(), p, buf[nw + ln..], total, end)
    {
      hide WordCode, Spellable, Chars, Progress;
      ptr := start;
      var i := 0;
      while i < ln
        invariant 0 <= i <= ln && Valid() && Progress(before + ptr, HostView(), p, buf[nw + i..], total, end)
      {
        ghost var h, rest, text := HostView(), buf[nw + i..], before + ptr;
        assert rest[0] == buf[nw + i] && rest[1..] == buf[nw + i + 1..];
        var s := WriteWord(p, buf[nw + i]);
        MoreProgress(text, h, p, rest, total, end);
        assert text + s == before + (ptr + s);
        ptr := ptr + s;
        i := i + 1;
      }
    }

    /** writev(): the address, then all the words, MAXWRLEN at a time, with a
        line end behind the last of them. */
    method Writev(a: nat, p: bool, buf: seq<nat>) returns (thrown: bool)
      requires Valid() && a < WORD && forall i :: 0 <= i < |buf| ==> buf[i] < WORD
      modifies this`addrSet, this`lastAddr, this`wrLoaded, this`wraddr, this`rdaddr, this`sent, writeTbl
      ensures Valid()
      ensures thrown <==> a % 4 != 0
      ensures thrown ==> HostView() == old(HostView()) && ReaderView() == old(ReaderView()) && sent == old(sent)
      ensures !thrown ==>
        var (cs, h) := WriteCall(old(HostView()), a, p, buf);
        && HostView() == h && AllSpellable(cs)
        && sent == old(sent) + AllChars(cs) + if buf == [] then "" else "\n"
      ensures !thrown ==>
        ReaderView() == StartReader(old(ReaderView()), a).(addrSet := true, lastAddr := lastAddr)
    {
      hide WordCode, WordCodes, Spellable, AllChars, AddressCodes, Progress;
      var ptr;
      thrown, ptr := EncodeAddress(a);
      if thrown {
        return;
      }
      ghost var first := AddressCodes(HostView(), a);
      lastAddr, addrSet := a, true;
      ghost var (more, end) := WordCodes(HostView(), p, buf);
      StartProgress(ptr, HostView(), p, buf, first);
      if buf == [] {
        AllNone(HostView(), p);
        return;
      }
      ghost var total, was, before := first + more, sent, "";
      assert "" + ptr == ptr && buf[0..] == buf;
      var nw := 0;
      while nw < |buf|
        invariant 0 <= nw <= |buf| && Valid() && addrSet && rdaddr == StartReader(old(ReaderView()), a).rdaddr
        invariant Progress(before + ptr, HostView(), p, buf[nw..], total, end)
        invariant if nw < |buf| then sent == was + before else sent == was + before + "\n" && ptr == ""
      {
        var ln := |buf| - nw;
        if ln > MAXWRLEN {
          ln := MAXWRLEN;
        }
        ptr := WriteSome(p, buf, nw, ln, ptr, before, total, end);
        before := before + ptr;
        if ln == |buf| - nw {
          ptr := ptr + "\n";
        }
        sent := sent + ptr;
        nw := nw + ln;
        ptr := "";
        assert before + "" == before;
      }
      assert buf[nw..] == [] && before + ptr == before;
      EndProgress(before, HostView(), p, total, end);
    }

    // ---------- Reading ----------

    /** lclreadcode(): the next characters, n at most, or none if the device has
        nothing yet.  Sooner or later it has. */
    method LclReadCode(n: nat) returns (got: string)
      requires 0 < n <= |incoming|
      modifies this`incoming, this`delay
      ensures |got| <= n && old(incoming) == got + incoming
      ensures got == "" ==> delay < old(delay)
    {
      if delay > 0 {
        delay := delay - 1;
        return "";
      }
      var some: nat := *;
      var nr := 1 + some % n;
      got, incoming := incoming[..nr], incoming[nr..];
      delay := *;
    }

    /** The next n characters, however long the device takes over them. */
    method ReadChars(n: nat) returns (buf: string)
      requires n <= |incoming|
      modifies this`incoming, this`delay
      ensures |buf| == n && old(incoming) == buf + incoming
    {
      buf := "";
      while |buf| < n
        invariant |buf| <= n && old(incoming) == buf + incoming
        decreases n - |buf|, delay
      {
        var more := LclReadCode(n - |buf|);
        buf := buf + more;
      }
    }

    /** The value of the next n characters of a codeword, the first being the
        most significant. */
    method ReadDigits(n: nat, high: nat, ghost six: seq<sixbit>, ghost rest: string) returns (val: nat)
      requires |six| == n && incoming == Shown(six) + rest && n <= 5
      modifies this`incoming, this`delay
      ensures val == high * Pow64(n) + Num(six) && incoming == rest
    {
      hide DeviceChar, Chardec;
      ghost var all := incoming;
      var buf := ReadChars(n);
      assert all[..n] == Shown(six) && incoming == all[n..] == rest;
      val := high;
      var i := 0;
      assert Num(six[..0]) == 0 && high * Pow64(0) == high;
      while i < n
        invariant 0 <= i <= n && val == high * Pow64(i) + Num(six[..i]) && incoming == rest
      {
        HostReads(DeviceChar(six[i]));
        assert six[..i + 1][..i] == six[..i];
        Shifted(high, Pow64(i), Num(six[..i]), six[i]);
        val := val * 64 + Chardec(buf[i]) % 64;
        i := i + 1;
      }
      assert six[..n] == six;
    }

    /** Just read the first character of this reply? */
    ghost predicate Opened(r: Reply, sixbits: nat, rest: string)
      reads this`incoming
    {
      && Sendable(r) && r != Line
      && var six := ReplySix(r);
         |six| > 0 && Recognised(r, six) && sixbits == six[0] && incoming == Shown(six[1..]) + rest
    }

    /** The rest of an address from the far end. */
    method ReadAddress(sixbits: nat, ghost r: Reply, ghost rest: string)
      requires Valid() && Opened(r, sixbits, rest) && (r.AddrWide? || r.AddrSmall?)
      modifies this`addrSet, this`lastAddr, this`incoming, this`delay
      ensures Valid() && ReaderView() == Note(old(ReaderView()), r) && incoming == rest
    {
      Pow64s();
      hide Num, Pow64, ReplySix, Shown;
      var val;
      ghost var six := ReplySix(r);
      if sixbits / 4 % 16 == 2 {
        val := ReadDigits(5, sixbits % 4, six[1..], rest);
      } else {
        val := ReadDigits(sixbits % 4 + 1, 0, six[1..], rest);
      }
      addrSet := true;
      lastAddr := val * 4 % WORD;
    }

    /** The first character of the next reply. */
    method ReadFirst(ghost rs: seq<Reply>, ghost rest: string) returns (sixbits: nat)
      requires rs != [] && AllSendable(rs) && incoming == AllReplyChars(rs) + rest
      modifies this`incoming, this`delay
      ensures AllSendable(rs[1..])
      ensures var more := AllReplyChars(rs[1..]) + rest;
              if rs[0] == Line then sixbits == 0x100 && incoming == more
              else sixbits < 64 && Opened(rs[0], sixbits, more) && (|ReplySix(rs[0])| == 1 ==> incoming == more)
    {
      hide Sendable, AllReplyChars, ReplySix, Chardec, Shown, Recognised;
      if rs[0] == Line {
        LineOpens(rs, rest);
      } else {
        ReplyOpens(rs, rest);
        if |ReplySix(rs[0])| == 1 {
          ShownNone(ReplySix(rs[0]), AllReplyChars(rs[1..]) + rest);
        }
      }
      var buf := ReadChars(1);
      sixbits := Chardec(buf[0]);
    }

    /** readword() up to the first character of a word, or to a fault. */
    method ReadHead(ghost rs: seq<Reply>, ghost rest: string)
      returns (thrown: bool, sixbits: nat, ghost left: seq<Reply>)
      requires Valid() && AllSendable(rs) && Answers(rs) && incoming == AllReplyChars(rs) + rest
      modifies this`addrSet, this`lastAddr, this`interrupt, this`busErr, this`incoming, this`delay
      ensures Valid() && AllSendable(left)
      ensures thrown ==> ReadWord(old(ReaderView()), rs) == (BusError, ReaderView(), left)
      ensures thrown ==> incoming == AllReplyChars(left) + rest
      ensures !thrown ==> Answers(left) && ReadWord(old(ReaderView()), rs) == ReadWord(ReaderView(), left)
      ensures !thrown ==> IsData(left[0]) && Opened(left[0], sixbits, AllReplyChars(left[1..]) + rest)
      ensures !thrown ==> |ReplySix(left[0])| == 1 ==> incoming == AllReplyChars(left[1..]) + rest
    {
      hide Sendable, AllReplyChars, ReplySix, ReadWord, Opened, IsData, IsFault;
      left := rs;
      ghost var first := ReadWord(ReaderView(), rs);
      while true
        invariant Valid() && AllSendable(left) && Answers(left) && incoming == AllReplyChars(left) + rest
        invariant ReadWord(ReaderView(), left) == first
        decreases |left|
      {
        ghost var s, r, more := ReaderView(), left[0], AllReplyChars(left[1..]) + rest;
        sixbits := ReadFirst(left, rest);
        Kinds(r, sixbits, more);
        if sixbits >= 64 {
        } else if sixbits < 6 {
          if sixbits == 3 || sixbits == 5 {
            busErr := true;
            ReadWordFault(s, left);
            left := left[1..];
            return true, sixbits, left;
          } else if sixbits == 4 {
            interrupt := true;
          }
        } else if sixbits / 4 == 2 || sixbits / 4 == 3 {
          ReadAddress(sixbits, r, more);
        } else {
          return false, sixbits, left;
        }
        ReadWordSkips(s, left);
        left := left[1..];
      }
    }

    /** What the first character says about the reply. */
    lemma Kinds(r: Reply, sixbits: nat, rest: string)
      requires if r == Line then sixbits == 0x100 else sixbits < 64 && Opened(r, sixbits, rest)
      ensures IsFault(r) <==> sixbits == 3 || sixbits == 5
      ensures IsData(r) <==> 6 <= sixbits < 64 && sixbits / 4 != 2 && sixbits / 4 != 3
      ensures r.AddrWide? || r.AddrSmall? <==> sixbits < 64 && (sixbits / 4 == 2 || sixbits / 4 == 3)
      ensures sixbits < 6 ==> |ReplySix(r)| == 1 && (r.Interrupt? <==> sixbits == 4)
    {
      hide Shown, Num, Sendable, Shown;
    }

    /** readword(): the next word from the far end, or a fault thrown. */
    method Readword(ghost rs: seq<Reply>, ghost rest: string)
      returns (thrown: bool, val: nat, ghost left: seq<Reply>)
      requires Valid() && AllSendable(rs) && Answers(rs) && incoming == AllReplyChars(rs) + rest
      modifies this`addrSet, this`lastAddr, this`rdaddr, this`interrupt, this`busErr, this`incoming, this`delay, readTbl
      ensures Valid() && AllSendable(left) && incoming == AllReplyChars(left) + rest
      ensures ReadWord(old(ReaderView()), rs) == (if thrown then BusError else Word(val), ReaderView(), left)
    {
      hide Sendable, AllReplyChars, ReplySix, Shown, ReadWord, Answers;
      var sixbits;
      thrown, sixbits, left := ReadHead(rs, rest);
      if thrown {
        val := 0;
        return;
      }
      ReadWordEnds(ReaderView(), left);
      val := ReadData(sixbits, left[0], AllReplyChars(left[1..]) + rest);
      left := left[1..];
    }

    /** Which of its forms a word has, and what it refers to. */
    lemma Forms(r: Reply, sixbits: nat, rest: string)
      requires IsData(r) && Opened(r, sixbits, rest)
      ensures |ReplySix(r)| > 0 && r.inc == (sixbits % 2 == 1)
      ensures var num := Num(ReplySix(r)[1..]);
              if sixbits / 2 % 32 == 3 then r.Last? && |ReplySix(r)| == 1
              else if sixbits / 16 == 1 then r.Older? && |ReplySix(r)| == 2 && r.back == sixbits / 2 % 8 * 64 + num + 10
              else if sixbits / 16 == 2 then r.Recent? && |ReplySix(r)| == 1 && r.back == sixbits / 2 % 8 + 2
              else r.Raw? && |ReplySix(r)| == 6 && r.val == sixbits / 2 % 4 * ADDRS + num
    {
      hide Num, ReplySix, Shown, Sendable;
    }

    /** The rest of a word sent in full. */
    method ReadRaw(sixbits: nat, ghost r: Reply, ghost rest: string) returns (val: nat)
      requires Valid() && r.Raw? && Opened(r, sixbits, rest)
      modifies this`rdaddr, this`incoming, this`delay, readTbl
      ensures Valid() && incoming == rest
      ensures val == r.val && ReaderView() == old(ReaderView()).Push(val)
    {
      Pow64s();
      hide Num, Pow64, ReplySix, Shown, Recognised, Sendable;
      Forms(r, sixbits, rest);
      val := ReadDigits(5, sixbits / 2 % 4, ReplySix(r)[1..], rest);
      readTbl[rdaddr] := val;
      rdaddr := (rdaddr + 1) % 1024;
    }

    /** How far back a long reference goes. */
    method ReadIndex(sixbits: nat, ghost r: Reply, ghost rest: string) returns (idx: nat)
      requires r.Older? && Opened(r, sixbits, rest)
      modifies this`incoming, this`delay
      ensures idx == r.back && incoming == rest
    {
      Pow64s();
      hide Num, Pow64, ReplySix, Shown, Recognised, Sendable;
      Forms(r, sixbits, rest);
      var low := ReadDigits(1, 0, ReplySix(r)[1..], rest);
      idx := sixbits / 2 % 8 * 64 + low + 2 + 8;
    }

    /** The rest of a word: out of the table, or in full. */
    method ReadData(sixbits: nat, ghost r: Reply, ghost rest: string) returns (val: nat)
      requires Valid() && IsData(r) && Opened(r, sixbits, rest)
      requires |ReplySix(r)| == 1 ==> incoming == rest
      modifies this`lastAddr, this`rdaddr, this`incoming, this`delay, readTbl
      ensures Valid() && incoming == rest
      ensures Finish(old(ReaderView()), r) == (Word(val), ReaderView())
    {
      Forms(r, sixbits, rest);
      hide Opened, ReplySix, NextLast;
      if sixbits / 2 % 32 == 3 {
        val := readTbl[(rdaddr - 1) % 1024];
      } else if sixbits / 16 == 1 {
        var idx := ReadIndex(sixbits, r, rest);
        val := readTbl[(rdaddr - idx) % 1024];
      } else if sixbits / 16 == 2 {
        var idx := sixbits / 2 % 8 + 2;
        val := readTbl[(rdaddr - idx) % 1024];
      } else {
        val := ReadRaw(sixbits, r, rest);
      }
      NextLastFits(lastAddr, sixbits % 2 == 1);
      lastAddr := NextLast(lastAddr, sixbits % 2 == 1);
    }

    /** readcmd(): the characters of a request. */
    method Readcmd(inc: bool, len: int) returns (ptr: string)
      requires 0 < len < 520
      ensures Spellable(RequestCode(inc, len)) && ptr == Chars(RequestCode(inc, len))
    {
      hide Charenc, Spell;
      if len <= 8 {
        SpellOut([0x20 + (len - 1) * 2 + Bit(inc)]);
        ptr := [Charenc(0x20 + (len - 1) % 8 * 2 + (if inc then 1 else 0))];
      } else {
        SpellOut([0x30 + (len - 9) / 64 * 2 + Bit(inc), (len - 9) % 64]);
        ptr := [Charenc(0x30 + (len - 9) / 64 * 2 + (if inc then 1 else 0))];
        ptr := ptr + [Charenc((len - 9) % 64)];
      }
    }

    /** Words read into the buffer, until there are limit of them. */
    method ReadSome(got: seq<nat>, limit: int, ghost b: Block, ghost rs: seq<Reply>, ghost rest: string, ghost len: nat)
      returns (thrown: bool, buf: seq<nat>, ghost left: seq<Reply>)
      requires Valid() && AllSendable(rs) && incoming == AllReplyChars(rs) + rest
      requires |got| <= len && limit <= len && Reading(b, ReaderView(), rs, got, len - |got|)
      requires Windowed(trace) && |got| + Outstanding(trace) >= limit
      modifies this`addrSet, this`lastAddr, this`rdaddr, this`interrupt, this`busErr, this`incoming,
               this`delay, this`trace, readTbl
      ensures Valid() && AllSendable(left) && incoming == AllReplyChars(left) + rest
      ensures thrown ==> b == Block(buf, true, ReaderView(), left)
      ensures !thrown ==> |buf| == (if |got| < limit then limit else |got|)
      ensures !thrown ==> Reading(b, ReaderView(), left, buf, len - |buf|)
      ensures Windowed(trace) && |buf| + Outstanding(trace) == |got| + old(Outstanding(trace))
    {
      hide Sendable, AllReplyChars, Reading, ReadWord, Answers, Outstanding, Windowed;
      thrown, buf, left := false, got, rs;
      while |buf| < limit
        invariant Valid() && AllSendable(left) && incoming == AllReplyChars(left) + rest
        invariant |got| <= |buf| <= len && (|got| < limit ==> |buf| <= limit) && (|got| >= limit ==> buf == got)
        invariant Reading(b, ReaderView(), left, buf, len - |buf|)
        invariant Windowed(trace) && |buf| + Outstanding(trace) == |got| + old(Outstanding(trace))
      {
        NextReading(b, ReaderView(), left, buf, len - |buf|);
        var val;
        thrown, val, left := Readword(left, rest);
        if thrown {
          return;
        }
        WindowHolds(trace);
        MoreTraffic(trace, -1);
        trace := trace + [-1];
        buf := buf + [val];
      }
    }

    /** Requests, READBLOCK words at a time, until two blocks are outstanding
        or everything has been asked for. */
    method Request(inc: bool, len: nat, cmdrd0: nat, nread: nat, start: string,
                   ghost before: string, ghost first: seq<Code>, ghost m0: nat)
      returns (ptr: string, cmdrd: nat, ghost m: nat)
      requires nread <= cmdrd0 < len && m0 <= Blocks(len) && cmdrd0 == Asked(len, m0)
      requires cmdrd0 - nread == 0 || cmdrd0 - nread == 512
      requires Carries(before + start, first + Requests(inc, len, m0))
      requires Windowed(trace) && Outstanding(trace) == cmdrd0 - nread
      modifies this`trace
      ensures m0 < m <= Blocks(len) && cmdrd == Asked(len, m) && Carries(before + ptr, first + Requests(inc, len, m))
      ensures Windowed(trace) && Outstanding(trace) == cmdrd - nread
      ensures cmdrd0 < cmdrd <= len && (cmdrd == len || cmdrd - nread == 1024)
    {
      hide Carries, Requests, RequestCode, Spellable, Chars, Outstanding, Windowed;
      ptr, cmdrd, m := start, cmdrd0, m0;
      while true
        invariant m0 <= m <= Blocks(len) && cmdrd0 <= cmdrd < len && cmdrd == Asked(len, m)
        invariant m == m0 || cmdrd > cmdrd0
        invariant cmdrd - nread == 0 || cmdrd - nread == 512
        invariant Carries(before + ptr, first + Requests(inc, len, m))
        invariant Windowed(trace) && Outstanding(trace) == cmdrd - nread
        decreases len - cmdrd
      {
        var nrd := len - cmdrd;
        if nrd > 512 {
          nrd := 512;
        }
        if cmdrd - nread + nrd > 1024 {
          nrd := 1024 - (cmdrd - nread);
        }
        NextBlock(len, m);
        var s := Readcmd(inc, nrd);
        NextRequest(before + ptr, first, inc, len, m, s);
        assert before + ptr + s == before + (ptr + s);
        MoreTraffic(trace, nrd);
        trace := trace + [nrd];
        ptr, cmdrd, m := ptr + s, cmdrd + nrd, m + 1;
        if !(cmdrd - nread < 1024 && cmdrd < len) {
          return;
        }
      }
    }

    /** The requests of a read and its words, as they come. */
    method ReadBlocks(start: string, inc: bool, len: nat, ghost first: seq<Code>,
                      ghost rs: seq<Reply>, ghost rest: string)
      returns (thrown: bool, buf: seq<nat>, ghost left: seq<Reply>, ghost text: string, ghost m: nat)
      requires Valid() && AllSendable(rs) && incoming == AllReplyChars(rs) + rest && Enough(rs, len)
      requires AllSpellable(first) && start == AllChars(first) && len > 0
      modifies this`addrSet, this`lastAddr, this`rdaddr, this`interrupt, this`busErr, this`sent, this`incoming,
               this`delay, this`trace, readTbl
      ensures Valid() && AllSendable(left) && incoming == AllReplyChars(left) + rest
      ensures ReadAll(old(ReaderView()), rs, len) == Block(buf, thrown, ReaderView(), left)
      ensures m <= Blocks(len) && (!thrown ==> m == Blocks(len))
      ensures sent == old(sent) + text && Carries(text, first + Requests(inc, len, m))
      ensures Windowed(trace) && |buf| + Outstanding(trace) == Asked(len, m)
    {
      hide AllChars, AllReplyChars, Enough, ReadAll, Reading, Sendable, Spellable, Carries, Requests,
           Windowed, Outstanding, Blocks, Asked;
      ghost var b := ReadAll(ReaderView(), rs, len);
      StartReading(ReaderView(), rs, len);
      FirstRequest(start, first, inc, len);
      NoTraffic(len);
      assert "" + start == start;
      text, m, buf, left, trace := "", 0, [], rs, [];
      var ptr, cmdrd := start, 0;
      while cmdrd < len
        invariant Valid() && AllSendable(left) && incoming == AllReplyChars(left) + rest
        invariant 0 <= |buf| <= cmdrd <= len && m <= Blocks(len) && cmdrd == Asked(len, m)
        invariant cmdrd < len ==> cmdrd - |buf| == 0 || cmdrd - |buf| == 512
        invariant Reading(b, ReaderView(), left, buf, len - |buf|)
        invariant sent == old(sent) + text && Carries(text + ptr, first + Requests(inc, len, m))
        invariant cmdrd > 0 ==> ptr == ""
        invariant Windowed(trace) && Outstanding(trace) == cmdrd - |buf|
      {
        ptr, cmdrd, m := Request(inc, len, cmdrd, |buf|, ptr, text, first, m);
        CarriesLine(text + ptr, first + Requests(inc, len, m));
        assert text + ptr + "\n" == text + (ptr + "\n");
        ptr := ptr + "\n";
        sent := sent + ptr;
        text := text + ptr;
        assert text + "" == text;
        thrown, buf, left := ReadSome(buf, cmdrd - 512, b, left, rest, len);
        if thrown {
          return;
        }
        ptr := "";
      }
      AllAsked(len, m);
      assert text + "" == text;
      thrown, buf, left := ReadSome(buf, len, b, left, rest, len);
      if !thrown {
        EndReading(b, ReaderView(), left, buf);
      }
    }

    /** readv(): a read of len words.  What is sent carries the address and the
        requests, and the words are those of so many calls of readword(). */
    method Readv(a: nat, inc: bool, len: int, ghost rs: seq<Reply>, ghost rest: string)
      returns (result: ReadResult, buf: seq<nat>, ghost left: seq<Reply>, ghost text: string, ghost m: nat)
      requires Valid() && a < WORD && AllSendable(rs) && incoming == AllReplyChars(rs) + rest
      requires len > 0 && a % 4 == 0 ==> Enough(rs, len)
      modifies this`addrSet, this`lastAddr, this`rdaddr, this`interrupt, this`busErr, this`sent, this`incoming,
               this`delay, this`trace, readTbl
      ensures Valid() && AllSendable(left) && incoming == AllReplyChars(left) + rest
      ensures sent == old(sent) + text
      ensures len <= 0 || a % 4 != 0 ==>
        && result == (if len <= 0 then Done else Threw(a)) && buf == [] && left == rs
        && HostView() == old(HostView()) && ReaderView() == old(ReaderView()) && text == ""
      ensures len > 0 && a % 4 == 0 ==>
        var b := ReadAll(StartReader(old(ReaderView()), a), rs, len);
        && b == Block(buf, b.fault, ReaderView(), left)
        && result == (if b.fault then Threw((a + 4 * Bit(inc) * |buf|) % WORD)
                      else if lastAddr == (a + 4 * Bit(inc) * len) % WORD then Done else Exited)
        && Windowed(trace) && m <= Blocks(len) && (!b.fault ==> m == Blocks(len))
        && |buf| + Outstanding(trace) == Asked(len, m)
        && Carries(text, AddressCodes(old(HostView()), a) + Requests(inc, len, m))
    {
      hide AddressCodes, AllChars, AllReplyChars, Enough, ReadAll, Sendable, Spellable, Carries, Requests,
           Windowed, Outstanding, Blocks, Asked;
      buf, left, text, m := [], rs, "", 0;
      if len <= 0 {
        return Done, [], rs, "", 0;
      }
      var thrown, ptr := EncodeAddress(a);
      if thrown {
        return Threw(a), [], rs, "", 0;
      }
      thrown, buf, left, text, m := ReadBlocks(ptr, inc, len, AddressCodes(old(HostView()), a), rs, rest);
      if thrown {
        result := Threw((a + (if inc then |buf| * 4 else 0)) % WORD);
      } else {
        result := if lastAddr != (a + (if inc then len * 4 else 0)) % WORD then Exited else Done;
      }
    }

    /** readio(): one word.  Its own test of the address never fails, as readv()
        has made the same one. */
    method Readio(a: nat, ghost rs: seq<Reply>, ghost rest: string)
      returns (result: ReadResult, v: nat, ghost left: seq<Reply>, ghost text: string)
      requires Valid() && a < WORD && AllSendable(rs) && incoming == AllReplyChars(rs) + rest
      requires a % 4 == 0 ==> Enough(rs, 1)
      modifies this`addrSet, this`lastAddr, this`rdaddr, this`interrupt, this`busErr, this`sent, this`incoming,
               this`delay, this`trace, readTbl
      ensures Valid() && AllSendable(left) && incoming == AllReplyChars(left) + rest
      ensures sent == old(sent) + text
      ensures a % 4 != 0 ==>
        && result == Threw(a) && left == rs && text == ""
        && HostView() == old(HostView()) && ReaderView() == old(ReaderView())
      ensures a % 4 == 0 ==>
        var b := ReadAll(StartReader(old(ReaderView()), a), rs, 1);
        && b == Block(if b.fault then [] else [v], b.fault, ReaderView(), left)
        && result == (if b.fault then Threw(a) else if lastAddr == a then Done else Exited)
        && (!b.fault ==> Carries(text, AddressCodes(old(HostView()), a) + Requests(false, 1, Blocks(1))))
    {
      hide AddressCodes, AllReplyChars, Enough, ReadAll, Sendable, Carries, Requests, Windowed, Outstanding;
      SameAddress(a, 0);
      SameAddress(a, 1);
      ghost var m;
      var buf;
      result, buf, left, text, m := Readv(a, false, 1, rs, rest);
      v := if buf == [] then 0 else buf[0];
      match result
      case Threw(_) => result := Threw(a);
      case Exited =>
      case Done =>
        if lastAddr != a {
          assert false;
        }
    }

    // ---------- With the far end in step ----------

    /** Both ends agree on the table for writes and on the address. */
    ghost predicate InStep(f: Far, src: Source)
      reads this, writeTbl, readTbl
    {
      Valid() && InSync(HostView(), f) && Placed(ReaderView(), src) && src.addr == f.addr
    }

    lemma NothingYet(f: Far, src: Source)
      requires InStep(f, src)
      ensures Valid() && Did(f, "", f, [])
    {
      DidNothing(f);
    }

    /** A whole read with the far end in step: rs is how it chooses to answer
        for len words, and every request has a codeword.  The words are those of
        the memory if the host has the far end's table for reads or sends the
        address, and then it has the table again; both ends are in step
        afterwards in any case. */
    method Read(a: nat, inc: bool, len: nat, ghost f: Far, ghost src: Source, ghost mem: nat -> nat,
                ghost rs: seq<Reply>, ghost rest: string)
      returns (result: ReadResult, buf: seq<nat>, ghost text: string, ghost f': Far)
      requires InStep(f, src) && a < WORD && a % 4 == 0 && len > 0 && (inc || len % 512 != 8)
      requires AllSendable(rs) && incoming == AllReplyChars(rs) + rest
      requires Transcript(Asks(src, a), rs, inc, len, mem)
      modifies this`addrSet, this`lastAddr, this`rdaddr, this`interrupt, this`busErr, this`sent, this`incoming,
               this`delay, this`trace, readTbl
      ensures InStep(f', Gone(Asks(src, a), rs)) && incoming == rest && busErr == old(busErr)
      ensures result == Done && (buf, ReaderView()) == ReadV(a, inc, len).Result(old(ReaderView()), rs)
      ensures Linked(old(ReaderView()), src) || ReadV(a, inc, len).Sends(old(ReaderView())) ==>
                && buf == MemoryWords(mem, a / 4, inc, len) && Linked(ReaderView(), Gone(Asks(src, a), rs))
                && |buf| == len
                && forall i :: 0 <= i < len ==> buf[i] == mem((a / 4 + if inc then i else 0) % 0x4000_0000)
      ensures sent == old(sent) + text && Did(f, text, f', Loads(a / 4, inc, len)) && Windowed(trace)
    {
      hide AllReplyChars, Sendable, FarRun, Parse, Transcript, Windowed, Outstanding, MemoryWords, Accesses,
           AddressCodes, Requests, ReadAll, Enough, Carries, Loads, Gone, Moved, Agrees;
      ghost var first := AddressCodes(HostView(), a);
      StartLinked(ReaderView(), src, a);
      BlockIsRead(StartReader(ReaderView(), a), Asks(src, a), rs, inc, len, mem);
      WordsAre(mem, a / 4, inc, len);
      RequestsReach(HostView(), f, a, inc, len);
      ghost var left, m;
      result, buf, left, text, m := Readv(a, inc, len, rs, rest);
      DidCodes(f, text, first + Requests(inc, len, m));
      f' := f.(addr := Moved(a / 4, inc, len));
      Endings(a / 4, inc, len);
      NoReplies(rest);
    }

    /** The same for one word by readio(). */
    method ReadOne(a: nat, ghost f: Far, ghost src: Source, ghost mem: nat -> nat,
                   ghost rs: seq<Reply>, ghost rest: string)
      returns (result: ReadResult, v: nat, ghost text: string, ghost f': Far)
      requires InStep(f, src) && a < WORD && a % 4 == 0
      requires AllSendable(rs) && incoming == AllReplyChars(rs) + rest
      requires Transcript(Asks(src, a), rs, false, 1, mem)
      modifies this`addrSet, this`lastAddr, this`rdaddr, this`interrupt, this`busErr, this`sent, this`incoming,
               this`delay, this`trace, readTbl
      ensures InStep(f', Gone(Asks(src, a), rs)) && incoming == rest && busErr == old(busErr)
      ensures result == Done && ([v], ReaderView()) == ReadIo(a).Result(old(ReaderView()), rs)
      ensures Linked(old(ReaderView()), src) || ReadIo(a).Sends(old(ReaderView())) ==>
                v == mem(a / 4) && Linked(ReaderView(), Gone(Asks(src, a), rs))
      ensures sent == old(sent) + text && Did(f, text, f', Loads(a / 4, false, 1))
    {
      hide AllReplyChars, Sendable, FarRun, Parse, Transcript, MemoryWords, Accesses,
           AddressCodes, Requests, ReadAll, Enough, Carries, Loads, Gone, Moved, Agrees;
      ghost var first := AddressCodes(HostView(), a);
      StartLinked(ReaderView(), src, a);
      BlockIsRead(StartReader(ReaderView(), a), Asks(src, a), rs, false, 1, mem);
      OneWord(mem, a / 4);
      RequestsReach(HostView(), f, a, false, 1);
      ghost var left;
      result, v, left, text := Readio(a, rs, rest);
      DidCodes(f, text, first + Requests(false, 1, Blocks(1)));
      f' := f.(addr := Moved(a / 4, false, 1));
      Endings(a / 4, false, 1);
      NoReplies(rest);
    }

    /** The loop that a block read is explained as: n calls of readio().  It
        returns the words that Read returns, makes the far end do the same loads
        in the same order, and leaves both ends in step. */
    method ReadByWords(a: nat, inc: bool, n: nat, ghost f: Far, ghost src: Source, ghost mem: nat -> nat,
                       ghost rss: seq<seq<Reply>>, ghost rest: string)
      returns (buf: seq<nat>, ghost text: string, ghost f': Far)
      requires InStep(f, src) && Linked(ReaderView(), src) && a < WORD && a % 4 == 0
      requires |rss| == n && AllTextsSendable(rss) && incoming == Texts(rss) + rest
      requires Singly(src, a, inc, rss, mem)
      modifies this`addrSet, this`lastAddr, this`rdaddr, this`interrupt, this`busErr, this`sent, this`incoming,
               this`delay, this`trace, readTbl
      ensures InStep(f', GoneSingly(src, a, inc, rss)) && Linked(ReaderView(), GoneSingly(src, a, inc, rss))
      ensures incoming == rest && busErr == old(busErr)
      ensures buf == MemoryWords(mem, a / 4, inc, n)
      ensures sent == old(sent) + text && Did(f, text, f', Loads(a / 4, inc, n))
    {
      hide *;
      NothingYet(f, src);
      StepsNone(a, inc, mem);
      buf, text, f' := [], "", f;
      ghost var src', left := src, rss;
      var at := a;
      for i := 0 to n
        invariant InStep(f', src') && Linked(ReaderView(), src')
        invariant at < WORD && at % 4 == 0 && at / 4 == Moved(a / 4, inc, i)
        invariant |left| == n - i && AllTextsSendable(left) && incoming == Texts(left) + rest
        invariant Singly(src', at, inc, left, mem) && busErr == old(busErr)
        invariant GoneSingly(src', at, inc, left) == GoneSingly(src, a, inc, rss)
        invariant buf == MemoryWords(mem, a / 4, inc, i)
        invariant sent == old(sent) + text && Did(f, text, f', Loads(a / 4, inc, i))
      {
        ghost var was, first := f', left[0];
        var result, v;
        ghost var more;
        FirstSingle(src', at, inc, left, mem);
        FirstText(left);
        assert incoming == AllReplyChars(first) + (Texts(left[1..]) + rest);
        result, v, more, f' := ReadOne(at, was, src', mem, first, Texts(left[1..]) + rest);
        DidMore(f, text, was, Loads(a / 4, inc, i), more, f', Loads(at / 4, false, 1));
        StepsMore(a / 4, inc, i, mem);
        NextAddrIs(at, inc);
        src', left, text := Gone(Asks(src', at), first), left[1..], text + more;
        buf, at := buf + [v], NextAddr(at, inc);
      }
      NoSingles(ReaderView(), src', at, inc, mem);
      NoTexts();
    }

    /** A call of writev() with the far end in step. */
    method Write(a: nat, p: bool, buf: seq<nat>, ghost f: Far, ghost src: Source)
      returns (ghost text: string, ghost f': Far)
      requires InStep(f, src) && WriteV(a, p, buf).Proper()
      modifies this`addrSet, this`lastAddr, this`wrLoaded, this`wraddr, this`rdaddr, this`sent, writeTbl
      ensures InStep(f', WriteV(a, p, buf).Leaves(src, []))
      ensures ReaderView() == WriteV(a, p, buf).Result(old(ReaderView()), []).1
      ensures sent == old(sent) + text && Did(f, text, f', Stores(a / 4, p, buf))
    {
      hide AllChars, FarRun, Accesses, Carries, Spellable, Stores, Moved, Did, Writes;
      ghost var (cs, h) := WriteCall(HostView(), a, p, buf);
      CallReaches(HostView(), f, a, p, buf);
      CodesMove(HostView().(addrSet := true, lastAddr := a), p, buf);
      WritesStore(a, p, buf);
      hide WriteCall;
      var thrown := Writev(a, p, buf);
      CarriesChars(cs);
      CarriesLine(AllChars(cs), cs);
      text := AllChars(cs) + "\n";
      DidCodes(f, text, cs);
      f' := FarRun(f, cs).0;
    }

    /** One call with the far end in step. */
    method Do(op: Op, ghost f: Far, ghost src: Source, ghost mem: nat -> nat, ghost rs: seq<Reply>, ghost rest: string)
      returns (words: seq<nat>, ghost text: string, ghost f': Far)
      requires InStep(f, src) && op.Proper() && op.Answered(src, rs, mem) && incoming == AllReplyChars(rs) + rest
      modifies this, writeTbl, readTbl
      ensures InStep(f', op.Leaves(src, rs)) && incoming == rest
      ensures (words, ReaderView()) == op.Result(old(ReaderView()), rs)
      ensures sent == old(sent) + text && Did(f, text, f', op.Wanted())
    {
      hide AllReplyChars, Sendable, Transcript, Gone, InStep, Moved, Did, Loads, Stores, MemoryWords, Linked;
      match op
      case WriteV(a, p, vals) =>
        NoReplies(rest);
        text, f' := Write(a, p, vals, f, src);
        words := [];
      case ReadV(a, inc, n) =>
        var result;
        result, words, text, f' := Read(a, inc, n, f, src, mem, rs, rest);
      case ReadIo(a) =>
        var result, v;
        result, v, text, f' := ReadOne(a, f, src, mem, rs, rest);
        words := [v];
    }

    /** Any sequence of reads and writes over one bus, however the far end chooses
        to answer the reads and whatever its memory does meanwhile: the far end
        makes exactly the accesses wanted, in their order, the two ends stay in
        step, and if the calls are safe each returns the words expected. */
    method Run(ops: seq<Op>, ghost f: Far, ghost src: Source, ghost mems: seq<nat -> nat>,
               ghost rss: seq<seq<Reply>>, ghost rest: string)
      returns (words: seq<seq<nat>>, ghost text: string, ghost f': Far, ghost src': Source)
      requires InStep(f, src) && ProperOps(ops) && AllAnswered(src, ops, rss, mems)
      requires AllTextsSendable(rss) && incoming == Texts(rss) + rest
      modifies this, writeTbl, readTbl
      ensures InStep(f', src') && incoming == rest
      ensures words == Results(ops, old(ReaderView()), rss)
      ensures forall table, stale ::
                Flagged(old(ReaderView()), src, table, stale) && Safe(ops, HostAt(old(ReaderView())), table, stale) ==>
                words == Expected(ops, mems)
      ensures sent == old(sent) + text && Did(f, text, f', AllWanted(ops))
      decreases |ops|
    {
      hide *;
      NothingYet(f, src);
      AnsweredLengths(src, ops, rss, mems);
      ghost var s := ReaderView();
      forall table, stale | Flagged(s, src, table, stale) && Safe(ops, HostAt(s), table, stale)
        ensures Results(ops, s, rss) == Expected(ops, mems)
      {
        SafeIsRight(s, src, ops, table, stale, rss, mems);
      }
      words, text, f', src' := [], "", f, src;
      if ops == [] {
        NoOps(src, ops, s, rss, mems);
        return;
      }
      FirstOp(src, ops, rss, mems);
      FirstResult(ops, s, rss);
      ghost var op, rs := ops[0], rss[0];
      assert incoming == AllReplyChars(rs) + (Texts(rss[1..]) + rest);
      var first, others;
      ghost var some, f1, more;
      first, some, f1 := Do(ops[0], f, src, mems[0], rs, Texts(rss[1..]) + rest);
      others, more, f', src' := Run(ops[1..], f1, op.Leaves(src, rs), mems[1..], rss[1..], rest);
      DidMore(f, some, f1, op.Wanted(), more, f', AllWanted(ops[1..]));
      words, text := [first] + others, some + more;
    }
  }
}
