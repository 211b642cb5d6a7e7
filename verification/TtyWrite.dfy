/** Writes over the debugging bus: what the host sends for a call of writev(),
    and what the far end does with it. */
module TtyWrite {
  import opened TtyCodec

  // ---------- The far end ----------

  /** What the far end does on its own bus, at byte addresses. */
  datatype Action = Wrote(addr: nat, val: nat) | Fetched(addr: nat, inc: bool, len: nat)

  /** The address register (in words), the table of the last 256 words that
      came uncompressed, and where the next one goes. */
  datatype Far = Far(addr: nat, table: seq<nat>, wr: nat) {
    predicate Valid() { addr < ADDRS && |table| == 256 && wr < 256 }
  }

  /** A difference of n six-bit digits, as a signed number. */
  function Signed(n: nat, d: nat): int {
    if 2 * d >= Pow64(n) then d - Pow64(n) else d
  }

  /** One codeword (rtl/wbubus/wbudecompress.v and wbuexec.v). */
  function FarStep(f: Far, c: Code): (r: (Far, seq<Action>))
    requires f.Valid()
    ensures r.0.Valid()
  {
    match c
    case AddrFull(w) => (f.(addr := w % ADDRS), [])
    case AddrShort(_, w) => (f.(addr := w % ADDRS), [])
    case AddrDiff(n, d) => (f.(addr := (f.addr + Signed(n, d)) % ADDRS), [])
    case WriteRaw(inc, v) =>
      (Far((f.addr + Bit(inc)) % ADDRS, f.table[f.wr := v], (f.wr + 1) % 256), [Wrote(4 * f.addr, v)])
    case WriteRef(inc, k) =>
      (f.(addr := (f.addr + Bit(inc)) % ADDRS), [Wrote(4 * f.addr, f.table[(f.wr - k) % 256])])
    case ReadWords(inc, len) =>
      (f.(addr := (f.addr + Bit(inc) * len) % ADDRS), [Fetched(4 * f.addr, inc, len)])
    case EndOfWrite => (f, [])
    case Unknown => (f, [])
  }

  function FarRun(f: Far, cs: seq<Code>): (r: (Far, seq<Action>))
    requires f.Valid()
    ensures r.0.Valid()
    decreases |cs|
  {
    if cs == [] then (f, [])
    else
      var (f1, acts) := FarStep(f, cs[0]);
      var (f2, more) := FarRun(f1, cs[1..]);
      (f2, acts + more)
  }

  lemma {:induction false} FarRunAppend(f: Far, a: seq<Code>, b: seq<Code>)
    requires f.Valid()
    ensures var (f1, acts) := FarRun(f, a);
            var (f2, more) := FarRun(f1, b);
            FarRun(f, a + b) == (f2, acts + more)
    decreases |a|
  {
    hide FarStep;
    if a == [] {
      assert a + b == b && [] + FarRun(f, b).1 == FarRun(f, b).1;
    } else {
      var (f1, acts) := FarStep(f, a[0]);
      assert (a + b)[0] == a[0] && (a + b)[1..] == a[1..] + b;
      FarRunAppend(f1, a[1..], b);
      var (f2, some) := FarRun(f1, a[1..]);
      assert acts + (some + FarRun(f2, b).1) == acts + some + FarRun(f2, b).1;
    }
  }

  lemma FarRunOne(f: Far, c: Code)
    requires f.Valid()
    ensures FarRun(f, [c]) == FarStep(f, c)
  {
    assert [c][1..] == [];
    assert FarStep(f, c).1 + [] == FarStep(f, c).1;
  }

  // ---------- The host ----------

  /** The part of TTYBUS that writes depend on. */
  datatype Host = Host(addrSet: bool, lastAddr: nat, wrLoaded: bool, wraddr: nat, table: seq<nat>) {
    predicate Valid() { lastAddr < WORD && lastAddr % 4 == 0 && wraddr < 256 && |table| == 256 }

    /** Has this entry of the table been written? */
    predicate Filled(k: nat) { k < 256 && (wrLoaded || k < wraddr) }
  }

  /** The difference address for a, where there is one. */
  function DiffCode(h: Host, a: nat): seq<Code> {
    var d := (a - h.lastAddr) % WORD / 4;
    if !h.addrSet then []
    else if d < 32 then [AddrDiff(1, d)]
    else if d < 2048 then [AddrDiff(2, d)]
    else if d < 0x2_0000 then [AddrDiff(3, d)]
    else if d < 0x80_0000 then [AddrDiff(4, d)]
    else []
  }

  /** encode_address(): what is sent to make a the address. */
  function AddressCodes(h: Host, a: nat): seq<Code> {
    var w, diff := a / 4, DiffCode(h, a);
    if h.addrSet && a == h.lastAddr then []
    else if w <= 0x3f then [AddrShort(1, w)]
    else if w <= 0xfff && (diff == [] || diff[0].n >= 2) then [AddrShort(2, w)]
    else if w <= 0x3_ffff && (diff == [] || diff[0].n >= 3) then [AddrShort(3, w)]
    else if w <= 0xff_ffff && (diff == [] || diff[0].n >= 4) then [AddrShort(4, w)]
    else if diff == [] then [AddrFull(w)]
    else diff
  }

  /** The table entry i places back. */
  function Back(h: Host, i: nat): nat
    requires h.Valid()
  {
    h.table[(h.wraddr - i) % 256]
  }

  /** Has that entry been written? */
  predicate Known(h: Host, i: nat)
    requires h.Valid()
  {
    h.Filled((h.wraddr - i) % 256)
  }

  /** The search through the table, from the entry so many places back. */
  function FindRef(h: Host, val: nat, from: nat): (i: nat)
    requires h.Valid() && 1 <= from <= 256
    ensures i == 0 || from <= i < 256
    decreases 256 - from
  {
    if from == 256 then 0
    else if !h.wrLoaded && (h.wraddr - from) % 256 > h.wraddr then 0
    else if Back(h, from) == val then from
    else FindRef(h, val, from + 1)
  }

  /** Going back past the bottom of the table wraps to its top. */
  lemma BackWraps(w: nat, i: nat)
    requires w < 256 && 1 <= i < 256
    ensures (w - i) % 256 == if i <= w then w - i else w - i + 256
  {
  }

  /** It finds the last place where the word was written, if there is one. */
  lemma {:induction false} FindRefFinds(h: Host, val: nat, from: nat)
    requires h.Valid() && 1 <= from <= 256
    ensures var i := FindRef(h, val, from);
            && (i != 0 ==> Back(h, i) == val && Known(h, i))
            && forall k :: from <= k < 256 && (i == 0 || k < i) && Known(h, k) ==> Back(h, k) != val
    decreases 256 - from
  {
    hide Back;
    if from < 256 {
      BackWraps(h.wraddr, from);
      if h.wrLoaded || (h.wraddr - from) % 256 <= h.wraddr {
        if Back(h, from) != val {
          FindRefFinds(h, val, from + 1);
        }
      } else {
        forall k | from <= k < 256
          ensures !Known(h, k)
        {
          BackWraps(h.wraddr, k);
        }
      }
    }
  }

  /** One word: the codeword, and the table after it. */
  function WordCode(h: Host, p: bool, val: nat): (r: (Code, Host))
    requires h.Valid()
    ensures r.1.Valid()
  {
    var last := if p then (h.lastAddr + 4) % WORD else h.lastAddr;
    var i := FindRef(h, val, 1);
    if i != 0 then (WriteRef(p, i), h.(lastAddr := last))
    else
      (WriteRaw(p, val),
       Host(h.addrSet, last, h.wrLoaded || h.wraddr == 255, (h.wraddr + 1) % 256, h.table[h.wraddr := val]))
  }

  function WordCodes(h: Host, p: bool, vals: seq<nat>): (r: (seq<Code>, Host))
    requires h.Valid()
    ensures r.1.Valid()
    decreases |vals|
  {
    if vals == [] then ([], h)
    else
      var (c, h1) := WordCode(h, p, vals[0]);
      var (cs, h2) := WordCodes(h1, p, vals[1..]);
      ([c] + cs, h2)
  }

  /** A call of writev(): what is sent, and the host after it.  Nothing at all
      is sent when there are no words, although the address is noted as sent. */
  function WriteCall(h: Host, a: nat, p: bool, vals: seq<nat>): (r: (seq<Code>, Host))
    requires h.Valid() && a < WORD && a % 4 == 0
    ensures r.1.Valid()
  {
    var (cs, h') := WordCodes(h.(addrSet := true, lastAddr := a), p, vals);
    (if vals == [] then [] else AddressCodes(h, a) + cs, h')
  }

  // ---------- Host and far end agree ----------

  ghost predicate SameTables(h: Host, f: Far) {
    && h.Valid() && f.Valid() && f.wr == h.wraddr
    && forall k :: 0 <= k < 256 && h.Filled(k) ==> h.table[k] == f.table[k]
  }

  ghost predicate InSync(h: Host, f: Far) {
    SameTables(h, f) && (h.addrSet ==> h.lastAddr == 4 * f.addr)
  }

  lemma DiffReaches(h: Host, f: Far, a: nat)
    requires InSync(h, f) && a < WORD && a % 4 == 0 && DiffCode(h, a) != []
    ensures var c := DiffCode(h, a)[0];
            && Spellable(c) && 1 <= c.n <= 4
            && FarStep(f, c) == (f.(addr := a / 4), [])
  {
    Pow64s();
    var x, y := a / 4, f.addr;
    assert (a - h.lastAddr) % WORD / 4 == (x - y) % ADDRS;
    assert (y + (x - y) % ADDRS) % ADDRS == x;
  }

  /** The number of characters of an address codeword. */
  function AddressLength(cs: seq<Code>): nat {
    if cs == [] then 0 else match cs[0]
      case AddrShort(n, _) => n + 1
      case AddrDiff(n, _) => n + 1
      case _ => 6
  }

  /** The shortest absolute form of a word address. */
  function AbsoluteLength(w: nat): nat {
    if w <= 0x3f then 2 else if w <= 0xfff then 3 else if w <= 0x3_ffff then 4
    else if w <= 0xff_ffff then 5 else 6
  }

  lemma AddressCode(h: Host, f: Far, a: nat)
    requires InSync(h, f) && a < WORD && a % 4 == 0 && !(h.addrSet && a == h.lastAddr)
    ensures var cs := AddressCodes(h, a);
            |cs| == 1 && Spellable(cs[0]) && FarStep(f, cs[0]) == (f.(addr := a / 4), [])
  {
    Pow64s();
    if DiffCode(h, a) != [] {
      DiffReaches(h, f, a);
    }
    assert |DiffCode(h, a)| <= 1;
    assert a / 4 % ADDRS == a / 4;
    hide DiffCode, Pow64, Signed, InSync;
  }

  /** encode_address() takes the far end to the address. */
  lemma AddressReaches(h: Host, f: Far, a: nat)
    requires InSync(h, f) && a < WORD && a % 4 == 0
    ensures var cs := AddressCodes(h, a);
            AllSpellable(cs) && |cs| <= 1 && FarRun(f, cs) == (f.(addr := a / 4), [])
  {
    if !(h.addrSet && a == h.lastAddr) {
      AddressCode(h, f, a);
      hide AddressCodes, FarStep, FarRun, Spellable, InSync;
      var cs := AddressCodes(h, a);
      assert cs == [cs[0]];
      FarRunOne(f, cs[0]);
    }
  }

  /** It does so in at most six characters, and as few as the absolute and the
      difference form allow. */
  lemma AddressIsShort(h: Host, a: nat)
    requires h.Valid() && a < WORD && a % 4 == 0 && !(h.addrSet && a == h.lastAddr)
    ensures var cs, diff := AddressCodes(h, a), DiffCode(h, a);
            var n := AddressLength(cs);
            && |cs| == 1 && Spellable(cs[0]) && |Chars(cs[0])| == n <= AbsoluteLength(a / 4) <= 6
            && (if diff != [] && AddressLength(diff) < AbsoluteLength(a / 4)
                then cs == diff else n == AbsoluteLength(a / 4))
  {
    Pow64s();
    hide Pow64, Digits;
  }

  /** Every back-reference is 1..255 and names an entry the far end holds. */
  lemma RefsAreHeld(h: Host, f: Far, p: bool, val: nat)
    requires SameTables(h, f) && val < WORD
    ensures var c := WordCode(h, p, val).0;
            && Spellable(c)
            && (c.WriteRef? ==> 1 <= c.back <= 255 && Known(h, c.back)
                                && f.table[(f.wr - c.back) % 256] == val)
  {
    FindRefFinds(h, val, 1);
    hide FindRef;
  }

  /** The writes a call stands for. */
  function Writes(a: nat, p: bool, vals: seq<nat>): seq<Action> {
    seq(|vals|, i requires 0 <= i < |vals| => Wrote((a + 4 * i * Bit(p)) % WORD, vals[i]))
  }

  lemma WordReaches(h: Host, f: Far, p: bool, val: nat)
    requires InSync(h, f) && h.addrSet && val < WORD
    ensures var (c, h') := WordCode(h, p, val);
            var (f', acts) := FarStep(f, c);
            && Spellable(c) && InSync(h', f') && h'.addrSet
            && acts == [Wrote(h.lastAddr, val)]
            && h'.lastAddr == (h.lastAddr + 4 * Bit(p)) % WORD
  {
    hide FindRef, Spellable;
    RefsAreHeld(h, f, p, val);
    NextAddress(f.addr, p);
    TablesFollow(h, f, val, (h.lastAddr + 4 * Bit(p)) % WORD, (f.addr + Bit(p)) % ADDRS);
    hide SameTables;
  }

  lemma NextAddress(w: nat, p: bool)
    requires w < ADDRS
    ensures (4 * w + 4 * Bit(p)) % WORD == 4 * ((w + Bit(p)) % ADDRS)
    ensures p ==> (4 * w + 4) % WORD == 4 * ((w + 1) % ADDRS)
    ensures !p ==> 4 * w % WORD == 4 * w
  {
  }

  /** Both ends enter a raw word at the same place. */
  lemma TablesFollow(h: Host, f: Far, val: nat, last: nat, addr: nat)
    requires SameTables(h, f) && last < WORD && last % 4 == 0 && addr < ADDRS
    ensures SameTables(Host(h.addrSet, last, h.wrLoaded || h.wraddr == 255, (h.wraddr + 1) % 256,
                            h.table[h.wraddr := val]),
                       Far(addr, f.table[f.wr := val], (f.wr + 1) % 256))
    ensures SameTables(h.(lastAddr := last), f.(addr := addr))
  {
  }

  lemma {:induction false} WordsReach(h: Host, f: Far, p: bool, vals: seq<nat>)
    requires InSync(h, f) && h.addrSet && forall i :: 0 <= i < |vals| ==> vals[i] < WORD
    ensures var (cs, h') := WordCodes(h, p, vals);
            var (f', acts) := FarRun(f, cs);
            && AllSpellable(cs) && InSync(h', f') && acts == Writes(h.lastAddr, p, vals)
    decreases |vals|
  {
    hide WordCode, FarStep, Spellable;
    if vals != [] {
      WordReaches(h, f, p, vals[0]);
      var (c, h1) := WordCode(h, p, vals[0]);
      var (f1, _) := FarStep(f, c);
      WordsReach(h1, f1, p, vals[1..]);
      WritesCons(h.lastAddr, p, vals);
    }
  }

  lemma WritesCons(a: nat, p: bool, vals: seq<nat>)
    requires vals != [] && a < WORD
    ensures Writes(a, p, vals) == [Wrote(a, vals[0])] + Writes((a + 4 * Bit(p)) % WORD, p, vals[1..])
  {
    forall i | 1 <= i < |vals|
      ensures (a + 4 * i * Bit(p)) % WORD == ((a + 4 * Bit(p)) % WORD + 4 * (i - 1) * Bit(p)) % WORD
    {
      ModShift(a + 4 * Bit(p), 4 * (i - 1) * Bit(p));
      assert 4 * i * Bit(p) == 4 * Bit(p) + 4 * (i - 1) * Bit(p);
    }
  }

  lemma ModShift(x: nat, y: nat)
    ensures (x % WORD + y) % WORD == (x + y) % WORD
  {
  }

  /** A call with words: the far end performs exactly its writes, in order, and
      the two ends stay in step. */
  lemma CallReaches(h: Host, f: Far, a: nat, p: bool, vals: seq<nat>)
    requires InSync(h, f) && a < WORD && a % 4 == 0 && vals != []
    requires forall i :: 0 <= i < |vals| ==> vals[i] < WORD
    ensures var (cs, h') := WriteCall(h, a, p, vals);
            var (f', acts) := FarRun(f, cs);
            && AllSpellable(cs) && InSync(h', f') && acts == Writes(a, p, vals)
            && |acts| == |vals|
            && forall i :: 0 <= i < |vals| ==>
                 acts[i] == Wrote((a + if p then 4 * i else 0) % 0x1_0000_0000, vals[i])
  {
    hide AddressCodes, WordCodes, Spellable, FarStep;
    var h0, f0 := h.(addrSet := true, lastAddr := a), f.(addr := a / 4);
    AddressReaches(h, f, a);
    WordsReach(h0, f0, p, vals);
    FarRunAppend(f, AddressCodes(h, a), WordCodes(h0, p, vals).0);
    assert [] + Writes(a, p, vals) == Writes(a, p, vals);
    WritesAre(a, p, vals);
    hide Writes;
  }

  lemma WritesAre(a: nat, p: bool, vals: seq<nat>)
    ensures |Writes(a, p, vals)| == |vals|
    ensures forall i :: 0 <= i < |vals| ==>
              Writes(a, p, vals)[i] == Wrote((a + if p then 4 * i else 0) % 0x1_0000_0000, vals[i])
  {
    forall i | 0 <= i < |vals|
      ensures 4 * i * Bit(p) == if p then 4 * i else 0
    {
    }
  }

  /** A call without words sends nothing but notes its address: the ends stay
      in step exactly when the far end was there already. */
  lemma EmptyCall(h: Host, f: Far, a: nat, p: bool)
    requires InSync(h, f) && a < WORD && a % 4 == 0
    ensures var (cs, h') := WriteCall(h, a, p, []);
            cs == [] && (InSync(h', FarRun(f, cs).0) <==> a == 4 * f.addr)
  {
  }

  /** What is sent for one word at the address that was sent last. */
  lemma OneWrite(h: Host, a: nat, val: nat)
    requires h.Valid() && h.addrSet && h.lastAddr == a
    ensures WriteCall(h, a, false, [val]).0 == [WordCode(h, false, val).0]
  {
    hide WordCode;
    assert h.(addrSet := true, lastAddr := a) == h;
    var (c, h1) := WordCode(h, false, val);
    assert [val][1..] == [] && WordCodes(h1, false, []) == ([], h1);
    assert [] + [c] + [] == [c];
  }

  /** When it was not, the next write to that address goes astray: to where the
      far end was. */
  lemma EmptyMisleads(h: Host, f: Far, a: nat, p: bool, val: nat)
    requires InSync(h, f) && a < WORD && a % 4 == 0 && val < WORD
    ensures var h1 := WriteCall(h, a, p, []).1;
            FarRun(f, WriteCall(h1, a, false, [val]).0).1 == [Wrote(4 * f.addr, val)]
  {
    var h1 := h.(addrSet := true, lastAddr := a);
    assert WriteCall(h, a, p, []).1 == h1;
    RefsAreHeld(h1, f, false, val);
    OneWrite(h1, a, val);
    hide FindRef, WriteCall, FarRun;
    FarRunOne(f, WordCode(h1, false, val).0);
  }

  // ---------- Sequences of calls ----------

  datatype Call = Call(a: nat, p: bool, vals: seq<nat>) {
    predicate Proper() {
      a < WORD && a % 4 == 0 && vals != [] && forall i :: 0 <= i < |vals| ==> vals[i] < WORD
    }
  }

  predicate AllProper(calls: seq<Call>) { forall i :: 0 <= i < |calls| ==> calls[i].Proper() }

  function Calls(h: Host, calls: seq<Call>): (r: (seq<Code>, Host))
    requires h.Valid() && AllProper(calls)
    decreases |calls|
  {
    if calls == [] then ([], h)
    else
      var (cs, h1) := WriteCall(h, calls[0].a, calls[0].p, calls[0].vals);
      var (more, h2) := Calls(h1, calls[1..]);
      (cs + more, h2)
  }

  function CallWrites(calls: seq<Call>): seq<Action> {
    if calls == [] then [] else Writes(calls[0].a, calls[0].p, calls[0].vals) + CallWrites(calls[1..])
  }

  /** Any sequence of calls: what the far end does is the writes asked for. */
  lemma {:induction false} CallsReach(h: Host, f: Far, calls: seq<Call>)
    requires InSync(h, f) && AllProper(calls)
    ensures var (cs, h') := Calls(h, calls);
            var (f', acts) := FarRun(f, cs);
            && AllSpellable(cs) && InSync(h', f') && acts == CallWrites(calls)
    decreases |calls|
  {
    hide WriteCall, Spellable, FarStep, Writes;
    if calls != [] {
      var c := calls[0];
      CallReaches(h, f, c.a, c.p, c.vals);
      var (cs, h1) := WriteCall(h, c.a, c.p, c.vals);
      CallsReach(h1, FarRun(f, cs).0, calls[1..]);
      FarRunAppend(f, cs, Calls(h1, calls[1..]).0);
    }
  }
  /** The calls of writeio() that a block write is said to be short for. */
  function Singles(a: nat, p: bool, vals: seq<nat>): (calls: seq<Call>)
    requires a < WORD && a % 4 == 0 && forall i :: 0 <= i < |vals| ==> vals[i] < WORD
    ensures AllProper(calls)
    decreases |vals|
  {
    if vals == [] then [] else [Call(a, false, [vals[0]])] + Singles((a + 4 * Bit(p)) % WORD, p, vals[1..])
  }

  /** A block write does what a loop of single writes does. */
  lemma {:induction false} BlockWriteIsLoop(h: Host, f: Far, a: nat, p: bool, vals: seq<nat>)
    requires InSync(h, f) && a < WORD && a % 4 == 0 && vals != []
    requires forall i :: 0 <= i < |vals| ==> vals[i] < WORD
    ensures AllSpellable(Calls(h, Singles(a, p, vals)).0)
    ensures FarRun(f, Calls(h, Singles(a, p, vals)).0).1 == FarRun(f, WriteCall(h, a, p, vals).0).1
  {
    CallReaches(h, f, a, p, vals);
    CallsReach(h, f, Singles(a, p, vals));
    hide Calls, FarRun, WriteCall, InSync, Spellable;
    SinglesWrite(a, p, vals);
  }

  lemma {:induction false} SinglesWrite(a: nat, p: bool, vals: seq<nat>)
    requires a < WORD && a % 4 == 0 && forall i :: 0 <= i < |vals| ==> vals[i] < WORD
    ensures CallWrites(Singles(a, p, vals)) == Writes(a, p, vals)
    decreases |vals|
  {
    if vals != [] {
      WritesCons(a, p, vals);
      WritesCons(a, false, [vals[0]]);
      SinglesWrite((a + 4 * Bit(p)) % WORD, p, vals[1..]);
      assert Writes((a + 4 * Bit(false)) % WORD, false, [vals[0]][1..]) == [];
    }
  }
}
