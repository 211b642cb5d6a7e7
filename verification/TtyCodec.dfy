/** The six-bit code of the debugging bus and its codewords: what the host in
    sw/host/ttybus.cpp spells, and how rtl/wbubus reads it. */
module TtyCodec {

  type sixbit = x: int | 0 <= x < 64

  // A 32-bit bus word, and a word address: byte addresses are four times that
  const WORD: nat := 0x1_0000_0000
  const ADDRS: nat := 0x4000_0000

  /** charenc(): a six-bit value as a character. */
  function Charenc(v: sixbit): char {
    if v < 10 then (v + '0' as int) as char
    else if v < 36 then (v - 10 + 'A' as int) as char
    else if v < 62 then (v - 36 + 'a' as int) as char
    else if v == 62 then '@'
    else '%'
  }

  /** chardec(): 0x100 marks a character that is not part of the code. */
  function Chardec(c: char): nat {
    if '0' <= c <= '9' then c as int - '0' as int
    else if 'A' <= c <= 'Z' then c as int - 'A' as int + 10
    else if 'a' <= c <= 'z' then c as int - 'a' as int + 36
    else if c == '@' then 62
    else if c == '%' then 63
    else 0x100
  }

  /** The far end's reader, rtl/wbubus/wbutohex.v:66-79: ranges of bytes, and bits
      of them in six-bit sums. */
  function DeviceRead(c: char): nat {
    var b := c as int;
    if 0x30 <= b <= 0x39 then b % 16
    else if 0x41 <= b <= 0x5a then (b % 64 - 0x01 + 0x0a) % 64
    else if 0x61 <= b <= 0x7a then (b % 64 + 0x03) % 64
    else if b == 0x40 then 0x3e
    else if b == 0x25 then 0x3f
    else 0x100
  }

  /** Its speller, wbusixchar.v:62-77. */
  function DeviceChar(v: sixbit): char {
    if v <= 0x09 then (0x30 + v % 16) as char
    else if v <= 35 then (0x41 + v - 10) as char
    else if v <= 61 then (0x61 + v - 36) as char
    else if v == 62 then 0x40 as char
    else 0x25 as char
  }

  /** The far end reads what charenc() spells: the bytes and bits of its circuit. */
  lemma DeviceReads(v: sixbit)
    ensures DeviceRead(Charenc(v)) == v
    ensures var b := Charenc(v) as int;
            || (0x30 <= b <= 0x39 && v == b % 16)
            || (0x41 <= b <= 0x5a && v == (b % 64 - 0x01 + 0x0a) % 64)
            || (0x61 <= b <= 0x7a && v == (b % 64 + 0x03) % 64)
            || (b == 0x40 && v == 0x3e)
            || (b == 0x25 && v == 0x3f)
  {
  }

  /** chardec() reads what the far end spells, and takes nothing else for a value. */
  lemma HostReads(c: char)
    ensures forall v: sixbit :: Chardec(DeviceChar(v)) == v && DeviceChar(v) == Charenc(v)
    ensures Chardec(c) < 64 <==>
              0x30 <= c as int <= 0x39 || 0x40 <= c as int <= 0x5a || 0x61 <= c as int <= 0x7a || c == '%'
    ensures Chardec(c) < 64 ==> DeviceChar(Chardec(c)) == c
  {
  }

  /** What the host sends for these values, and what the far end does. */
  function Spell(six: seq<sixbit>): string {
    seq(|six|, i requires 0 <= i < |six| => Charenc(six[i]))
  }

  function Shown(six: seq<sixbit>): string {
    seq(|six|, i requires 0 <= i < |six| => DeviceChar(six[i]))
  }

  /** What the far end reads. */
  function Read(s: string): seq<nat> {
    seq(|s|, i requires 0 <= i < |s| => DeviceRead(s[i]))
  }

  lemma SpellRead(six: seq<sixbit>)
    ensures Read(Spell(six)) == six
  {
    forall i | 0 <= i < |six|
      ensures Read(Spell(six))[i] == six[i]
    {
      DeviceReads(six[i]);
    }
  }

  // ---------- Numbers, six bits at a time, the highest first ----------

  function Pow64(n: nat): (r: nat)
    ensures r > 0
  {
    if n == 0 then 1 else 64 * Pow64(n - 1)
  }

  function Digits(v: nat, n: nat): (d: seq<sixbit>)
    ensures |d| == n
  {
    if n == 0 then [] else Digits(v / 64, n - 1) + [v % 64]
  }

  function Num(d: seq<nat>): nat {
    if d == [] then 0 else Num(d[..|d| - 1]) * 64 + d[|d| - 1] % 64
  }

  lemma {:induction false} DigitsRoundTrip(v: nat, n: nat)
    requires v < Pow64(n)
    ensures Num(Digits(v, n)) == v
  {
    if n > 0 {
      var d := Digits(v, n);
      assert d[..n - 1] == Digits(v / 64, n - 1);
      DigitsRoundTrip(v / 64, n - 1);
    }
  }

  // ---------- Digits written out ----------

  lemma DivTwice(d: nat)
    ensures d / 64 / 64 == d / 0x1000 && d / 64 / 0x1000 == d / 0x4_0000 && d / 64 / 0x4_0000 == d / 0x100_0000
  {
  }

  lemma Digits1(d: nat)
    ensures Digits(d, 1) == [d % 64]
  {
  }

  lemma Digits2(d: nat)
    ensures Digits(d, 2) == [d / 64 % 64, d % 64]
  {
    Digits1(d / 64);
  }

  lemma Digits3(d: nat)
    ensures Digits(d, 3) == [d / 0x1000 % 64, d / 64 % 64, d % 64]
  {
    assert Digits(d, 3) == Digits(d / 64, 2) + [d % 64];
    hide Digits;
    Digits2(d / 64);
    DivTwice(d);
  }

  lemma Digits4(d: nat)
    ensures Digits(d, 4) == [d / 0x4_0000 % 64, d / 0x1000 % 64, d / 64 % 64, d % 64]
  {
    assert Digits(d, 4) == Digits(d / 64, 3) + [d % 64];
    hide Digits;
    Digits3(d / 64);
    DivTwice(d);
  }

  lemma Digits5(d: nat)
    ensures Digits(d, 5) == [d / 0x100_0000 % 64, d / 0x4_0000 % 64, d / 0x1000 % 64, d / 64 % 64, d % 64]
  {
    assert Digits(d, 5) == Digits(d / 64, 4) + [d % 64];
    hide Digits;
    Digits4(d / 64);
    DivTwice(d);
  }

  lemma DigitsOut(d: nat)
    ensures Digits(d, 1) == [d % 64]
    ensures Digits(d, 2) == [d / 64 % 64, d % 64]
    ensures Digits(d, 3) == [d / 0x1000 % 64, d / 64 % 64, d % 64]
    ensures Digits(d, 4) == [d / 0x4_0000 % 64, d / 0x1000 % 64, d / 64 % 64, d % 64]
    ensures Digits(d, 5) == [d / 0x100_0000 % 64, d / 0x4_0000 % 64, d / 0x1000 % 64, d / 64 % 64, d % 64]
  {
    hide Digits;
    Digits1(d);
    Digits2(d);
    Digits3(d);
    Digits4(d);
    Digits5(d);
  }

  // ---------- Codewords from the host ----------

  datatype Code =
    | AddrFull(word: nat)
    | AddrShort(n: nat, word: nat)
    | AddrDiff(n: nat, diff: nat)
    | WriteRaw(inc: bool, val: nat)
    | WriteRef(inc: bool, back: nat)
    | ReadWords(inc: bool, len: nat)
    | EndOfWrite
    | Unknown

  /** The codewords the host can spell.  A read of eight words without
      increment has no spelling of its own: it would be EndOfWrite. */
  predicate Spellable(c: Code) {
    match c
    case AddrFull(w) => w < ADDRS
    case AddrShort(n, w) => 1 <= n <= 4 && w < Pow64(n)
    case AddrDiff(n, d) => 1 <= n <= 4 && d < Pow64(n)
    case WriteRaw(_, v) => v < WORD
    case WriteRef(_, k) => k < 256
    case ReadWords(inc, len) => 1 <= len <= 520 && (inc || len != 8)
    case EndOfWrite => true
    case Unknown => false
  }

  function Bit(b: bool): nat { if b then 1 else 0 }

  /** The six-bit values of a codeword. */
  function Six(c: Code): seq<sixbit>
    requires Spellable(c)
  {
    match c
    case AddrFull(w) => [0] + Digits(w, 5)
    case AddrShort(n, w) => [0x08 + 2 * (n - 1)] + Digits(w, n)
    case AddrDiff(n, d) => [0x09 + 2 * (n - 1)] + Digits(d, n)
    case WriteRaw(inc, v) => [0x18 + v / ADDRS * 2 + Bit(inc)] + Digits(v % ADDRS, 5)
    case WriteRef(inc, k) => [0x10 + k / 64 * 2 + Bit(inc), k % 64]
    case ReadWords(inc, len) =>
      if len <= 8 then [0x20 + (len - 1) * 2 + Bit(inc)]
      else [0x30 + (len - 9) / 64 * 2 + Bit(inc), (len - 9) % 64]
    case EndOfWrite => [0x2e]
  }

  /** The length of the codeword that starts with h (rtl/wbubus/wbureadcw.v). */
  function Length(h: nat): (n: nat)
    requires h < 64
    ensures 1 <= n <= 6
  {
    if h >= 0x30 then 2
    else if h >= 0x20 then 1
    else if 0x10 <= h < 0x18 then 2
    else if 0x08 <= h < 0x10 then 2 + h / 2 % 4
    else 6
  }

  /** What a codeword means (rtl/wbubus/wbudecompress.v). */
  function Meaning(s: seq<nat>): Code
    requires |s| > 0 && s[0] < 64 && |s| == Length(s[0])
  {
    var h, rest := s[0], Num(s[1..]);
    if h == 0x2e then EndOfWrite
    else if h >= 0x30 then ReadWords(h % 2 == 1, 9 + h / 2 % 8 * 64 + rest)
    else if h >= 0x20 then ReadWords(h % 2 == 1, 1 + h / 2 % 8)
    else if h >= 0x18 then WriteRaw(h % 2 == 1, h / 2 % 4 * ADDRS + rest)
    else if h >= 0x10 then WriteRef(h % 2 == 1, h / 2 % 4 * 64 + rest)
    else if h >= 0x08 then
      if h % 2 == 1 then AddrDiff(1 + h / 2 % 4, rest) else AddrShort(1 + h / 2 % 4, rest)
    else if h < 4 then AddrFull(rest)
    else Unknown
  }

  lemma MeaningOfAddress(c: Code)
    requires Spellable(c) && (c.AddrFull? || c.AddrShort? || c.AddrDiff?)
    ensures var s := Six(c); |s| == Length(s[0]) && Meaning(s) == c
  {
    Pow64s();
    hide Digits, Num, Pow64;
    match c
    case AddrFull(w) => DigitsRoundTrip(w, 5);
    case AddrShort(n, w) => DigitsRoundTrip(w, n);
    case AddrDiff(n, d) => DigitsRoundTrip(d, n);
  }

  lemma MeaningOfRaw(c: Code)
    requires Spellable(c) && c.WriteRaw?
    ensures var s := Six(c); |s| == Length(s[0]) && Meaning(s) == c
  {
    Pow64s();
    hide Digits, Num, Pow64;
    DigitsRoundTrip(c.val % ADDRS, 5);
  }

  lemma MeaningOfRef(c: Code)
    requires Spellable(c) && c.WriteRef?
    ensures var s := Six(c); |s| == Length(s[0]) && Meaning(s) == c
  {
    hide Num;
    OneDigit(c.back % 64);
  }

  lemma MeaningOfShortRead(c: Code)
    requires Spellable(c) && (c.EndOfWrite? || (c.ReadWords? && c.len <= 8))
    ensures var s := Six(c); |s| == Length(s[0]) && Meaning(s) == c
  {
    hide Num;
  }

  lemma MeaningOfRead(c: Code)
    requires Spellable(c) && c.ReadWords? && c.len > 8
    ensures var s := Six(c); |s| == Length(s[0]) && Meaning(s) == c
  {
    hide Num;
    OneDigit((c.len - 9) % 64);
  }

  lemma MeaningOfSix(c: Code)
    requires Spellable(c)
    ensures var s := Six(c); |s| == Length(s[0]) && Meaning(s) == c
  {
    hide Six, Meaning;
    match c
    case AddrFull(_) => MeaningOfAddress(c);
    case AddrShort(_, _) => MeaningOfAddress(c);
    case AddrDiff(_, _) => MeaningOfAddress(c);
    case WriteRaw(_, _) => MeaningOfRaw(c);
    case WriteRef(_, _) => MeaningOfRef(c);
    case ReadWords(_, len) => if len > 8 { MeaningOfRead(c); } else { MeaningOfShortRead(c); }
    case EndOfWrite => MeaningOfShortRead(c);
  }

  /** The thirty bits behind the first six of a codeword in the far end's shift
      register of thirty-six. */
  function Padded(d: seq<nat>): nat
    requires |d| <= 5
  {
    Num(d + seq(5 - |d|, _ => 0))
  }

  lemma {:induction false} NumZeros(d: seq<nat>, k: nat)
    ensures Num(d + seq(k, _ => 0)) == Num(d) * Pow64(k)
  {
    var x := d + seq(k, _ => 0);
    if k == 0 {
      assert x == d;
    } else {
      assert x[..|x| - 1] == d + seq(k - 1, _ => 0);
      NumZeros(d, k - 1);
    }
  }

  lemma PaddedDigits(v: nat, n: nat)
    requires n <= 5 && v < Pow64(n)
    ensures Padded(Digits(v, n)) == v * Pow64(5 - n)
  {
    DigitsRoundTrip(v, n);
    NumZeros(Digits(v, n), 5 - n);
  }

  /** In that register (rtl/wbubus/wbureadcw.v) every field that the far end takes
      out of a codeword (wbudecompress.v) is what the host put in.  Addresses: the
      kind in the first bits, the number in the slice behind them. */
  lemma AddressFields(c: Code)
    requires Spellable(c) && (c.AddrFull? || c.AddrShort? || c.AddrDiff?)
    ensures 1 < |Six(c)| <= 6
    ensures var h, low := Six(c)[0], Padded(Six(c)[1..]);
            match c
            case AddrFull(w) => h / 4 == 0 && h % 4 * 0x4000_0000 + low == w
            case AddrShort(n, w) => h / 8 == 1 && h % 2 == 0 && h / 2 % 4 == n - 1 && Slice(low, n) == w
            case AddrDiff(n, d) => h / 8 == 1 && h % 2 == 1 && h / 2 % 4 == n - 1 && Slice(low, n) == d
  {
    Pow64s();
    hide Num, Digits, Pow64, Padded, Slice;
    match c
    case AddrFull(w) =>
      PaddedDigits(w, 5);
      assert Six(c)[1..] == Digits(w, 5) && w * 1 == w;
    case AddrShort(n, w) =>
      PaddedSlice(w, n);
      assert Six(c)[1..] == Digits(w, n);
    case AddrDiff(n, d) =>
      PaddedSlice(d, n);
      assert Six(c)[1..] == Digits(d, n);
  }

  /** Words to write: the increment in bit 30, the word around it, or how far back
      it is in the table. */
  lemma WriteFields(c: Code)
    requires Spellable(c) && (c.WriteRaw? || c.WriteRef?)
    ensures 1 < |Six(c)| <= 6
    ensures var h, low := Six(c)[0], Padded(Six(c)[1..]);
            && h % 2 == (if c.inc then 1 else 0)
            && if c.WriteRaw? then h / 8 == 3 && h / 2 % 4 * 0x4000_0000 + low == c.val
               else h / 8 == 2 && h / 2 % 4 * 64 + low / 0x100_0000 == c.back
  {
    Pow64s();
    hide Num, Digits, Pow64, Padded;
    if c.WriteRaw? {
      PaddedDigits(c.val % ADDRS, 5);
      assert Six(c)[1..] == Digits(c.val % ADDRS, 5) && c.val % ADDRS * 1 == c.val % ADDRS;
    } else {
      PaddedOne(c.back % 64);
      assert Six(c)[1..] == [c.back % 64];
    }
  }

  /** The fields of a first value: three bits above the lowest. */
  lemma HeadFields(k: nat, q: nat, bit: nat)
    requires k < 4 && q < 8 && bit < 2
    ensures var h := 16 * k + q * 2 + bit; h % 2 == bit && h / 2 % 8 == q && h / 16 == k && h / 32 == k / 2
  {
  }

  /** Reads: the increment, and the length less one in three bits, or less nine in
      nine; none of them is the end of a write. */
  lemma ReadFields(c: Code)
    requires Spellable(c) && c.ReadWords?
    ensures 0 < |Six(c)| <= 2
    ensures var h, low := Six(c)[0], Padded(Six(c)[1..]);
            && h / 32 == 1 && h != 0x2e && h % 2 == (if c.inc then 1 else 0)
            && c.len == if h / 16 % 2 == 0 then 1 + h / 2 % 8 else 9 + h / 2 % 8 * 64 + low / 0x100_0000
  {
    hide Num, Padded;
    var bit := if c.inc then 1 else 0;
    if c.len <= 8 {
      HeadFields(2, c.len - 1, bit);
    } else {
      HeadFields(3, (c.len - 9) / 64, bit);
      PaddedOne((c.len - 9) % 64);
      assert Six(c)[1..] == [(c.len - 9) % 64];
    }
  }

  lemma PaddedSlice(v: nat, n: nat)
    requires 1 <= n <= 4 && v < Pow64(n)
    ensures Slice(Padded(Digits(v, n)), n) == v
  {
    Pow64s();
    PaddedDigits(v, n);
    hide Num, Digits, Pow64, Padded;
  }

  lemma PaddedOne(k: nat)
    requires k < 64
    ensures Padded([k]) / 0x100_0000 == k
  {
    Pow64s();
    OneDigit(k);
    NumZeros([k], 4);
    hide Num, Pow64;
  }

  /** The first n six-bit groups of the thirty. */
  function Slice(low: nat, n: nat): nat {
    if n == 1 then low / 0x100_0000 else if n == 2 then low / 0x4_0000 else if n == 3 then low / 0x1000 else low / 64
  }

  lemma OneDigit(x: nat)
    requires x < 64
    ensures Num([x]) == x
  {
    assert [x][..0] == [];
  }

  lemma Pow64s()
    ensures Pow64(0) == 1 && Pow64(1) == 64 && Pow64(2) == 0x1000 && Pow64(3) == 0x4_0000
    ensures Pow64(4) == 0x100_0000 && Pow64(5) == ADDRS
  {
    assert Pow64(2) == 64 * Pow64(1);
    assert Pow64(3) == 64 * Pow64(2);
    assert Pow64(4) == 64 * Pow64(3);
  }

  /** The stream of characters as codewords; characters outside the code
      (line ends) only separate them. */
  function Parse(s: string): seq<Code> {
    if s == [] then []
    else
      var h := DeviceRead(s[0]);
      if h >= 64 then Parse(s[1..])
      else if |s| < Length(h) then []
      else [Meaning(Read(s[..Length(h)]))] + Parse(s[Length(h)..])
  }

  function Chars(c: Code): string
    requires Spellable(c)
  {
    Spell(Six(c))
  }

  predicate AllSpellable(cs: seq<Code>) { forall i :: 0 <= i < |cs| ==> Spellable(cs[i]) }

  function AllChars(cs: seq<Code>): string
    requires AllSpellable(cs)
  {
    if cs == [] then [] else Chars(cs[0]) + AllChars(cs[1..])
  }

  /** The code is prefix free: a codeword in front of anything is read as itself. */
  lemma ParseCode(c: Code, rest: string)
    requires Spellable(c)
    ensures Parse(Chars(c) + rest) == [c] + Parse(rest)
  {
    MeaningOfSix(c);
    SpellRead(Six(c));
    var s, n := Chars(c) + rest, |Six(c)|;
    hide Six, Meaning;
    assert DeviceRead(s[0]) == Read(Chars(c))[0] == Six(c)[0];
    assert s[..n] == Chars(c) && s[n..] == rest;
  }

  lemma {:induction false} ParseCodes(cs: seq<Code>, rest: string)
    requires AllSpellable(cs)
    ensures Parse(AllChars(cs) + rest) == cs + Parse(rest)
  {
    hide Chars, Parse, Spellable;
    if cs == [] {
      assert AllChars(cs) + rest == rest;
    } else {
      var c, tail := cs[0], cs[1..];
      ParseCodes(tail, rest);
      ParseCode(c, AllChars(tail) + rest);
      hide AllChars;
      assert AllChars(cs) + rest == Chars(c) + (AllChars(tail) + rest) by { AllCharsCons(cs, rest); }
      assert cs == [c] + tail;
    }
  }

  lemma AllCharsCons(cs: seq<Code>, rest: string)
    requires cs != [] && AllSpellable(cs)
    ensures AllChars(cs) + rest == Chars(cs[0]) + (AllChars(cs[1..]) + rest)
  {
    hide Chars, Spellable;
  }

  lemma ParseLine(rest: string)
    ensures Parse("\n" + rest) == Parse(rest)
  {
    assert ("\n" + rest)[1..] == rest;
  }
}
