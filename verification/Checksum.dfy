/** The Internet checksum of RFC 1071: both bodies of ipcksum() in
    sw/board/ipcksum.c, and ipchecksum() of sw/host/manping.cpp, which stores it
    in an IP header (RFC 791, section 3.1). */
module Checksum {
  import Division

  const WORD: nat := 0x1_0000_0000

  type word = x: int | 0 <= x < WORD

  /** The one's complement sum of a sum of sixteen-bit halves: zero only if all of
      them are zero. */
  function Folded(s: nat): (r: nat)
    ensures r < 0x1_0000
  {
    if s == 0 then 0 else 1 + (s - 1) % 0xffff
  }

  /** The sum of the halves of the words. */
  function Sum(words: seq<word>): nat {
    if words == [] then 0
    else Sum(words[..|words| - 1]) + words[|words| - 1] % 0x1_0000 + words[|words| - 1] / 0x1_0000
  }

  /** The checksum proper. */
  function InternetChecksum(words: seq<word>): nat { 0xffff - Folded(Sum(words)) }

  lemma SumMore(words: seq<word>, w: word)
    ensures Sum(words + [w]) == Sum(words) + w % 0x1_0000 + w / 0x1_0000
  {
    assert (words + [w])[..|words|] == words;
  }

  lemma {:induction false} SumAppend(x: seq<word>, y: seq<word>)
    ensures Sum(x + y) == Sum(x) + Sum(y)
  {
    if y == [] {
      assert x + y == x;
    } else {
      var init, w := y[..|y| - 1], y[|y| - 1];
      SumAppend(x, init);
      assert x + y == x + init + [w];
      SumMore(x + init, w);
    }
  }

  lemma {:induction false} SumAtMost(words: seq<word>)
    ensures Sum(words) <= 131070 * |words|
  {
    if words != [] {
      SumAtMost(words[..|words| - 1]);
    }
  }

  /** Multiples of 0xffff do not matter. */
  lemma FoldedMultiple(s: nat, k: nat)
    requires s > 0
    ensures Folded(s + 0xffff * k) == Folded(s)
  {
    Division.DivUnique(s - 1 + 0xffff * k, 0xffff, (s - 1) / 0xffff + k, (s - 1) % 0xffff);
  }

  lemma FoldOnce(s: nat)
    ensures Folded(s % 0x1_0000 + s / 0x1_0000) == Folded(s)
    ensures s < 0x1_0000 ==> Folded(s) == s
    ensures s >= 0x1_0000 ==> s % 0x1_0000 + s / 0x1_0000 < s
  {
    if s >= 0x1_0000 {
      FoldedMultiple(s % 0x1_0000 + s / 0x1_0000, s / 0x1_0000);
    }
  }

  /** What makes it a checksum: with it the halves add up to a multiple of 0xffff,
      and it is 0xffff only if there is nothing to add. */
  lemma ChecksumCompletes(words: seq<word>)
    ensures InternetChecksum(words) < 0x1_0000
    ensures (InternetChecksum(words) + Sum(words)) % 0xffff == 0
    ensures InternetChecksum(words) == 0xffff <==> Sum(words) == 0
  {
    var s := Sum(words);
    hide Sum;
    if s > 0 {
      var q, r := (s - 1) / 0xffff, (s - 1) % 0xffff;
      assert s == q * 0xffff + r + 1;
      assert InternetChecksum(words) + s == (q + 1) * 0xffff;
      Division.MulMod(q + 1, 0xffff);
    }
  }

  /** The example of section 3 of RFC 1071: 0001, f203, f4f5 and f6f7 add up to ddf2. */
  lemma Example()
    ensures InternetChecksum([0x0001_f203, 0xf4f5_f6f7]) == 0x220d
  {
    hide Sum;
    NoHalves();
    var a, b: word := 0x0001_f203, 0xf4f5_f6f7;
    SumMore([], a);
    SumMore([a], b);
    assert [] + [a] == [a] && [a] + [b] == [a, b];
    assert Sum([a, b]) == 0x2_ddf0;
  }

  lemma NoHalves()
    ensures Sum([]) == 0
  {
  }

  /** Equal sums stay equal when the same is added. */
  lemma FoldedAdd(x: nat, y: nat, z: nat)
    requires Folded(x) == Folded(y)
    ensures Folded(x + z) == Folded(y + z)
  {
    if x > 0 && y > 0 {
      var k := (x - 1) / 0xffff - (y - 1) / 0xffff;
      assert x - y == 0xffff * k;
      if k <= 0 {
        FoldedMultiple(x + z, -k);
      } else {
        FoldedMultiple(y + z, k);
      }
      hide Folded;
    }
  }

  // ---------- The loop in C ----------

  function AddWord(x: word, y: word): word { (x + y) % WORD }

  /** What the loop in C has: its accumulator is one word. */
  function LoopValue(words: seq<word>): nat { 0xffff - Folded(Sum(words) % WORD) }

  method IpcksumC(len: nat, packet: array<word>) returns (r: word)
    requires len <= packet.Length
    ensures r == LoopValue(packet[..len])
  {
    hide Folded, AddWord;
    var checksum: word := 0;
    var i := 0;
    assert packet[..0] == [];
    while i < len
      invariant 0 <= i <= len && checksum == Sum(packet[..i]) % WORD
    {
      SumMore(packet[..i], packet[i]);
      assert packet[..i] + [packet[i]] == packet[..i + 1];
      AddInWord(Sum(packet[..i]), packet[i] % 0x1_0000, packet[i] / 0x1_0000);
      checksum := AddWord(AddWord(checksum, packet[i] % 0x1_0000), packet[i] / 0x1_0000);
      i := i + 1;
    }
    ghost var s := checksum;
    while checksum / 0x1_0000 != 0
      invariant Folded(checksum) == Folded(s)
      decreases checksum
    {
      FoldOnce(checksum);
      checksum := checksum % 0x1_0000 + checksum / 0x1_0000;
    }
    FoldOnce(checksum);
    r := 0xffff - checksum;
  }

  lemma AddInWord(s: nat, x: word, y: word)
    ensures AddWord(AddWord(s % WORD, x), y) == (s + x + y) % WORD
  {
  }

  // ---------- The loop in assembly ----------

  /** Whole words, with the carry brought around.  At least one word is read. */
  method IpcksumAsm(len: nat, packet: array<word>) returns (r1: word)
    requires 1 <= len <= packet.Length
    ensures r1 == InternetChecksum(packet[..len])
  {
    hide Folded, Sum;
    var r3, r2: nat := len, 0;
    r1 := 0;
    NoWords();
    assert packet[..0] == [];
    while true
      invariant 0 < r3 <= len && r2 == len - r3 && Folded(r1) == Folded(Sum(packet[..r2]))
      decreases r3
    {
      var r4 := packet[r2];
      WordIn(r1, r4, Sum(packet[..r2]));
      SumMore(packet[..r2], r4);
      assert packet[..r2] + [r4] == packet[..r2 + 1];
      var carry := r1 + r4 >= WORD;
      r1 := (r1 + r4) % WORD;
      if carry {
        r1 := (r1 + 1) % WORD;
      }
      r2 := r2 + 1;
      r3 := r3 - 1;
      if r3 == 0 {
        break;
      }
    }
    r1 := FoldAsm(r1);
    r1 := 0xffff - r1;
  }

  /** The halves of the accumulator, with the carry brought around once more. */
  method FoldAsm(a: word) returns (r1: word)
    ensures r1 == Folded(a)
  {
    FoldOnce(a);
    var r3 := a / 0x1_0000;
    r1 := a % 0x1_0000 + r3;
    CarryAround(r1);
    hide Folded;
    if r1 / 0x1_0000 != 0 {
      r1 := r1 + 1;
    }
    r1 := r1 % 0x1_0000;
  }

  lemma CarryAround(x: nat)
    requires x <= 0x1_fffe
    ensures x < 0x1_0000 ==> x / 0x1_0000 == 0 && x % 0x1_0000 == x == Folded(x)
    ensures x >= 0x1_0000 ==> x / 0x1_0000 != 0 && (x + 1) % 0x1_0000 == x - 0xffff == Folded(x)
  {
    if x >= 0x1_0000 {
      FoldedMultiple(x - 0xffff, 1);
      Division.DivUnique(x + 1, 0x1_0000, 1, x - 0xffff);
    }
  }

  lemma NoWords()
    ensures Sum([]) == 0 && Folded(0) == 0
  {
  }

  /** A word counts as its halves do, and the carry as one. */
  lemma WordIn(r1: word, w: word, s: nat)
    requires Folded(r1) == Folded(s)
    ensures Folded(if r1 + w >= WORD then (r1 + w) % WORD + 1 else r1 + w) == Folded(s + w % 0x1_0000 + w / 0x1_0000)
    ensures r1 + w >= WORD ==> (r1 + w) % WORD + 1 < WORD
  {
    var k, low := w / 0x1_0000, w % 0x1_0000;
    FoldedAdd(r1, s, low + k);
    WholeOrHalves(r1, k, low);
    if r1 + w >= WORD {
      Division.DivUnique(r1 + w, WORD, 1, r1 + w - WORD);
      FoldedMultiple(r1 + w - WORD + 1, 0x1_0001);
    }
    hide Folded;
  }

  lemma WholeOrHalves(r1: nat, k: nat, low: nat)
    ensures Folded(r1 + k * 0x1_0000 + low) == Folded(r1 + (low + k))
  {
    if r1 + low + k > 0 {
      FoldedMultiple(r1 + (low + k), k);
    }
  }

  // ---------- Do they agree? ----------

  /** The two bodies agree on a packet just when its sum fits in a word. */
  lemma BodiesAgree(words: seq<word>)
    requires |words| < 0x8000_0000
    ensures LoopValue(words) == InternetChecksum(words) <==> Sum(words) < WORD
  {
    SumAtMost(words);
    var s := Sum(words);
    var k, low := s / WORD, s % WORD;
    if s >= WORD {
      assert 1 <= k < 0xffff;
      if low > 0 {
        assert s == low + k + 0xffff * (0x1_0001 * k);
        FoldedMultiple(low + k, 0x1_0001 * k);
        NextFolded(low, k);
      }
    }
  }

  lemma NextFolded(x: nat, k: nat)
    requires x > 0 && 1 <= k < 0xffff
    ensures Folded(x + k) != Folded(x)
  {
  }

  /** So they agree on all packets of a length just when that is no more than
      32768 words. */
  lemma LengthsThatAgree(n: nat)
    requires n < 0x8000_0000
    ensures n <= 32768 <==> forall words: seq<word> :: |words| == n ==> LoopValue(words) == InternetChecksum(words)
  {
    hide LoopValue, InternetChecksum;
    if n <= 32768 {
      forall words: seq<word> | |words| == n
        ensures LoopValue(words) == InternetChecksum(words)
      {
        SumAtMost(words);
        BodiesAgree(words);
      }
    } else {
      var words: seq<word> := seq(n, _ => 0xffff_ffff);
      SumOfOnes(n);
      BodiesAgree(words);
      assert |words| == n && Sum(words) >= WORD;
    }
  }

  lemma {:induction false} SumOfOnes(n: nat)
    ensures Sum(seq<word>(n, _ => 0xffff_ffff)) == 131070 * n
  {
    var words: seq<word> := seq(n, _ => 0xffff_ffff);
    if n > 0 {
      SumOfOnes(n - 1);
      assert words[..n - 1] == seq(n - 1, _ => 0xffff_ffff);
    }
  }

  // ---------- The checksum of an IP header ----------

  /** The sums of the low and of the high halves. */
  function LowSum(words: seq<word>): nat {
    if words == [] then 0 else LowSum(words[..|words| - 1]) + words[|words| - 1] % 0x1_0000
  }

  function HighSum(words: seq<word>): nat {
    if words == [] then 0 else HighSum(words[..|words| - 1]) + words[|words| - 1] / 0x1_0000
  }

  lemma {:induction false} TwoSums(words: seq<word>)
    ensures LowSum(words) + HighSum(words) == Sum(words)
    ensures LowSum(words) <= 0xffff * |words| && HighSum(words) <= 0xffff * |words|
  {
    if words != [] {
      TwoSums(words[..|words| - 1]);
    }
  }

  lemma TwoSumsMore(words: seq<word>, w: word)
    requires |words| < 15
    ensures LowSum(words + [w]) == LowSum(words) + w % 0x1_0000 <= 15 * 0xffff
    ensures HighSum(words + [w]) == HighSum(words) + w / 0x1_0000 % 0x1_0000 <= 15 * 0xffff
  {
    assert (words + [w])[..|words|] == words;
    TwoSums(words + [w]);
    hide Sum;
  }

  lemma AddSmall(x: word, y: word)
    requires x + y <= 30 * 0xffff
    ensures AddWord(x, y) == x + y
  {
  }

  /** The folded sum of a header: the low halves, the high halves, two folds. */
  method HeaderSum(npkt: nat, packet: array<word>) returns (checksum: word)
    requires npkt <= 15 && npkt <= packet.Length
    ensures checksum == Folded(Sum(packet[..npkt])) && checksum < 0x1_0000
  {
    TwoSums([]);
    TwoSums(packet[..npkt]);
    assert packet[..0] == [];
    hide Folded, Sum, LowSum, HighSum, AddWord;
    checksum := 0;
    var i := 0;
    while i < npkt
      invariant 0 <= i <= npkt && checksum == LowSum(packet[..i])
    {
      TwoSumsMore(packet[..i], packet[i]);
      assert packet[..i] + [packet[i]] == packet[..i + 1];
      AddSmall(checksum, packet[i] % 0x1_0000);
      checksum := AddWord(checksum, packet[i] % 0x1_0000);
      i := i + 1;
    }
    ghost var low := checksum;
    i := 0;
    while i < npkt
      invariant 0 <= i <= npkt && checksum == low + HighSum(packet[..i])
    {
      TwoSumsMore(packet[..i], packet[i]);
      assert packet[..i] + [packet[i]] == packet[..i + 1];
      AddSmall(checksum, packet[i] / 0x1_0000 % 0x1_0000);
      checksum := AddWord(checksum, packet[i] / 0x1_0000 % 0x1_0000);
      i := i + 1;
    }
    checksum := FoldTwice(checksum);
  }

  method FoldTwice(s: word) returns (r: word)
    requires s <= 30 * 0xffff
    ensures r == Folded(s) && r < 0x1_0000
  {
    FoldOnce(s);
    r := s % 0x1_0000 + s / 0x1_0000;
    FoldOnce(r);
    r := r % 0x1_0000 + r / 0x1_0000;
    FoldOnce(r);
  }

  /** A header with its checksum field cleared. */
  function Cleared(packet: seq<word>): seq<word>
    requires |packet| >= 3
  {
    packet[2 := packet[2] / 0x1_0000 * 0x1_0000]
  }

  /** ipchecksum(): the checksum of the header goes into its third word, and the
      final assertion holds just when that word is part of the header, or the
      sum does not depend on it. */
  method Ipchecksum(packet: array<word>) returns (asserted: bool)
    requires packet.Length >= 3 && packet[0] / 0x100_0000 % 16 <= packet.Length
    modifies packet
    ensures var n := old(packet[0]) / 0x100_0000 % 16;
            var cleared := Cleared(old(packet[..]));
            && packet[..] == cleared[2 := cleared[2] + InternetChecksum(cleared[..n])]
            && packet[2] / 0x1_0000 == old(packet[2]) / 0x1_0000
            && (forall i :: 0 <= i < packet.Length && i != 2 ==> packet[i] == old(packet[i]))
            && (asserted <==> n >= 3 || Folded(Sum(cleared[..n])) == 0xffff)
            && (asserted ==> InternetChecksum(packet[..n]) == 0)
  {
    hide Folded, Sum;
    var npkt := packet[0] / 0x100_0000 % 16;
    packet[2] := packet[2] / 0x1_0000 * 0x1_0000;
    ghost var cleared := packet[..];
    var checksum := HeaderSum(npkt, packet);
    packet[2] := packet[2] + (0xffff - checksum % 0x1_0000);
    assert packet[..] == cleared[2 := cleared[2] + InternetChecksum(cleared[..npkt])];
    HeaderChecks(cleared, npkt);
    checksum := HeaderSum(npkt, packet);
    checksum := 0xffff - checksum;
    asserted := checksum == 0;
  }

  /** With the checksum in place, the sum folds to all ones. */
  lemma HeaderChecks(cleared: seq<word>, n: nat)
    requires 3 <= |cleared| && n <= |cleared| && cleared[2] % 0x1_0000 == 0
    ensures var filled := cleared[2 := cleared[2] + InternetChecksum(cleared[..n])];
            Folded(Sum(filled[..n])) == if n >= 3 then 0xffff else Folded(Sum(cleared[..n]))
  {
    var c := InternetChecksum(cleared[..n]);
    var filled := cleared[2 := cleared[2] + c];
    if n >= 3 {
      FieldAdds(cleared[..2], cleared[2], c, cleared[3..n]);
      assert cleared[..n] == cleared[..2] + [cleared[2]] + cleared[3..n];
      assert filled[..n] == cleared[..2] + [cleared[2] + c] + cleared[3..n];
      CheckFolds(Sum(cleared[..n]));
    } else {
      assert filled[..n] == cleared[..n];
    }
  }

  lemma FieldAdds(x: seq<word>, w: word, c: nat, y: seq<word>)
    requires w % 0x1_0000 == 0 && c < 0x1_0000
    ensures Sum(x + [w + c] + y) == Sum(x + [w] + y) + c
  {
    hide Sum;
    SumAppend(x + [w + c], y);
    SumAppend(x + [w], y);
    SumMore(x, w + c);
    SumMore(x, w);
  }

  lemma CheckFolds(s: nat)
    ensures Folded(s + 0xffff - Folded(s)) == 0xffff
  {
    if s > 0 {
      var k := (s - 1) / 0xffff;
      assert s + 0xffff - Folded(s) == 0xffff * (k + 1);
      FoldedMultiple(0xffff, k);
    }
  }

  /** Every header a version of IP allows, of 5 to 15 words, passes. */
  lemma HeadersPass(cleared: seq<word>, n: nat)
    requires 5 <= n <= 15 && n <= |cleared| && cleared[2] % 0x1_0000 == 0
    ensures InternetChecksum(cleared[2 := cleared[2] + InternetChecksum(cleared[..n])][..n]) == 0
  {
    HeaderChecks(cleared, n);
    hide Sum, Folded;
  }

  /** A header that claims to be one word long, and fails the final assertion. */
  lemma ShortHeaderFails()
    ensures var packet: seq<word> := [0x0100_0000, 0, 0];
            var filled := Cleared(packet)[2 := Cleared(packet)[2] + InternetChecksum(Cleared(packet)[..1])];
            packet[0] / 0x100_0000 % 16 == 1 && InternetChecksum(filled[..1]) != 0
  {
    var packet: seq<word> := [0x0100_0000, 0, 0];
    HeaderChecks(Cleared(packet), 1);
    assert Cleared(packet)[..1] == [0x0100_0000];
    SumMore([], 0x0100_0000);
    assert Sum([]) == 0 && [] + [0x0100_0000] == [0x0100_0000];
  }
}
