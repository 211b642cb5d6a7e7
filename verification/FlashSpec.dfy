/** What FLASHDRVR::write is for: the memory it leaves and the operations it
    performs, as functions of the memory it finds.  Addresses count from the
    start of the flash. */
module FlashSpec {
  import opened Bytes
  import opened FlashDevice
  import opened FlashSimulator
  import Division

  /** data has been programmed at a: the bits that are 0 in data are 0. */
  function AfterProgram(mem: seq<byte>, a: nat, data: seq<byte>): (r: seq<byte>)
    ensures |r| == |mem|
  {
    seq(|mem|, i requires 0 <= i < |mem| =>
      if a <= i < a + |data| then And8(mem[i], data[i - a]) else mem[i])
  }

  /** The page buffer with data from offset off on. */
  function Loaded(off: nat, data: seq<byte>): (r: seq<byte>)
    ensures |r| == PAGE
  {
    seq(PAGE, k requires 0 <= k < PAGE => if off <= k < off + |data| then data[k - off] else 255)
  }

  lemma LoadedMore(off: nat, data: seq<byte>, i: nat)
    requires i < |data| && off + i < PAGE
    ensures Loaded(off, data[..i])[off + i := data[i]] == Loaded(off, data[..i + 1])
  {
  }

  lemma LoadedNone(off: nat)
    ensures Loaded(off, []) == seq(PAGE, _ => 255)
  {
  }

  /** Programming a page from its buffer changes exactly the bytes loaded. */
  lemma ProgramIs(mem: seq<byte>, a: nat, data: seq<byte>)
    requires a % PAGE + |data| <= PAGE
    ensures ProgramPage(mem, PageOf(a), Loaded(a % PAGE, data)) == AfterProgram(mem, a, data)
  {
    forall i | 0 <= i < |mem|
      ensures ProgramPage(mem, PageOf(a), Loaded(a % PAGE, data))[i] == AfterProgram(mem, a, data)[i]
    {
      And8Ones(mem[i]);
    }
  }

  predicate Blank(data: seq<byte>) { forall i :: 0 <= i < |data| ==> data[i] == 255 }

  /** The part of [a, a + n) inside the sector at s is [Lo, Hi). */
  function Lo(a: nat, s: nat): nat { if a > s then a else s }

  function Hi(a: nat, n: nat, s: nat): nat { if a + n > s + SECTOR then s + SECTOR else a + n }

  /** [a, a + |data|) lies inside the memory. */
  predicate InRange(mem: seq<byte>, a: nat, data: seq<byte>) { a + |data| <= |mem| }

  /** Some wanted byte of the sector at s needs a 0 bit turned into a 1. */
  ghost predicate NeedsErase(mem: seq<byte>, a: nat, data: seq<byte>, s: nat)
    requires InRange(mem, a, data)
  {
    exists i :: Lo(a, s) <= i < Hi(a, |data|, s) && And8(mem[i], data[i - a]) != data[i - a]
  }

  /** The sector at s already holds what is wanted of it. */
  ghost predicate Matches(mem: seq<byte>, a: nat, data: seq<byte>, s: nat)
    requires InRange(mem, a, data)
  {
    forall i :: Lo(a, s) <= i < Hi(a, |data|, s) ==> mem[i] == data[i - a]
  }

  /** The memory after a write: data in its place, and outside it what was
      there before, or 0xff where the sector had to be erased. */
  ghost function Written(mem: seq<byte>, a: nat, data: seq<byte>): (r: seq<byte>)
    requires InRange(mem, a, data)
    ensures |r| == |mem|
  {
    seq(|mem|, i requires 0 <= i < |mem| =>
      if a <= i < a + |data| then data[i - a]
      else if NeedsErase(mem, a, data, SectorOf(i)) then 255
      else mem[i])
  }

  /** In full: a byte outside the data is erased just when some byte of the data in
      its 64 kB sector has a 1 where the memory has a 0. */
  lemma WrittenAt(mem: seq<byte>, a: nat, data: seq<byte>, i: nat)
    requires InRange(mem, a, data) && i < |mem|
    ensures Written(mem, a, data)[i] ==
            if a <= i < a + |data| then data[i - a]
            else if exists j :: a <= j < a + |data| && j / 0x1_0000 == i / 0x1_0000
                                && And8(mem[j], data[j - a]) != data[j - a]
            then 255
            else mem[i]
  {
    hide And8;
    var s := SectorOf(i);
    SectorStartsAt(i);
    forall j: nat
      ensures s <= j < s + SECTOR <==> j / 0x1_0000 == i / 0x1_0000
    {
      SameSectorAs(i, j);
    }
    if NeedsErase(mem, a, data, s) {
      var j :| Lo(a, s) <= j < Hi(a, |data|, s) && And8(mem[j], data[j - a]) != data[j - a];
      assert a <= j < a + |data| && j / 0x1_0000 == i / 0x1_0000;
    }
    if j :| a <= j < a + |data| && j / 0x1_0000 == i / 0x1_0000 && And8(mem[j], data[j - a]) != data[j - a] {
      assert Lo(a, s) <= j < Hi(a, |data|, s);
    }
  }

  lemma SectorStartsAt(i: nat)
    ensures SectorOf(i) == i / 0x1_0000 * 0x1_0000
  {
  }

  lemma SameSectorAs(i: nat, j: nat)
    ensures i / 0x1_0000 * 0x1_0000 <= j < i / 0x1_0000 * 0x1_0000 + SECTOR <==> j / 0x1_0000 == i / 0x1_0000
  {
    var q := i / 0x1_0000;
    if q * 0x1_0000 <= j < q * 0x1_0000 + SECTOR {
      Division.DivUnique(j, 0x1_0000, q, j - q * 0x1_0000);
    }
  }

  /** The first location of [i, hi) that differs from data, or hi. */
  function FirstDiff(mem: seq<byte>, a: nat, data: seq<byte>, i: nat, hi: nat): (r: nat)
    requires a <= i <= hi <= a + |data| <= |mem|
    ensures i <= r <= hi
    ensures forall k :: i <= k < r ==> mem[k] == data[k - a]
    ensures r < hi ==> mem[r] != data[r - a]
    decreases hi - i
  {
    if i == hi || mem[i] != data[i - a] then i else FirstDiff(mem, a, data, i + 1, hi)
  }

  /** Where programming starts in a sector that does not match: everything of
      it that is wanted if it is erased, otherwise the first word that differs. */
  ghost function Start(mem: seq<byte>, a: nat, data: seq<byte>, s: nat): nat
    requires InRange(mem, a, data) && Lo(a, s) <= Hi(a, |data|, s)
  {
    if NeedsErase(mem, a, data, s) then Lo(a, s)
    else
      var f := FirstDiff(mem, a, data, Lo(a, s), Hi(a, |data|, s));
      f - (f - Lo(a, s)) % 4
  }

  /** The page that contains p ends here, or the data does. */
  function PageEnd(p: nat, end: nat): nat {
    if PageOf(p) + PAGE < end then PageOf(p) + PAGE else end
  }

  /** One program operation for each page of [p, end) that is not all ones. */
  function PageLog(a: nat, data: seq<byte>, p: nat, end: nat): seq<Event>
    requires a <= p && end <= a + |data|
    decreases end - p
  {
    if p >= end then []
    else
      (if Blank(data[p - a..PageEnd(p, end) - a]) then [] else [Programmed(PageOf(p))])
      + PageLog(a, data, PageEnd(p, end), end)
  }

  /** The operations on the sector at s. */
  ghost function SectorLog(mem: seq<byte>, a: nat, data: seq<byte>, s: nat): seq<Event>
    requires InRange(mem, a, data) && Lo(a, s) <= Hi(a, |data|, s)
  {
    if Matches(mem, a, data, s) then []
    else
      (if NeedsErase(mem, a, data, s) then [Erased(s)] else [])
      + PageLog(a, data, Start(mem, a, data, s), Hi(a, |data|, s))
  }

  /** The operations on the sectors from s to the end of the data. */
  ghost function SectorsLog(mem: seq<byte>, a: nat, data: seq<byte>, s: nat): seq<Event>
    requires InRange(mem, a, data) && SectorOf(a) <= s
    decreases a + |data| - s
  {
    if s >= a + |data| then []
    else SectorLog(mem, a, data, s) + SectorsLog(mem, a, data, s + SECTOR)
  }

  /** The operations of a whole write. */
  ghost function WriteLog(mem: seq<byte>, a: nat, data: seq<byte>): seq<Event>
    requires InRange(mem, a, data)
  {
    SectorsLog(mem, a, data, SectorOf(a))
  }

  /** The memory after the sector at s has been written. */
  ghost function SectorWritten(mem: seq<byte>, a: nat, data: seq<byte>, s: nat): (r: seq<byte>)
    requires InRange(mem, a, data)
    ensures |r| == |mem|
  {
    seq(|mem|, i requires 0 <= i < |mem| =>
      if SectorOf(i) != s then mem[i]
      else if a <= i < a + |data| then data[i - a]
      else if NeedsErase(mem, a, data, s) then 255
      else mem[i])
  }

  /** The memory with data in [lo, hi). */
  function Filled(mem: seq<byte>, a: nat, data: seq<byte>, lo: nat, hi: nat): (r: seq<byte>)
    requires a <= lo && hi <= a + |data|
    ensures |r| == |mem|
  {
    seq(|mem|, i requires 0 <= i < |mem| => if lo <= i < hi then data[i - a] else mem[i])
  }

  /** Every byte of data in [lo, hi) can be programmed without an erase. */
  ghost predicate Programmable(mem: seq<byte>, a: nat, data: seq<byte>, lo: nat, hi: nat)
    requires a <= lo && hi <= a + |data| <= |mem|
  {
    forall i :: lo <= i < hi ==> And8(mem[i], data[i - a]) == data[i - a]
  }

  /** Programming a page of programmable data, or skipping it because it is
      all ones, leaves the data there. */
  lemma PageFilled(mem: seq<byte>, a: nat, data: seq<byte>, lo: nat, hi: nat)
    requires a <= lo <= hi <= a + |data| <= |mem| && Programmable(mem, a, data, lo, hi)
    ensures var page := data[lo - a..hi - a];
            (if Blank(page) then mem else AfterProgram(mem, lo, page)) == Filled(mem, a, data, lo, hi)
    ensures AfterProgram(mem, lo, data[lo - a..hi - a])[lo..hi] == data[lo - a..hi - a]
  {
    hide And8;
    var page := data[lo - a..hi - a];
    var after := AfterProgram(mem, lo, page);
    forall i | 0 <= i < |mem|
      ensures after[i] == if lo <= i < hi then data[i - a] else mem[i]
      ensures Blank(page) && lo <= i < hi ==> mem[i] == data[i - a]
    {
      if lo <= i < hi {
        assert page[i - lo] == data[i - a];
        And8Ones(mem[i]);
      }
    }
    assert after == Filled(mem, a, data, lo, hi);
    assert Blank(page) ==> mem == Filled(mem, a, data, lo, hi);
    assert after[lo..hi] == page;
  }

  lemma FilledMore(mem: seq<byte>, a: nat, data: seq<byte>, lo: nat, mid: nat, hi: nat)
    requires a <= lo <= mid <= hi <= a + |data| <= |mem|
    ensures Filled(Filled(mem, a, data, lo, mid), a, data, mid, hi) == Filled(mem, a, data, lo, hi)
    ensures Programmable(mem, a, data, lo, hi) ==>
              Programmable(Filled(mem, a, data, lo, mid), a, data, mid, hi)
  {
  }

  lemma FilledNone(mem: seq<byte>, a: nat, data: seq<byte>, lo: nat)
    requires a <= lo <= a + |data|
    ensures Filled(mem, a, data, lo, lo) == mem
  {
  }

  /** One page further. */
  lemma FilledNext(mem: seq<byte>, a: nat, data: seq<byte>, lo: nat, mid: nat, end: nat, hi: nat)
    requires a <= lo <= mid <= end <= hi <= a + |data| <= |mem| && Programmable(mem, a, data, lo, hi)
    ensures Filled(Filled(mem, a, data, lo, mid), a, data, mid, end) == Filled(mem, a, data, lo, end)
    ensures Programmable(Filled(mem, a, data, lo, mid), a, data, mid, end)
  {
    FilledMore(mem, a, data, lo, mid, end);
  }

  lemma PageLogNext(a: nat, data: seq<byte>, x: nat, hi: nat)
    requires a <= x < hi <= a + |data|
    ensures PageLog(a, data, x, hi) ==
      (if Blank(data[x - a..PageEnd(x, hi) - a]) then [] else [Programmed(PageOf(x))])
      + PageLog(a, data, PageEnd(x, hi), hi)
  {
  }

  lemma PageLogDone(a: nat, data: seq<byte>, hi: nat)
    requires a <= hi <= a + |data|
    ensures PageLog(a, data, hi, hi) == []
  {
  }

  lemma FirstDiffIs(mem: seq<byte>, a: nat, data: seq<byte>, i: nat, hi: nat, f: nat)
    requires a <= i <= f < hi <= a + |data| <= |mem|
    requires mem[f] != data[f - a] && forall k :: i <= k < f ==> mem[k] == data[k - a]
    ensures FirstDiff(mem, a, data, i, hi) == f
  {
  }

  /** Programming a sector that needs no erase from its first differing word on. */
  lemma SectorFilled(mem: seq<byte>, a: nat, data: seq<byte>, s: nat)
    requires InRange(mem, a, data) && s % SECTOR == 0 && Lo(a, s) <= Hi(a, |data|, s)
    requires !NeedsErase(mem, a, data, s) && !Matches(mem, a, data, s)
    ensures var q := Start(mem, a, data, s);
            && a <= q && Programmable(mem, a, data, q, Hi(a, |data|, s))
            && Filled(mem, a, data, q, Hi(a, |data|, s)) == SectorWritten(mem, a, data, s)
  {
    hide And8, SectorOf;
    var lo, hi := Lo(a, s), Hi(a, |data|, s);
    var f, q := FirstDiff(mem, a, data, lo, hi), Start(mem, a, data, s);
    assert lo <= q <= f;
    SectorBounds(s);
    forall i | lo <= i < hi
      ensures And8(mem[i], data[i - a]) == data[i - a]
    {
    }
    forall i | 0 <= i < |mem|
      ensures Filled(mem, a, data, q, hi)[i] == SectorWritten(mem, a, data, s)[i]
    {
    }
  }

  /** Programming everything that is wanted of a sector after erasing it. */
  lemma ErasedSectorFilled(mem: seq<byte>, a: nat, data: seq<byte>, s: nat)
    requires InRange(mem, a, data) && s % SECTOR == 0 && Lo(a, s) <= Hi(a, |data|, s)
    requires NeedsErase(mem, a, data, s)
    ensures var e := Erase(mem, s, SECTOR);
            && Programmable(e, a, data, Lo(a, s), Hi(a, |data|, s))
            && Filled(e, a, data, Lo(a, s), Hi(a, |data|, s)) == SectorWritten(mem, a, data, s)
  {
    hide And8, SectorOf;
    var e := Erase(mem, s, SECTOR);
    SectorBounds(s);
    forall i | Lo(a, s) <= i < Hi(a, |data|, s)
      ensures And8(e[i], data[i - a]) == data[i - a]
    {
      And8Ones(data[i - a]);
    }
  }

  lemma SectorBounds(s: nat)
    requires s % SECTOR == 0
    ensures forall i: nat :: SectorOf(i) == s <==> s <= i < s + SECTOR
  {
    forall i: nat
      ensures SectorOf(i) == s <==> s <= i < s + SECTOR
    {
    }
  }

  /** A sector that matches is written already. */
  lemma MatchingSector(mem: seq<byte>, a: nat, data: seq<byte>, s: nat)
    requires InRange(mem, a, data) && s % SECTOR == 0 && Matches(mem, a, data, s)
    ensures !NeedsErase(mem, a, data, s) && SectorWritten(mem, a, data, s) == mem
  {
    SectorBounds(s);
    forall i | Lo(a, s) <= i < Hi(a, |data|, s)
      ensures And8(mem[i], data[i - a]) == data[i - a]
    {
      And8Idem(mem[i]);
    }
  }

  /** Two memories agree on what is wanted of the sector at s. */
  ghost predicate SameSector(m: seq<byte>, m': seq<byte>, a: nat, data: seq<byte>, s: nat)
    requires InRange(m, a, data) && |m'| == |m|
  {
    forall i :: Lo(a, s) <= i < Hi(a, |data|, s) ==> m[i] == m'[i]
  }

  lemma SectorSame(m: seq<byte>, m': seq<byte>, a: nat, data: seq<byte>, s: nat)
    requires InRange(m, a, data) && |m'| == |m| && SameSector(m, m', a, data, s)
    ensures NeedsErase(m, a, data, s) == NeedsErase(m', a, data, s)
    ensures Matches(m, a, data, s) == Matches(m', a, data, s)
  {
    hide And8;
  }

  lemma SectorLogSame(m: seq<byte>, m': seq<byte>, a: nat, data: seq<byte>, s: nat)
    requires InRange(m, a, data) && |m'| == |m| && Lo(a, s) <= Hi(a, |data|, s)
    requires SameSector(m, m', a, data, s)
    ensures SectorLog(m, a, data, s) == SectorLog(m', a, data, s)
  {
    SectorSame(m, m', a, data, s);
    StartSame(m, m', a, data, s);
    hide And8, PageLog, NeedsErase, Matches, Start;
  }

  lemma StartSame(m: seq<byte>, m': seq<byte>, a: nat, data: seq<byte>, s: nat)
    requires InRange(m, a, data) && |m'| == |m| && Lo(a, s) <= Hi(a, |data|, s)
    requires SameSector(m, m', a, data, s)
    ensures Start(m, a, data, s) == Start(m', a, data, s)
  {
    hide NeedsErase, FirstDiff, Matches;
    SectorSame(m, m', a, data, s);
    var lo, hi := Lo(a, s), Hi(a, |data|, s);
    assert a <= lo <= hi <= a + |data|;
    FirstDiffSame(m, m', a, data, lo, hi);
  }

  lemma FirstDiffSame(m: seq<byte>, m': seq<byte>, a: nat, data: seq<byte>, lo: nat, hi: nat)
    requires |m'| == |m| && a <= lo <= hi <= a + |data| <= |m|
    requires forall i :: lo <= i < hi ==> m[i] == m'[i]
    ensures FirstDiff(m, a, data, lo, hi) == FirstDiff(m', a, data, lo, hi)
  {
    var f := FirstDiff(m, a, data, lo, hi);
    if f < hi {
      FirstDiffIs(m', a, data, lo, hi, f);
    }
  }

  /** The memory when the sectors below t have been written. */
  ghost function WrittenTo(mem: seq<byte>, a: nat, data: seq<byte>, t: nat): (r: seq<byte>)
    requires InRange(mem, a, data)
    ensures |r| == |mem|
  {
    seq(|mem|, i requires 0 <= i < |mem| => if i < t then Written(mem, a, data)[i] else mem[i])
  }

  lemma NextSector(mem: seq<byte>, a: nat, data: seq<byte>, t: nat)
    requires InRange(mem, a, data) && t % SECTOR == 0 && Lo(a, t) <= Hi(a, |data|, t)
    ensures var m := WrittenTo(mem, a, data, t);
            && SectorWritten(m, a, data, t) == WrittenTo(mem, a, data, t + SECTOR)
            && SectorLog(m, a, data, t) == SectorLog(mem, a, data, t)
            && NeedsErase(m, a, data, t) == NeedsErase(mem, a, data, t)
  {
    hide And8, SectorOf, SectorLog, NeedsErase;
    var m := WrittenTo(mem, a, data, t);
    SectorBounds(t);
    SectorSame(m, mem, a, data, t);
    SectorLogSame(m, mem, a, data, t);
    forall i | 0 <= i < |mem|
      ensures SectorWritten(m, a, data, t)[i] == WrittenTo(mem, a, data, t + SECTOR)[i]
    {
      var i: nat := i;
      if t <= i < t + SECTOR {
        assert SectorOf(i) == t;
        assert Written(mem, a, data)[i] ==
          if a <= i < a + |data| then data[i - a] else if NeedsErase(mem, a, data, t) then 255 else mem[i];
      } else {
        assert SectorOf(i) != t;
      }
    }
  }

  lemma FirstSector(mem: seq<byte>, a: nat, data: seq<byte>)
    requires InRange(mem, a, data)
    ensures WrittenTo(mem, a, data, SectorOf(a)) == mem
  {
    hide And8;
    forall i | 0 <= i < SectorOf(a)
      ensures i < |mem| ==> Written(mem, a, data)[i] == mem[i]
    {
      assert SectorOf(i) + SECTOR <= SectorOf(a) by { BelowSector(i, a); }
    }
  }

  lemma BelowSector(i: nat, a: nat)
    requires i < SectorOf(a)
    ensures SectorOf(i) + SECTOR <= SectorOf(a)
  {
  }

  lemma LastSector(mem: seq<byte>, a: nat, data: seq<byte>, t: nat)
    requires InRange(mem, a, data) && t % SECTOR == 0 && a + |data| <= t
    ensures WrittenTo(mem, a, data, t) == Written(mem, a, data)
    ensures SectorOf(a) <= t ==> SectorsLog(mem, a, data, t) == []
  {
    hide And8;
    forall i | t <= i < |mem|
      ensures Written(mem, a, data)[i] == mem[i]
    {
      assert t <= SectorOf(i);
    }
  }

  // ---------- What follows from the two functions ----------

  lemma PageLogErases(a: nat, data: seq<byte>, p: nat, end: nat, s: nat)
    requires a <= p && end <= a + |data|
    ensures multiset(PageLog(a, data, p, end))[Erased(s)] == 0
    decreases end - p
  {
    if p < end {
      PageLogErases(a, data, PageEnd(p, end), end, s);
    }
  }

  lemma SectorLogErases(mem: seq<byte>, a: nat, data: seq<byte>, t: nat, s: nat)
    requires InRange(mem, a, data) && t % SECTOR == 0 && Lo(a, t) <= Hi(a, |data|, t)
    ensures multiset(SectorLog(mem, a, data, t))[Erased(s)] ==
            if s == t && NeedsErase(mem, a, data, t) then 1 else 0
  {
    if Matches(mem, a, data, t) {
      MatchingSector(mem, a, data, t);
    } else {
      hide NeedsErase, Matches, PageLog;
      PageLogErases(a, data, Start(mem, a, data, t), Hi(a, |data|, t), s);
    }
  }

  /** A sector outside the data needs no erase. */
  lemma Outside(mem: seq<byte>, a: nat, data: seq<byte>, s: nat)
    requires InRange(mem, a, data) && (s < SectorOf(a) || a + |data| <= s) && s % SECTOR == 0
    ensures !NeedsErase(mem, a, data, s)
  {
    hide And8;
    assert Hi(a, |data|, s) <= Lo(a, s);
  }

  lemma {:induction false} SectorsLogErases(mem: seq<byte>, a: nat, data: seq<byte>, t: nat, s: nat)
    requires InRange(mem, a, data) && SectorOf(a) <= t && t % SECTOR == 0 && s % SECTOR == 0
    ensures multiset(SectorsLog(mem, a, data, t))[Erased(s)] ==
            if t <= s && NeedsErase(mem, a, data, s) then 1 else 0
    decreases a + |data| - t
  {
    hide SectorLog, NeedsErase;
    if t < a + |data| {
      SectorsLogErases(mem, a, data, t + SECTOR, s);
      SectorLogErases(mem, a, data, t, s);
      assert SectorsLog(mem, a, data, t) == SectorLog(mem, a, data, t) + SectorsLog(mem, a, data, t + SECTOR);
    } else if t <= s {
      Outside(mem, a, data, s);
    }
  }

  /** A write erases the sector at s, and erases it once, exactly when some
      wanted byte of it needs a 0 bit turned into a 1. */
  lemma ErasesExactly(mem: seq<byte>, a: nat, data: seq<byte>, s: nat)
    requires InRange(mem, a, data) && s % SECTOR == 0
    ensures multiset(WriteLog(mem, a, data))[Erased(s)] == if NeedsErase(mem, a, data, s) then 1 else 0
  {
    hide SectorsLog, NeedsErase;
    SectorsLogErases(mem, a, data, SectorOf(a), s);
    if s < SectorOf(a) {
      Outside(mem, a, data, s);
    }
  }

  lemma {:induction false} SilentFrom(mem: seq<byte>, a: nat, data: seq<byte>, t: nat)
    requires InRange(mem, a, data) && SectorOf(a) <= t && mem[a..a + |data|] == data
    ensures SectorsLog(mem, a, data, t) == []
    decreases a + |data| - t
  {
    if t < a + |data| {
      SilentFrom(mem, a, data, t + SECTOR);
      forall i | Lo(a, t) <= i < Hi(a, |data|, t)
        ensures mem[i] == data[i - a]
      {
        assert mem[i] == mem[a..a + |data|][i - a];
      }
    }
  }

  /** Repeating a write performs no operation and changes nothing. */
  lemma RepeatIsSilent(mem: seq<byte>, a: nat, data: seq<byte>)
    requires InRange(mem, a, data)
    ensures var m := Written(mem, a, data);
            && m[a..a + |data|] == data
            && WriteLog(m, a, data) == []
            && Written(m, a, data) == m
  {
    hide And8;
    var m := Written(mem, a, data);
    assert m[a..a + |data|] == data;
    SilentFrom(m, a, data, SectorOf(a));
    forall i | 0 <= i < |mem|
      ensures Written(m, a, data)[i] == m[i]
    {
      var s := SectorOf(i);
      assert s % SECTOR == 0;
      assert Matches(m, a, data, s);
      MatchingSector(m, a, data, s);
    }
  }

  // ---------- The sectors on which the part stops ----------

  /** Writing the sector at s does not erase it beyond where the part can. */
  ghost predicate Survives(mem: seq<byte>, a: nat, data: seq<byte>, s: nat)
    requires InRange(mem, a, data)
  {
    NeedsErase(mem, a, data, s) ==> s < ERASABLE
  }

  ghost predicate SurviveFrom(mem: seq<byte>, a: nat, data: seq<byte>, t: nat)
    requires InRange(mem, a, data)
  {
    forall s: nat :: t <= s && s % SECTOR == 0 ==> Survives(mem, a, data, s)
  }

  /** No sector from ERASABLE on needs an erase. */
  ghost predicate AllSurvive(mem: seq<byte>, a: nat, data: seq<byte>)
    requires InRange(mem, a, data)
  {
    forall s: nat :: s % SECTOR == 0 ==> Survives(mem, a, data, s)
  }

  lemma AllFrom(mem: seq<byte>, a: nat, data: seq<byte>)
    requires InRange(mem, a, data)
    ensures SurviveFrom(mem, a, data, SectorOf(a)) <==> AllSurvive(mem, a, data)
  {
    hide NeedsErase, SectorOf;
    forall s: nat | s < SectorOf(a) && s % SECTOR == 0
      ensures Survives(mem, a, data, s)
    {
      Outside(mem, a, data, s);
    }
  }

  lemma SurviveStep(mem: seq<byte>, a: nat, data: seq<byte>, t: nat)
    requires InRange(mem, a, data) && t % SECTOR == 0
    ensures SurviveFrom(mem, a, data, t) <==> Survives(mem, a, data, t) && SurviveFrom(mem, a, data, t + SECTOR)
  {
    hide Survives;
    forall s: nat | t <= s && s % SECTOR == 0
      ensures s == t || t + SECTOR <= s
    {
    }
  }

  /** The sectors written before do not matter. */
  lemma SurvivesNext(mem: seq<byte>, a: nat, data: seq<byte>, t: nat)
    requires InRange(mem, a, data) && t % SECTOR == 0 && Lo(a, t) <= Hi(a, |data|, t)
    ensures Survives(WrittenTo(mem, a, data, t), a, data, t) == Survives(mem, a, data, t)
  {
    hide NeedsErase, WrittenTo, SectorLog, SectorWritten;
    NextSector(mem, a, data, t);
  }

  lemma SurviveEnd(mem: seq<byte>, a: nat, data: seq<byte>, t: nat)
    requires InRange(mem, a, data) && a + |data| <= t
    ensures SurviveFrom(mem, a, data, t)
  {
  }

  /** A range below ERASABLE is safe whatever is there. */
  lemma LowSurvives(mem: seq<byte>, a: nat, data: seq<byte>)
    requires InRange(mem, a, data) && a + |data| <= ERASABLE
    ensures AllSurvive(mem, a, data)
  {
  }

  /** So is any range of a part that is blank there, or that has been written. */
  lemma EasySurvives(mem: seq<byte>, a: nat, data: seq<byte>)
    requires InRange(mem, a, data)
    requires Blank(mem[a..a + |data|]) || mem[a..a + |data|] == data
    ensures AllSurvive(mem, a, data)
  {
    forall s: nat
      ensures !NeedsErase(mem, a, data, s)
    {
      forall i | Lo(a, s) <= i < Hi(a, |data|, s)
        ensures And8(mem[i], data[i - a]) == data[i - a]
      {
        assert mem[a..a + |data|][i - a] == mem[i];
        And8Ones(data[i - a]);
        And8Idem(data[i - a]);
      }
    }
  }

  /** The part stops exactly on a write whose log has an erase from ERASABLE on. */
  lemma SurvivesByLog(mem: seq<byte>, a: nat, data: seq<byte>)
    requires InRange(mem, a, data)
    ensures AllSurvive(mem, a, data) <==>
            forall s: nat :: s % SECTOR == 0 && s >= ERASABLE ==> Erased(s) !in WriteLog(mem, a, data)
  {
    hide NeedsErase, WriteLog;
    forall s: nat | s % SECTOR == 0
      ensures Survives(mem, a, data, s) <==> s < ERASABLE || Erased(s) !in WriteLog(mem, a, data)
    {
      ErasesExactly(mem, a, data, s);
      assert Erased(s) in WriteLog(mem, a, data) <==> Erased(s) in multiset(WriteLog(mem, a, data));
    }
    hide Survives;
  }
}
