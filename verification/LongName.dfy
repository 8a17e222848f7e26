/** Long file names: put_lfn, pick_lfn and cmp_lfn on one directory entry. */
module LongName {
  import opened Bytes

  /** A WCHAR. */
  type Unit = x: int | 0 <= x < 0x1_0000

  const FF_MAX_LFN: nat := 255
  const LDIR_Ord: nat := 0
  const LDIR_Attr: nat := 11
  const LDIR_Type: nat := 12
  const LDIR_Chksum: nat := 13
  const LDIR_FstClusLO: nat := 26
  const LLEF: nat := 0x40
  const AM_LFN: nat := 0x0F

  /** Where unit s of an entry lies: at 1, 3, 5, 7, 9, 14, 16, 18, 20, 22, 24, 28 and 30. */
  function LfnOfs(s: nat): (o: nat)
    requires s < 13
  {
    if s < 5 then 1 + 2 * s else if s < 11 then 4 + 2 * s else 6 + 2 * s
  }

  /** The units of an entry. */
  ghost function Units(e: seq<Byte>): (u: seq<Unit>)
    requires |e| == 32
    ensures |u| == 13 && forall s :: 0 <= s < 13 ==> u[s] == LdWord(e, LfnOfs(s))
  {
    seq(13, s requires 0 <= s < 13 => LdWord(e, LfnOfs(s)))
  }

  /** c & LLEF. */
  predicate Flagged(c: nat) {
    c / 64 % 2 == 1
  }

  /** c & ~LLEF. */
  function Unflagged(c: nat): (r: nat)
    ensures r <= c
  {
    if Flagged(c) then c - 64 else c
  }

  /** Where the part of entry ord starts in the name, in unsigned 32-bit arithmetic. */
  function PartStart(ord: nat): (start: nat)
    requires ord < 256
    ensures if ord > 0 then start == 13 * (ord - 1) else start > FF_MAX_LFN + 13
  {
    (ord - 1) * 13 % DWORD
  }

  /** Unit i of a name as the entries store it: the name, a zero, then filler. */
  function Padded(name: seq<Unit>, i: nat): Unit {
    if i < |name| then name[i] else if i == |name| then 0 else 0xFFFF
  }

  ghost predicate ValidName(name: seq<Unit>) {
    1 <= |name| <= FF_MAX_LFN && forall i :: 0 <= i < |name| ==> name[i] != 0 && name[i] != 0xFFFF
  }

  /** The first n units are those of the name from base on. */
  ghost predicate Shows(u: seq<Unit>, name: seq<Unit>, base: nat, n: nat) {
    n <= |u| && forall s :: 0 <= s < n ==> u[s] == Padded(name, base + s)
  }

  /** Entry ord of the long name, for the short entry with checksum sum (section 'FAT Long Directory Entries' of the
      Microsoft FAT32 File System Specification 1.03). */
  ghost predicate LfnEntry(e: seq<Byte>, name: seq<Unit>, ord: nat, sum: Byte)
    requires |e| == 32 && ord > 0
  {
    && e[LDIR_Ord] == ord + (if 13 * ord >= |name| then LLEF else 0)
    && e[LDIR_Attr] == AM_LFN && e[LDIR_Type] == 0 && e[LDIR_Chksum] == sum && LdWord(e, LDIR_FstClusLO) == 0
    && Shows(Units(e), name, 13 * (ord - 1), 13)
  }

  /** The bytes of such an entry, place by place. */
  lemma EntryPlaces(e: seq<Byte>, name: seq<Unit>, ord: nat, sum: Byte)
    requires |e| == 32 && ord > 0 && LfnEntry(e, name, ord, sum)
    ensures e[0] == (if |name| <= 13 * ord then ord + 64 else ord) && e[11] == 15 && e[12] == 0 && e[13] == sum && e[26] == e[27] == 0
    ensures var at := [1, 3, 5, 7, 9, 14, 16, 18, 20, 22, 24, 28, 30];
      forall s :: 0 <= s < 13 ==>
        var i := 13 * (ord - 1) + s;
        e[at[s]] as int + 0x100 * (e[at[s] + 1] as int) == if i < |name| then name[i] else if i == |name| then 0 else 0xFFFF
  {
    var at := [1, 3, 5, 7, 9, 14, 16, 18, 20, 22, 24, 28, 30];
    forall s | 0 <= s < 13
      ensures at[s] == LfnOfs(s) && Units(e)[s] == e[at[s]] as int + 0x100 * (e[at[s] + 1] as int)
    {
    }
    assert forall s :: 0 <= s < 13 ==> Units(e)[s] == Padded(name, 13 * (ord - 1) + s);
  }

  /** The working buffer holds the name and its terminator; what follows may be anything. */
  ghost predicate InBuffer(buf: seq<Unit>, name: seq<Unit>) {
    |buf| == FF_MAX_LFN + 1 && |name| <= FF_MAX_LFN && buf[..|name|] == name && buf[|name|] == 0
  }

  // ----- put_lfn -----

  /** The bytes of an entry that hold no units are the same. */
  ghost predicate SameHead(a: seq<Byte>, b: seq<Byte>) {
    |a| == |b| == 32 && a[0] == b[0] && a[11] == b[11] && a[12] == b[12] && a[13] == b[13] && a[26] == b[26] && a[27] == b[27]
  }

  /** Only the 32 bytes from at differ. */
  ghost predicate OnlyEntry(a: seq<Byte>, b: seq<Byte>, at: nat) {
    |a| == |b| && forall i :: 0 <= i < |a| && !(at <= i < at + 32) ==> a[i] == b[i]
  }

  lemma WordStays(a: seq<Byte>, b: seq<Byte>, at: nat, s: nat, r: nat)
    requires at + 32 <= |a| == |b| && s < 13 && r < 13 && r != s
    requires forall i :: 0 <= i < |a| && i != at + LfnOfs(s) && i != at + LfnOfs(s) + 1 ==> b[i] == a[i]
    ensures Units(b[at..at + 32])[r] == Units(a[at..at + 32])[r]
  {
    hide Units;
  }

  /** st_word to unit s of the entry at at. */
  method PutUnit(dir: array<Byte>, at: nat, s: nat, wc: Unit)
    requires at + 32 <= dir.Length && s < 13
    modifies dir
    ensures OnlyEntry(old(dir[..]), dir[..], at)
    ensures Units(dir[at..at + 32]) == Units(old(dir[at..at + 32]))[s := wc]
    ensures SameHead(old(dir[at..at + 32]), dir[at..at + 32])
  {
    var o := at + LfnOfs(s);
    dir[o], dir[o + 1] := wc % 256, wc / 256 % 256;
    ghost var was, now := Units(old(dir[..])[at..at + 32]), Units(dir[..][at..at + 32]);
    forall r | 0 <= r < 13 && r != s
      ensures now[r] == was[r]
    {
      WordStays(old(dir[..]), dir[..], at, s, r);
    }
    assert dir[at..at + 32] == dir[..][at..at + 32];
    assert old(dir[at..at + 32]) == old(dir[..])[at..at + 32];
    WordRoundTrip(old(dir[at..at + 32]), LfnOfs(s), wc);
  }

  /** put_lfn: the entry at at becomes entry ord of the name in lfn. */
  method PutLfn(lfn: array<Unit>, dir: array<Byte>, at: nat, ord: nat, sum: Byte, ghost name: seq<Unit>)
    requires InBuffer(lfn[..], name) && ValidName(name)
    requires at + 32 <= dir.Length && 1 <= ord && 13 * (ord - 1) < |name|
    modifies dir
    ensures LfnEntry(dir[at..at + 32], name, ord, sum)
    ensures OnlyEntry(old(dir[..]), dir[..], at)
  {
    hide Units;
    var last := ord;
    dir[at + LDIR_Chksum] := sum;
    dir[at + LDIR_Attr] := AM_LFN;
    dir[at + LDIR_Type] := 0;
    dir[at + LDIR_FstClusLO], dir[at + LDIR_FstClusLO + 1] := 0, 0;
    ghost var base := 13 * (ord - 1);
    var i := (ord - 1) * 13;
    var s, wc := 0, 0;
    while true
      invariant 0 <= s < 13
      invariant i == if base + s <= |name| then base + s else |name| + 1
      invariant wc == 0xFFFF <==> base + s > |name|
      invariant Shows(Units(dir[at..at + 32]), name, base, s)
      invariant dir[at + 11] == AM_LFN && dir[at + 12] == 0 && dir[at + 13] == sum && dir[at + 26] == 0 && dir[at + 27] == 0
      invariant OnlyEntry(old(dir[..]), dir[..], at)
      decreases 13 - s
    {
      if wc != 0xFFFF {
        wc := lfn[i];
        i := i + 1;
      }
      assert wc == Padded(name, base + s);
      PutUnit(dir, at, s, wc);
      if wc == 0 { wc := 0xFFFF; }
      s := s + 1;
      if s >= 13 { break; }
    }
    if wc == 0xFFFF || lfn[i] == 0 { last := last + LLEF; }
    ghost var before := dir[at..at + 32];
    dir[at + LDIR_Ord] := last;
    UnitsKeep(before, dir[at..at + 32]);
  }

  lemma UnitsKeep(a: seq<Byte>, b: seq<Byte>)
    requires |a| == |b| == 32 && forall i :: 0 < i < 32 ==> a[i] == b[i]
    ensures Units(a) == Units(b)
  {
  }

  // ----- pick_lfn and cmp_lfn -----

  /** The place of the first zero, or the length. */
  ghost function Term(u: seq<Unit>): (t: nat)
    ensures t <= |u| && (t < |u| ==> u[t] == 0)
    ensures forall s :: 0 <= s < t ==> u[s] != 0
  {
    if |u| == 0 || u[0] == 0 then 0 else 1 + Term(u[1..])
  }

  /** The units up to the first zero, that one included. */
  ghost function Span(u: seq<Unit>): (n: nat)
    ensures n <= |u| && n <= Term(u) + 1
  {
    if Term(u) < |u| then Term(u) + 1 else |u|
  }

  /** Only filler follows the first zero. */
  ghost predicate Filled(u: seq<Unit>) {
    forall s :: Span(u) <= s < |u| ==> u[s] == 0xFFFF
  }

  /** Whether pick_lfn accepts the entry, whose units belong at start. */
  ghost predicate Pickable(e: seq<Byte>)
    requires |e| == 32
  {
    var start, u := PartStart(Unflagged(e[LDIR_Ord])), Units(e);
    && LdWord(e, LDIR_FstClusLO) == 0 && Filled(u) && start + Span(u) <= FF_MAX_LFN + 1
    && (Flagged(e[LDIR_Ord]) && Term(u) == 13 ==> start + 13 <= FF_MAX_LFN)
  }

  /** buf with the units of u put from start on, as far as they fit. */
  ghost function Overlay(buf: seq<Unit>, start: nat, u: seq<Unit>): (r: seq<Unit>)
    ensures |r| == |buf|
    ensures forall i :: 0 <= i < |buf| ==> r[i] == if start <= i < start + |u| then u[i - start] else buf[i]
  {
    seq(|buf|, i requires 0 <= i < |buf| => if start <= i < start + |u| then u[i - start] else buf[i])
  }

  /** The buffer after pick_lfn. */
  ghost function Picked(buf: seq<Unit>, e: seq<Byte>): (r: seq<Unit>)
    requires |buf| == FF_MAX_LFN + 1 && |e| == 32
    ensures |r| == |buf|
  {
    var start, u := PartStart(Unflagged(e[LDIR_Ord])), Units(e);
    if LdWord(e, LDIR_FstClusLO) != 0 then buf
    else
      var r := Overlay(buf, start, u[..Span(u)]);
      if Pickable(e) && Flagged(e[LDIR_Ord]) && Term(u) == 13 then r[start + 13 := 0] else r
  }

  /** pick_lfn, on any entry and any buffer. */
  method PickLfn(lfnbuf: array<Unit>, dir: seq<Byte>) returns (ok: bool)
    requires lfnbuf.Length == FF_MAX_LFN + 1 && |dir| == 32
    modifies lfnbuf
    ensures ok <==> Pickable(dir)
    ensures lfnbuf[..] == Picked(old(lfnbuf[..]), dir)
  {
    hide Units, Term, Overlay, Filled, PartStart, Unflagged;
    if LdWord(dir, LDIR_FstClusLO) != 0 { return false; }
    ghost var u, was := Units(dir), lfnbuf[..];
    ghost var start := PartStart(Unflagged(dir[LDIR_Ord]));
    var i := PartStart(Unflagged(dir[LDIR_Ord]));
    var s, wc := 0, 1;
    FilledUpTo(u, Span(u));
    while s < 13
      invariant 0 <= s <= 13 && i == start + (if s <= Span(u) then s else Span(u))
      invariant i > start ==> i <= FF_MAX_LFN + 1
      invariant wc == 0 <==> s > Term(u)
      invariant s >= Span(u) ==> FilledTo(u, s)
      invariant lfnbuf[..] == Overlay(was, start, u[..i - start])
    {
      FilledUpTo(u, s);
      var uc := LdWord(dir, LfnOfs(s));
      assert uc == u[s];
      if wc != 0 {
        if i >= FF_MAX_LFN + 1 {
          OverlayCut(was, start, u, i - start, Span(u));
          return false;
        }
        OverlayNext(was, start, u, i - start);
        lfnbuf[i], wc := uc, uc;
        i := i + 1;
      } else {
        if uc != 0xFFFF { return false; }
      }
      s := s + 1;
      FilledUpTo(u, s);
    }
    FilledUpTo(u, 13);
    if Flagged(dir[LDIR_Ord]) && wc != 0 {
      if i >= FF_MAX_LFN + 1 { return false; }
      lfnbuf[i] := 0;
    }
    ok := true;
  }

  ghost predicate FilledTo(u: seq<Unit>, n: nat) {
    n <= |u| && forall s :: Span(u) <= s < n ==> u[s] == 0xFFFF
  }

  lemma FilledUpTo(u: seq<Unit>, n: nat)
    requires n <= |u|
    ensures n == Span(u) ==> FilledTo(u, n)
    ensures n < |u| && Span(u) <= n && FilledTo(u, n) ==>
              (u[n] == 0xFFFF ==> FilledTo(u, n + 1)) && (u[n] != 0xFFFF ==> !Filled(u))
    ensures n == |u| ==> FilledTo(u, n) == Filled(u)
  {
  }

  lemma OverlayCut(buf: seq<Unit>, start: nat, u: seq<Unit>, n: nat, m: nat)
    requires n <= m <= |u| && start + n >= |buf|
    ensures Overlay(buf, start, u[..n]) == Overlay(buf, start, u[..m])
  {
  }

  lemma OverlayNext(buf: seq<Unit>, start: nat, u: seq<Unit>, n: nat)
    requires n < |u| && start + n < |buf|
    ensures Overlay(buf, start, u[..n])[start + n := u[n]] == Overlay(buf, start, u[..n + 1])
  {
  }

  /** The first n units of u equal those of the buffer from start on under the up-case conversion. */
  ghost predicate Alike(up: Unit -> Unit, u: seq<Unit>, buf: seq<Unit>, start: nat, n: nat)
    requires n <= |u| && start + n <= |buf|
  {
    forall s :: 0 <= s < n ==> up(u[s]) == up(buf[start + s])
  }

  /** Whether cmp_lfn finds the entry to be a part of the name in the buffer. */
  ghost predicate Match(up: Unit -> Unit, buf: seq<Unit>, e: seq<Byte>)
    requires |buf| == FF_MAX_LFN + 1 && |e| == 32
  {
    var start, u := PartStart(e[LDIR_Ord] % 64), Units(e);
    && LdWord(e, LDIR_FstClusLO) == 0 && Filled(u) && start + Span(u) <= FF_MAX_LFN + 1
    && Alike(up, u, buf, start, Span(u))
    && (Flagged(e[LDIR_Ord]) && Term(u) == 13 && start + 13 <= FF_MAX_LFN ==> buf[start + 13] == 0)
  }

  /** cmp_lfn, on any entry and any buffer. up is ff_wtoupper. */
  method CmpLfn(up: Unit -> Unit, lfnbuf: array<Unit>, dir: seq<Byte>) returns (ok: bool)
    requires lfnbuf.Length == FF_MAX_LFN + 1 && |dir| == 32
    ensures ok <==> Match(up, lfnbuf[..], dir)
  {
    hide Units, Term, Filled, PartStart;
    if LdWord(dir, LDIR_FstClusLO) != 0 { return false; }
    ghost var u := Units(dir);
    ghost var start := PartStart(dir[LDIR_Ord] % 64);
    var i: nat := PartStart(dir[LDIR_Ord] % 64);
    var s, wc := 0, 1;
    FilledUpTo(u, Span(u));
    while s < 13
      invariant 0 <= s <= 13 && i == start + (if s <= Span(u) then s else Span(u))
      invariant i > start ==> i <= FF_MAX_LFN + 1
      invariant wc == 0 <==> s > Term(u)
      invariant s >= Span(u) ==> FilledTo(u, s)
      invariant i <= FF_MAX_LFN + 1 ==> Alike(up, u, lfnbuf[..], start, i - start)
    {
      FilledUpTo(u, s);
      var uc := LdWord(dir, LfnOfs(s));
      assert uc == u[s];
      if wc != 0 {
        if i >= FF_MAX_LFN + 1 || up(uc) != up(lfnbuf[i]) {
          return false;
        }
        i := i + 1;
        wc := uc;
      } else {
        if uc != 0xFFFF { return false; }
      }
      s := s + 1;
      FilledUpTo(u, s);
    }
    FilledUpTo(u, 13);
    if Flagged(dir[LDIR_Ord]) && wc != 0 {
      assert start + 13 == i && i != FF_MAX_LFN + 1;
      if lfnbuf[i] != 0 { return false; }
    }
    ok := true;
  }
}
