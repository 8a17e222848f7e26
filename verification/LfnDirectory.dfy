/** dir_register, dir_read and dir_find on a FAT directory with long names. */
module LfnDirectory {
  import opened Bytes
  import opened LongName

  const DDEM: nat := 0xE5
  const AM_VOL: nat := 0x08
  const NO_LFN: nat := 0xFFFF_FFFF

  /** Entry i of a directory. */
  function At(b: seq<Byte>, i: nat): (e: seq<Byte>)
    requires 32 * i + 32 <= |b|
    ensures |e| == 32
  {
    b[32 * i..32 * i + 32]
  }

  /** The checksum over the first n bytes of a short name. */
  function SumUpTo(e: seq<Byte>, n: nat): Byte
    requires n <= |e|
  {
    if n == 0 then 0
    else
      var sum := SumUpTo(e, n - 1);
      (sum / 2 + sum * 128 + e[n - 1]) % 256
  }

  function SfnSum(e: seq<Byte>): Byte
    requires |e| >= 11
  {
    SumUpTo(e, 11)
  }

  /** The checksum: from zero on, for each of the eleven bytes the sum is rotated right by one bit and the byte added,
      in eight bits. */
  lemma Checksum(e: seq<Byte>) returns (w: seq<nat>)
    requires |e| >= 11
    ensures |w| == 12 && w[0] == 0 && w[11] == SfnSum(e)
    ensures forall i :: 0 <= i < 11 ==> w[i + 1] == (w[i] / 2 + (if w[i] % 2 == 1 then 0x80 else 0) + e[i]) % 0x100
  {
    w := SumsUpTo(e, 11);
  }

  lemma {:induction false} SumsUpTo(e: seq<Byte>, n: nat) returns (w: seq<nat>)
    requires n <= |e|
    ensures |w| == n + 1 && w[0] == 0 && w[n] == SumUpTo(e, n)
    ensures forall i :: 0 <= i < n ==> w[i + 1] == (w[i] / 2 + (if w[i] % 2 == 1 then 0x80 else 0) + e[i]) % 0x100
  {
    if n == 0 {
      w := [0];
    } else {
      var v := SumsUpTo(e, n - 1);
      w := v + [SumUpTo(e, n)];
      Rotated(v[n - 1], e[n - 1]);
    }
  }

  lemma Rotated(sum: Byte, b: Byte)
    ensures (sum / 2 + sum * 128 + b) % 256 == (sum / 2 + (if sum % 2 == 1 then 128 else 0) + b) % 256
  {
    assert sum == 2 * (sum / 2) + sum % 2;
    assert sum * 128 == 256 * (sum / 2) + 128 * (sum % 2);
  }

  /** sum_sfn. */
  method SumSfn(e: seq<Byte>) returns (sum: Byte)
    requires |e| >= 11
    ensures sum == SfnSum(e)
  {
    sum := 0;
    var n := 11;
    while true
      invariant 0 < n <= 11 && sum == SumUpTo(e, 11 - n)
      decreases n
    {
      sum := (sum / 2 + sum * 128 + e[11 - n]) % 256;
      n := n - 1;
      if n == 0 { break; }
    }
  }

  /** Where a scan stands in a run of long-name entries: the order expected next (0xFF for none), the checksum, and
      the entry that opened the run. */
  datatype Track = Track(ord: nat, sum: nat, blk: nat)

  /** The track once an opening entry has been taken into account. */
  function Opened(st: Track, e: seq<Byte>, i: nat): Track
    requires |e| == 32
  {
    if Flagged(e[LDIR_Ord]) then Track(Unflagged(e[LDIR_Ord]), e[LDIR_Chksum], i) else st
  }

  /** Whether the entry is the one the track expects. */
  predicate Expected(st: Track, e: seq<Byte>)
    requires |e| == 32
  {
    Unflagged(e[LDIR_Ord]) == st.ord && st.sum == e[LDIR_Chksum]
  }

  function Counted(st: Track, ok: bool): Track {
    st.(ord := if ok then (st.ord + 255) % 256 else 0xFF)
  }

  /** What the bytes of an entry say: the attributes read-only 1, hidden 2, system 4, volume label 8, directory 16 and
      archive 32; 0xE5 marks a deleted entry. */
  lemma Marks(e: seq<Byte>)
    requires |e| == 32
    ensures IsLfn(e) <==> e[11] % 64 == 1 + 2 + 4 + 8
    ensures Void(e) <==> e[0] == 0xE5 || (e[11] / 8 % 2 == 1 && e[11] % 64 != 15)
    ensures IsLabel(e) <==> e[11] % 32 == 8
    ensures ShortEntry(e) <==> e[0] != 0 && e[0] != 0xE5 && e[11] / 8 % 2 == 0
  {
  }

  /** Bit 6 of the order marks the last part of a name. */
  lemma LastFlag(c: Byte)
    ensures Flagged(c) <==> 64 <= c < 128 || 192 <= c
    ensures Unflagged(c) == if 64 <= c < 128 || 192 <= c then c - 64 else c
  {
  }

  /** A short entry is a hit if its eleven characters are the sought ones and nothing was lost in making these. */
  lemma ShortHits(q: Query, e: seq<Byte>)
    requires |e| == 32 && |q.fn| == 11
    ensures ShortHit(q, e) <==> !q.loss && forall i :: 0 <= i < 11 ==> e[i] == q.fn[i]
  {
  }

  /** Sought without long names, only a short entry can be found by its own name, and the first one is. */
  lemma {:induction false} ShortNamesOnly(up: Unit -> Unit, b: seq<Byte>, i: nat, q: Query, st: Track)
    requires |q.buf| == FF_MAX_LFN + 1 && q.nolfn && st.ord == 0xFF
    ensures var r := FindFrom(up, b, i, q, st);
      && (r.Item? ==> i <= r.at && 32 * r.at + 32 <= |b| && ShortHit(q, At(b, r.at)) && !IsLfn(At(b, r.at)))
      && forall p: nat :: i <= p && (r.Item? ==> p < r.at) && 32 * p + 32 <= |b| && (forall j :: i <= j <= p ==> At(b, j)[0] != 0) ==>
           Void(At(b, p)) || IsLfn(At(b, p)) || !ShortHit(q, At(b, p))
    decreases |b| - 32 * i
  {
    hide Void, IsLfn, ShortHit, SfnSum;
    if 32 * i + 32 <= |b| {
      var e := At(b, i);
      if e[0] != 0 && (Void(e) || IsLfn(e) || !ShortHit(q, e)) {
        ShortNamesOnly(up, b, i + 1, q, if Void(e) || !IsLfn(e) then st.(ord := 0xFF, blk := NO_LFN) else st);
      }
    }
  }

  /** The number of entries of a name: as few as hold it. */
  lemma FewestEntries(name: seq<Unit>)
    ensures |name| <= 13 * EntryCount(name) < |name| + 13
  {
  }

  // ----- dir_find -----

  /** What dir_find looks for: the long name in the working buffer and the short name fn with its flags. */
  datatype Query = Query(buf: seq<Unit>, nolfn: bool, loss: bool, fn: seq<Byte>)

  datatype Item = Item(at: nat, blk: nat) | NoItem

  /** A deleted entry or a volume label. */
  predicate Void(e: seq<Byte>)
    requires |e| == 32
  {
    e[0] == DDEM || (e[LDIR_Attr] / 8 % 2 == 1 && e[LDIR_Attr] % 64 != AM_LFN)
  }

  predicate IsLfn(e: seq<Byte>)
    requires |e| == 32
  {
    e[LDIR_Attr] % 64 == AM_LFN
  }

  predicate ShortHit(q: Query, e: seq<Byte>)
    requires |e| == 32
  {
    !q.loss && e[..11] == q.fn
  }

  /** dir_find from entry i on. */
  ghost function FindFrom(up: Unit -> Unit, b: seq<Byte>, i: nat, q: Query, st: Track): Item
    requires |q.buf| == FF_MAX_LFN + 1
    decreases |b| - 32 * i
  {
    if 32 * i + 32 > |b| then NoItem
    else
      var e := At(b, i);
      if e[0] == 0 then NoItem
      else if Void(e) then FindFrom(up, b, i + 1, q, st.(ord := 0xFF, blk := NO_LFN))
      else if IsLfn(e) then FindFrom(up, b, i + 1, q, if q.nolfn then st else FindStep(up, q, st, e, i))
      else if (st.ord == 0 && st.sum == SfnSum(e)) || ShortHit(q, e) then Item(i, st.blk)
      else FindFrom(up, b, i + 1, q, st.(ord := 0xFF, blk := NO_LFN))
  }

  ghost function FindStep(up: Unit -> Unit, q: Query, st: Track, e: seq<Byte>, i: nat): Track
    requires |q.buf| == FF_MAX_LFN + 1 && |e| == 32
  {
    var st1 := Opened(st, e, i);
    Counted(st1, Expected(st1, e) && Match(up, q.buf, e))
  }

  /** dir_find. */
  method DirFind(up: Unit -> Unit, dir: array<Byte>, lfnbuf: array<Unit>, nolfn: bool, loss: bool, fn: seq<Byte>)
      returns (r: Item)
    requires lfnbuf.Length == FF_MAX_LFN + 1
    ensures r == FindFrom(up, dir[..], 0, Query(lfnbuf[..], nolfn, loss, fn), Track(0xFF, 0xFF, NO_LFN))
  {
    hide Match, SfnSum;
    var st := Track(0xFF, 0xFF, NO_LFN);
    ghost var q := Query(lfnbuf[..], nolfn, loss, fn);
    ghost var start := FindFrom(up, dir[..], 0, q, st);
    var i := 0;
    while 32 * i + 32 <= dir.Length
      invariant 0 <= i && start == FindFrom(up, dir[..], i, q, st)
      decreases dir.Length - 32 * i
    {
      var e := At(dir[..], i);
      if e[0] == 0 { return NoItem; }
      if Void(e) {
        st := st.(ord := 0xFF, blk := NO_LFN);
      } else if IsLfn(e) {
        if !nolfn {
          st := Opened(st, e, i);
          var ok := Expected(st, e);
          if ok { ok := CmpLfn(up, lfnbuf, e); }
          st := Counted(st, ok);
        }
      } else {
        var sum := SumSfn(e);
        if st.ord == 0 && st.sum == sum { return Item(i, st.blk); }
        if !loss && e[..11] == fn { return Item(i, st.blk); }
        st := st.(ord := 0xFF, blk := NO_LFN);
      }
      i := i + 1;
    }
    r := NoItem;
  }

  // ----- dir_read -----

  datatype Entry = Entry(at: nat, blk: nat, buf: seq<Unit>) | NoEntry

  /** (attr & ~AM_ARC) == AM_VOL. */
  predicate IsLabel(e: seq<Byte>)
    requires |e| == 32
  {
    e[LDIR_Attr] % 32 == AM_VOL
  }

  /** dir_read from entry i on; vol asks for the volume label instead of files. */
  ghost function ReadFrom(b: seq<Byte>, i: nat, vol: bool, st: Track, buf: seq<Unit>): Entry
    requires |buf| == FF_MAX_LFN + 1
    decreases |b| - 32 * i
  {
    if 32 * i + 32 > |b| then NoEntry
    else
      var e := At(b, i);
      if e[0] == 0 then NoEntry
      else if e[0] == DDEM || e[0] == '.' as int || IsLabel(e) != vol then ReadFrom(b, i + 1, vol, st.(ord := 0xFF), buf)
      else if IsLfn(e) then
        var st1 := Opened(st, e, i);
        ReadFrom(b, i + 1, vol, Counted(st1, Expected(st1, e) && Pickable(e)), if Expected(st1, e) then Picked(buf, e) else buf)
      else Entry(i, if st.ord != 0 || st.sum != SfnSum(e) then NO_LFN else st.blk, buf)
  }

  /** dir_read; blk is the value dp->blk_ofs had before. */
  method DirRead(dir: array<Byte>, from: nat, vol: bool, lfnbuf: array<Unit>, blk: nat) returns (r: Item)
    requires lfnbuf.Length == FF_MAX_LFN + 1
    modifies lfnbuf
    ensures var want := ReadFrom(old(dir[..]), from, vol, Track(0xFF, 0xFF, blk), old(lfnbuf[..]));
            if want.NoEntry? then r == NoItem else r == Item(want.at, want.blk) && lfnbuf[..] == want.buf
  {
    hide Picked, Pickable, SfnSum;
    var st := Track(0xFF, 0xFF, blk);
    ghost var start := ReadFrom(dir[..], from, vol, st, lfnbuf[..]);
    ghost var bytes := dir[..];
    var i := from;
    while 32 * i + 32 <= dir.Length
      invariant start == ReadFrom(bytes, i, vol, st, lfnbuf[..]) && dir[..] == bytes
      decreases dir.Length - 32 * i
    {
      var e := At(dir[..], i);
      if e[0] == 0 { return NoItem; }
      if e[0] == DDEM || e[0] == '.' as int || IsLabel(e) != vol {
        st := st.(ord := 0xFF);
      } else if IsLfn(e) {
        st := Opened(st, e, i);
        var ok := Expected(st, e);
        if ok { ok := PickLfn(lfnbuf, e); }
        st := Counted(st, ok);
      } else {
        var sum := SumSfn(e);
        return Item(i, if st.ord != 0 || st.sum != sum then NO_LFN else st.blk);
      }
      i := i + 1;
    }
    r := NoItem;
  }

  // ----- dir_register -----

  /** The number of long-name entries a name takes. */
  function EntryCount(name: seq<Unit>): nat {
    (|name| + 12) / 13
  }

  /** Entries i.. hold the long name, highest part first. */
  ghost predicate HoldsName(b: seq<Byte>, i: nat, name: seq<Unit>, sum: Byte)
    requires 32 * (i + EntryCount(name)) <= |b|
  {
    forall p :: i <= p < i + EntryCount(name) ==> LfnEntry(At(b, p), name, EntryCount(name) - (p - i), sum)
  }

  /** Writes the long-name entries of a file into the free entries from i on, and the short one after them. */
  method RegisterName(lfnbuf: array<Unit>, dir: array<Byte>, i: nat, sfn: seq<Byte>, ghost name: seq<Unit>)
    requires InBuffer(lfnbuf[..], name) && ValidName(name) && |sfn| == 32
    requires 32 * (i + EntryCount(name) + 1) <= dir.Length
    modifies dir
    ensures HoldsName(dir[..], i, name, SfnSum(sfn)) && At(dir[..], i + EntryCount(name)) == sfn
    ensures ShortEntry(sfn) ==> HoldsFile(dir[..], i, name, sfn)
    ensures forall p :: 0 <= p && 32 * p + 32 <= dir.Length && !(i <= p <= i + EntryCount(name)) ==>
              At(dir[..], p) == At(old(dir[..]), p)
  {
    hide SfnSum, LfnEntry;
    var nlen := 0;
    while lfnbuf[nlen] != 0
      invariant nlen <= |name|
      decreases |name| - nlen
    {
      assert lfnbuf[..][nlen] == lfnbuf[nlen];
      nlen := nlen + 1;
    }
    assert nlen == |name| by { LengthFound(lfnbuf[..], name, nlen); }
    var nent := (nlen + 12) / 13;
    var sum := SumSfn(sfn);
    var p := i;
    while true
      invariant i <= p && nent == EntryCount(name) - (p - i) && nent >= 1
      invariant forall r :: i <= r < p ==> LfnEntry(At(dir[..], r), name, EntryCount(name) - (r - i), sum)
      invariant forall r :: 0 <= r && 32 * r + 32 <= dir.Length && !(i <= r < p) ==> At(dir[..], r) == At(old(dir[..]), r)
      decreases nent
    {
      ghost var before := dir[..];
      PutLfn(lfnbuf, dir, 32 * p, nent, sum, name);
      assert dir[..][32 * p..32 * p + 32] == dir[32 * p..32 * p + 32];
      OtherEntries(before, dir[..], p);
      p := p + 1;
      nent := nent - 1;
      if nent == 0 { break; }
    }
    ghost var before := dir[..];
    forall o | 0 <= o < 32 {
      dir[32 * p + o] := sfn[o];
    }
    OtherEntries(before, dir[..], p);
    assert forall o :: 0 <= o < 32 ==> dir[32 * p + o] == sfn[o];
    EntryIs(dir[..], p, sfn);
  }

  lemma EntryIs(d: seq<Byte>, p: nat, e: seq<Byte>)
    requires 32 * p + 32 <= |d| && |e| == 32 && forall o :: 0 <= o < 32 ==> d[32 * p + o] == e[o]
    ensures At(d, p) == e
  {
    var slot := d[32 * p..32 * p + 32];
    assert forall o :: 0 <= o < 32 ==> slot[o] == d[32 * p + o];
    assert slot == e;
  }

  lemma LengthFound(buf: seq<Unit>, name: seq<Unit>, n: nat)
    requires InBuffer(buf, name) && ValidName(name) && n <= |name| && buf[n] == 0
    ensures n == |name|
  {
    var shown := buf[..|name|];
    assert forall j :: 0 <= j < |name| ==> shown[j] == name[j] != 0;
    assert forall j :: 0 <= j < |name| ==> shown[j] == buf[j];
  }

  lemma OtherEntries(a: seq<Byte>, b: seq<Byte>, p: nat)
    requires OnlyEntry(a, b, 32 * p)
    ensures forall r :: 0 <= r && 32 * r + 32 <= |a| && r != p ==> At(b, r) == At(a, r)
  {
    forall r | 0 <= r && 32 * r + 32 <= |a| && r != p
      ensures At(b, r) == At(a, r)
    {
      assert forall o :: 32 * r <= o < 32 * r + 32 ==> b[o] == a[o];
    }
  }

  // ----- what a scan makes of the entries of one file -----

  ghost predicate NoZero(name: seq<Unit>) {
    forall i :: 0 <= i < |name| ==> name[i] != 0
  }

  /** The units of entry ord: how many are stored before the filler, and whether a zero ends them. */
  lemma EntryShape(e: seq<Byte>, name: seq<Unit>, ord: nat, sum: Byte)
    requires |e| == 32 && 1 <= ord && 13 * (ord - 1) < |name| <= FF_MAX_LFN && NoZero(name)
    requires LfnEntry(e, name, ord, sum)
    ensures var left := |name| - 13 * (ord - 1);
            && Term(Units(e)) == (if left < 13 then left else 13)
            && Span(Units(e)) == (if left < 13 then left + 1 else 13) && Filled(Units(e))
    ensures IsLfn(e) && !Void(e) && e[0] != 0 && e[0] != '.' as int && !IsLabel(e)
    ensures Unflagged(e[LDIR_Ord]) == ord && e[LDIR_Ord] % 64 == ord && (Flagged(e[LDIR_Ord]) <==> 13 * ord >= |name|)
  {
    hide Term, Units;
    var u, base, left := Units(e), 13 * (ord - 1), |name| - 13 * (ord - 1);
    forall s | 0 <= s < 13
      ensures u[s] == Padded(name, base + s)
      ensures u[s] == 0 <==> s == left
    {
    }
    if left < 13 {
      assert u[left] == 0;
    }
  }

  /** Where the part of entry ord ends in the name, its terminator included. */
  function PartEnd(name: seq<Unit>, ord: nat): nat {
    if 13 * ord >= |name| then |name| + 1 else 13 * ord
  }

  /** Units from..to of the padded name and of the buffer are the same but for case. */
  ghost predicate SameUnits(up: Unit -> Unit, name: seq<Unit>, buf: seq<Unit>, from: nat, to: nat)
    requires to <= |buf|
  {
    forall j :: from <= j < to ==> up(Padded(name, j)) == up(buf[j])
  }

  /** The conversion maps only the terminator to the terminator. */
  ghost predicate KeepsZero(up: Unit -> Unit) {
    forall x: Unit :: up(x) == 0 <==> x == 0
  }

  /** cmp_lfn matches entry ord exactly when that part of the name is in the buffer. */
  lemma MatchPart(up: Unit -> Unit, buf: seq<Unit>, e: seq<Byte>, name: seq<Unit>, ord: nat, sum: Byte)
    requires |e| == 32 && 1 <= ord && 13 * (ord - 1) < |name| <= FF_MAX_LFN && NoZero(name)
    requires LfnEntry(e, name, ord, sum) && |buf| == FF_MAX_LFN + 1 && KeepsZero(up)
    ensures Match(up, buf, e) <==> SameUnits(up, name, buf, 13 * (ord - 1), PartEnd(name, ord))
  {
    hide Term, Units, Span, Filled;
    EntryShape(e, name, ord, sum);
    var u, base := Units(e), 13 * (ord - 1);
    if SameUnits(up, name, buf, base, PartEnd(name, ord)) {
      forall s | 0 <= s < Span(u)
        ensures up(u[s]) == up(buf[base + s])
      {
        assert up(Padded(name, base + s)) == up(buf[base + s]);
      }
      if Term(u) == 13 && 13 * ord >= |name| {
        assert up(Padded(name, base + 13)) == up(buf[base + 13]);
      }
    }
    if Match(up, buf, e) {
      forall j | base <= j < PartEnd(name, ord)
        ensures up(Padded(name, j)) == up(buf[j])
      {
        if j - base < 13 {
          assert u[j - base] == Padded(name, j);
          assert up(u[j - base]) == up(buf[base + (j - base)]);
        }
      }
    }
  }

  /** Two names are the same but for case. */
  ghost predicate SameName(up: Unit -> Unit, m: seq<Unit>, n: seq<Unit>) {
    |m| == |n| && forall i :: 0 <= i < |m| ==> up(m[i]) == up(n[i])
  }

  /** All the parts are in the buffer exactly when the buffer's name is the same but for case, whatever follows it there. */
  lemma AllParts(up: Unit -> Unit, name: seq<Unit>, buf: seq<Unit>, m: seq<Unit>)
    requires InBuffer(buf, m) && NoZero(m) && NoZero(name) && |name| <= FF_MAX_LFN && KeepsZero(up)
    ensures SameUnits(up, name, buf, 0, |name| + 1) <==> SameName(up, m, name)
  {
    assert forall j :: 0 <= j < |m| ==> buf[j] == m[j];
    if SameUnits(up, name, buf, 0, |name| + 1) {
      assert |m| <= |name| ==> up(Padded(name, |m|)) == up(buf[|m|]);
      assert up(Padded(name, |name|)) == up(buf[|name|]);
      forall i | 0 <= i < |m| && |m| == |name|
        ensures up(m[i]) == up(name[i])
      {
        assert up(Padded(name, i)) == up(buf[i]);
      }
    }
  }

  /** The entries of one file: its long name, if it has one, and its short entry. */
  ghost predicate HoldsFile(b: seq<Byte>, i: nat, name: seq<Unit>, sfn: seq<Byte>) {
    && |sfn| == 32 && 32 * (i + EntryCount(name) + 1) <= |b| && NoZero(name) && |name| <= FF_MAX_LFN
    && HoldsName(b, i, name, SfnSum(sfn)) && At(b, i + EntryCount(name)) == sfn && ShortEntry(sfn)
  }

  /** A short entry in use, of a file or a directory. */
  predicate ShortEntry(e: seq<Byte>)
    requires |e| == 32
  {
    e[0] != 0 && e[0] != DDEM && e[LDIR_Attr] / 8 % 2 == 0
  }

  /** One such entry met by dir_find: the track survives exactly if its part matches. */
  lemma FindPart(up: Unit -> Unit, b: seq<Byte>, p: nat, i: nat, q: Query, name: seq<Unit>, sum: Byte, ord: nat, alive: bool)
    requires 32 * p + 32 <= |b| && NoZero(name) && 1 <= ord && 13 * ord < |name| <= FF_MAX_LFN
    requires LfnEntry(At(b, p), name, ord, sum) && KeepsZero(up) && |q.buf| == FF_MAX_LFN + 1 && !q.nolfn
    ensures FindFrom(up, b, p, q, Track(if alive then ord else 0xFF, sum, i)) ==
            FindFrom(up, b, p + 1, q,
                     Track(if alive && SameUnits(up, name, q.buf, 13 * (ord - 1), 13 * ord) then ord - 1 else 0xFF, sum, i))
  {
    hide Match, LfnEntry, IsLfn, Void, SameUnits;
    EntryShape(At(b, p), name, ord, sum);
    MatchPart(up, q.buf, At(b, p), name, ord, sum);
    PartKind(At(b, p), name, ord, sum);
  }

  /** dir_find over the entries after the first: the track survives exactly if each part matches. */
  lemma {:induction false} FindParts(up: Unit -> Unit, b: seq<Byte>, i: nat, q: Query, name: seq<Unit>, sfn: seq<Byte>,
                                     ord: nat, alive: bool)
    requires HoldsFile(b, i, name, sfn) && ord < EntryCount(name) && KeepsZero(up)
    requires |q.buf| == FF_MAX_LFN + 1 && !q.nolfn
    ensures var p, sum := i + EntryCount(name), SfnSum(sfn);
            FindFrom(up, b, p - ord, q, Track(if alive then ord else 0xFF, sum, i)) ==
            FindFrom(up, b, p, q, Track(if alive && SameUnits(up, name, q.buf, 0, 13 * ord) then 0 else 0xFF, sum, i))
    decreases ord
  {
    hide LfnEntry, SfnSum, FindFrom;
    if ord > 0 {
      var p := i + EntryCount(name) - ord;
      FindPart(up, b, p, i, q, name, SfnSum(sfn), ord, alive);
      FindParts(up, b, i, q, name, sfn, ord - 1, alive && SameUnits(up, name, q.buf, 13 * (ord - 1), 13 * ord));
      UnitsJoin(up, name, q.buf, 13 * (ord - 1), 13 * ord);
    }
  }

  lemma PartKind(e: seq<Byte>, name: seq<Unit>, ord: nat, sum: Byte)
    requires |e| == 32 && ord > 0 && LfnEntry(e, name, ord, sum)
    ensures e[LDIR_Chksum] == sum
  {
  }

  lemma UnitsJoin(up: Unit -> Unit, name: seq<Unit>, buf: seq<Unit>, mid: nat, to: nat)
    requires mid <= to <= |buf|
    ensures SameUnits(up, name, buf, 0, to) <==> SameUnits(up, name, buf, 0, mid) && SameUnits(up, name, buf, mid, to)
  {
  }

  /** The first entry of a file opens a run, whatever the state. */
  lemma FindFirst(up: Unit -> Unit, b: seq<Byte>, i: nat, q: Query, name: seq<Unit>, sum: Byte, st: Track)
    requires 32 * i + 32 <= |b| && NoZero(name) && 0 < |name| <= FF_MAX_LFN
    requires LfnEntry(At(b, i), name, EntryCount(name), sum) && KeepsZero(up) && |q.buf| == FF_MAX_LFN + 1 && !q.nolfn
    ensures var nent := EntryCount(name);
            FindFrom(up, b, i, q, st) ==
            FindFrom(up, b, i + 1, q,
                     Track(if SameUnits(up, name, q.buf, 13 * (nent - 1), |name| + 1) then nent - 1 else 0xFF, sum, i))
  {
    hide Match, LfnEntry, IsLfn, Void, SameUnits;
    var nent := EntryCount(name);
    EntryShape(At(b, i), name, nent, sum);
    MatchPart(up, q.buf, At(b, i), name, nent, sum);
    PartKind(At(b, i), name, nent, sum);
  }

  /** The short entry ends the run: the file is found by its long name or by its short one. */
  lemma FindShort(up: Unit -> Unit, b: seq<Byte>, p: nat, i: nat, q: Query, sfn: seq<Byte>, alive: bool)
    requires |sfn| == 32 && 32 * p + 32 <= |b| && At(b, p) == sfn && ShortEntry(sfn) && |q.buf| == FF_MAX_LFN + 1
    ensures FindFrom(up, b, p, q, Track(if alive then 0 else 0xFF, SfnSum(sfn), i)) ==
            if alive || ShortHit(q, sfn) then Item(p, i) else FindFrom(up, b, p + 1, q, Track(0xFF, SfnSum(sfn), NO_LFN))
  {
    hide SfnSum, IsLfn, Void, ShortHit;
    ShortKind(sfn);
  }

  /** Met by dir_find in any state, a file with a long name is the one found exactly when its name equals the sought one
      but for case or its short name is the sought one; otherwise the scan goes on after it, reset. */
  lemma FindAtFile(up: Unit -> Unit, b: seq<Byte>, i: nat, q: Query, name: seq<Unit>, sfn: seq<Byte>, m: seq<Unit>, st: Track)
    requires HoldsFile(b, i, name, sfn) && name != [] && KeepsZero(up)
    requires InBuffer(q.buf, m) && NoZero(m) && !q.nolfn
    ensures var p := i + EntryCount(name);
            FindFrom(up, b, i, q, st) ==
            if SameName(up, m, name) || ShortHit(q, sfn) then Item(p, i)
            else FindFrom(up, b, p + 1, q, Track(0xFF, SfnSum(sfn), NO_LFN))
  {
    hide LfnEntry, SfnSum, ShortHit, FindFrom, SameUnits, SameName;
    var nent := EntryCount(name);
    assert LfnEntry(At(b, i), name, nent, SfnSum(sfn));
    FindFirst(up, b, i, q, name, SfnSum(sfn), st);
    FindParts(up, b, i, q, name, sfn, nent - 1, SameUnits(up, name, q.buf, 13 * (nent - 1), |name| + 1));
    UnitsJoin(up, name, q.buf, 13 * (nent - 1), |name| + 1);
    AllParts(up, name, q.buf, m);
    FindShort(up, b, i + nent, i, q, sfn, SameUnits(up, name, q.buf, 0, |name| + 1));
  }

  lemma ShortKind(e: seq<Byte>)
    requires |e| == 32 && ShortEntry(e)
    ensures e[0] != 0 && !Void(e) && !IsLfn(e) && !IsLabel(e)
  {
  }

  // ----- whole directories -----

  /** An entry dir_find skips, or a file with its long name ([] if it has none). */
  datatype Slot = Gone(entry: seq<Byte>) | File(name: seq<Unit>, sfn: seq<Byte>)

  function Size(s: Slot): nat {
    if s.Gone? then 1 else EntryCount(s.name) + 1
  }

  /** The directory lists the slots from entry i on, and ends there. */
  ghost predicate Lists(b: seq<Byte>, i: nat, slots: seq<Slot>)
    decreases |slots|
  {
    if slots == [] then 32 * i + 32 > |b| || b[32 * i] == 0
    else
      && 32 * (i + Size(slots[0])) <= |b|
      && (match slots[0]
          case Gone(entry) => At(b, i) == entry && entry[0] != 0 && Void(entry)
          case File(name, sfn) => HoldsFile(b, i, name, sfn))
      && Lists(b, i + Size(slots[0]), slots[1..])
  }

  /** The first file whose long name is m but for case or whose short name is the query's. */
  ghost function FirstHit(up: Unit -> Unit, q: Query, m: seq<Unit>, i: nat, slots: seq<Slot>): Item
    requires forall k :: 0 <= k < |slots| && slots[k].File? ==> |slots[k].sfn| == 32
    decreases |slots|
  {
    if slots == [] then NoItem
    else
      match slots[0]
      case Gone(_) => FirstHit(up, q, m, i + 1, slots[1..])
      case File(name, sfn) =>
        var p := i + EntryCount(name);
        if (name != [] && SameName(up, m, name)) || ShortHit(q, sfn)
        then Item(p, if name == [] then NO_LFN else i)
        else FirstHit(up, q, m, p + 1, slots[1..])
  }

  lemma {:induction false} ListedShort(b: seq<Byte>, i: nat, slots: seq<Slot>)
    requires Lists(b, i, slots)
    ensures forall k :: 0 <= k < |slots| && slots[k].File? ==> |slots[k].sfn| == 32
    decreases |slots|
  {
    if slots != [] {
      ListedShort(b, i + Size(slots[0]), slots[1..]);
      forall k | 0 <= k < |slots| && slots[k].File?
        ensures |slots[k].sfn| == 32
      {
        if k > 0 {
          assert slots[1..][k - 1] == slots[k];
        }
      }
    }
  }

  /** A file, with or without a long name, met between runs. */
  lemma FindFile(up: Unit -> Unit, b: seq<Byte>, i: nat, q: Query, name: seq<Unit>, sfn: seq<Byte>, m: seq<Unit>, st: Track)
    requires HoldsFile(b, i, name, sfn) && KeepsZero(up) && InBuffer(q.buf, m) && NoZero(m) && !q.nolfn
    requires st.ord == 0xFF && st.blk == NO_LFN
    ensures var p := i + EntryCount(name);
            FindFrom(up, b, i, q, st) ==
            if (name != [] && SameName(up, m, name)) || ShortHit(q, sfn) then Item(p, if name == [] then NO_LFN else i)
            else FindFrom(up, b, p + 1, q, Track(0xFF, if name == [] then st.sum else SfnSum(sfn), NO_LFN))
  {
    hide Match, LfnEntry, SfnSum, IsLfn, Void, ShortHit, SameName;
    if name == [] {
      ShortKind(sfn);
    } else {
      FindAtFile(up, b, i, q, name, sfn, m, st);
    }
  }

  /** dir_find on a well-formed directory finds the first file of the sought name, and nothing else. */
  lemma {:induction false} FindInDirectory(up: Unit -> Unit, b: seq<Byte>, i: nat, q: Query, m: seq<Unit>,
                                           slots: seq<Slot>, st: Track)
    requires Lists(b, i, slots) && KeepsZero(up)
    requires InBuffer(q.buf, m) && NoZero(m) && !q.nolfn
    requires st.ord == 0xFF && st.blk == NO_LFN
    ensures forall k :: 0 <= k < |slots| && slots[k].File? ==> |slots[k].sfn| == 32
    ensures FindFrom(up, b, i, q, st) == FirstHit(up, q, m, i, slots)
    decreases |slots|
  {
    hide Match, SfnSum, HoldsFile, IsLfn, ShortHit, SameName, InBuffer, NoZero, KeepsZero;
    ListedShort(b, i, slots);
    if slots != [] {
      match slots[0] {
        case Gone(_) =>
          FindInDirectory(up, b, i + 1, q, m, slots[1..], st);
        case File(name, sfn) =>
          var next := Track(0xFF, if name == [] then st.sum else SfnSum(sfn), NO_LFN);
          FindFile(up, b, i, q, name, sfn, m, st);
          FindInDirectory(up, b, i + EntryCount(name) + 1, q, m, slots[1..], next);
      }
    }
  }

  // ----- reading a name back -----

  /** The buffer holds the padded name from unit from on, up to and with its terminator. */
  ghost predicate HasTail(buf: seq<Unit>, name: seq<Unit>, from: nat)
    requires |name| < |buf|
  {
    forall j :: from <= j <= |name| ==> buf[j] == Padded(name, j)
  }

  /** pick_lfn accepts entry ord and adds its part to the tail picked before. */
  lemma PickPart(buf: seq<Unit>, e: seq<Byte>, name: seq<Unit>, ord: nat, sum: Byte)
    requires |e| == 32 && 1 <= ord && 13 * (ord - 1) < |name| <= FF_MAX_LFN && NoZero(name)
    requires LfnEntry(e, name, ord, sum) && |buf| == FF_MAX_LFN + 1
    requires 13 * ord < |name| ==> HasTail(buf, name, 13 * ord)
    ensures Pickable(e) && HasTail(Picked(buf, e), name, 13 * (ord - 1))
  {
    hide Term, Units, Span, Filled;
    EntryShape(e, name, ord, sum);
    var u, base, r := Units(e), 13 * (ord - 1), Picked(buf, e);
    forall j | base <= j <= |name|
      ensures r[j] == Padded(name, j)
    {
      if j < base + 13 {
        assert u[j - base] == Padded(name, base + (j - base));
      }
    }
  }

  /** One such entry met by dir_read: its part is put before the tail picked so far. */
  lemma ReadPart(b: seq<Byte>, p: nat, i: nat, name: seq<Unit>, sum: Byte, ord: nat, buf: seq<Unit>)
    requires 32 * p + 32 <= |b| && NoZero(name) && 1 <= ord && 13 * ord < |name| <= FF_MAX_LFN
    requires LfnEntry(At(b, p), name, ord, sum) && |buf| == FF_MAX_LFN + 1 && HasTail(buf, name, 13 * ord)
    ensures |Picked(buf, At(b, p))| == FF_MAX_LFN + 1 && HasTail(Picked(buf, At(b, p)), name, 13 * (ord - 1))
    ensures ReadFrom(b, p, false, Track(ord, sum, i), buf) ==
            ReadFrom(b, p + 1, false, Track(ord - 1, sum, i), Picked(buf, At(b, p)))
  {
    hide Picked, Pickable, LfnEntry, IsLfn, IsLabel, HasTail;
    EntryShape(At(b, p), name, ord, sum);
    PartKind(At(b, p), name, ord, sum);
    PickPart(buf, At(b, p), name, ord, sum);
  }

  lemma {:induction false} ReadParts(b: seq<Byte>, i: nat, name: seq<Unit>, sfn: seq<Byte>, ord: nat, buf: seq<Unit>)
      returns (buf': seq<Unit>)
    requires HoldsFile(b, i, name, sfn) && ord < EntryCount(name)
    requires |buf| == FF_MAX_LFN + 1 && HasTail(buf, name, 13 * ord)
    ensures |buf'| == FF_MAX_LFN + 1 && HasTail(buf', name, 0)
    ensures var p := i + EntryCount(name);
            ReadFrom(b, p - ord, false, Track(ord, SfnSum(sfn), i), buf) ==
            ReadFrom(b, p, false, Track(0, SfnSum(sfn), i), buf')
    decreases ord
  {
    hide Picked, LfnEntry, SfnSum, HasTail, ReadFrom;
    buf' := buf;
    if ord > 0 {
      var p := i + EntryCount(name) - ord;
      ReadPart(b, p, i, name, SfnSum(sfn), ord, buf);
      buf' := ReadParts(b, i, name, sfn, ord - 1, Picked(buf, At(b, p)));
    }
  }

  lemma TailIsAll(buf: seq<Unit>, name: seq<Unit>)
    requires |buf| == FF_MAX_LFN + 1 && |name| <= FF_MAX_LFN && HasTail(buf, name, 0)
    ensures InBuffer(buf, name)
  {
    assert forall j :: 0 <= j < |name| ==> buf[j] == Padded(name, j);
  }

  /** The first entry of a file opens a run, whatever the state and the buffer. */
  lemma ReadFirst(b: seq<Byte>, i: nat, name: seq<Unit>, sum: Byte, st: Track, buf: seq<Unit>)
    requires 32 * i + 32 <= |b| && NoZero(name) && 0 < |name| <= FF_MAX_LFN && |buf| == FF_MAX_LFN + 1
    requires LfnEntry(At(b, i), name, EntryCount(name), sum)
    ensures var nent, r := EntryCount(name), Picked(buf, At(b, i));
            && |r| == FF_MAX_LFN + 1 && HasTail(r, name, 13 * (nent - 1))
            && ReadFrom(b, i, false, st, buf) == ReadFrom(b, i + 1, false, Track(nent - 1, sum, i), r)
  {
    hide Picked, Pickable, LfnEntry, IsLfn, IsLabel, HasTail;
    var nent := EntryCount(name);
    EntryShape(At(b, i), name, nent, sum);
    PartKind(At(b, i), name, nent, sum);
    PickPart(buf, At(b, i), name, nent, sum);
  }

  /** The short entry ends the run. */
  lemma ReadShort(b: seq<Byte>, p: nat, i: nat, sfn: seq<Byte>, buf: seq<Unit>)
    requires |sfn| == 32 && 32 * p + 32 <= |b| && At(b, p) == sfn && ShortEntry(sfn) && sfn[0] != '.' as int
    requires |buf| == FF_MAX_LFN + 1
    ensures ReadFrom(b, p, false, Track(0, SfnSum(sfn), i), buf) == Entry(p, i, buf)
  {
    hide SfnSum, IsLfn, IsLabel;
    ShortKind(sfn);
  }

  /** Met by dir_read in any state and with any buffer, a file with a long name is read back with exactly that name. */
  lemma ReadAtFile(b: seq<Byte>, i: nat, name: seq<Unit>, sfn: seq<Byte>, st: Track, buf: seq<Unit>)
    requires HoldsFile(b, i, name, sfn) && name != [] && sfn[0] != '.' as int && |buf| == FF_MAX_LFN + 1
    ensures var r := ReadFrom(b, i, false, st, buf);
            r.Entry? && r.at == i + EntryCount(name) && r.blk == i && InBuffer(r.buf, name)
  {
    hide Picked, LfnEntry, SfnSum, InBuffer, HasTail, ReadFrom;
    var nent := EntryCount(name);
    assert LfnEntry(At(b, i), name, nent, SfnSum(sfn));
    ReadFirst(b, i, name, SfnSum(sfn), st, buf);
    var buf' := ReadParts(b, i, name, sfn, nent - 1, Picked(buf, At(b, i)));
    TailIsAll(buf', name);
    ReadShort(b, i + nent, i, sfn, buf');
  }

  /** The directory as dir_read sees it from entry i on, up to its end: entries it passes over, and files. */
  ghost predicate ReadLists(b: seq<Byte>, i: nat, slots: seq<Slot>)
    decreases |slots|
  {
    if slots == [] then 32 * i + 32 > |b| || b[32 * i] == 0
    else
      && 32 * (i + Size(slots[0])) <= |b|
      && (match slots[0]
          case Gone(entry) =>
            At(b, i) == entry && entry[0] != 0 && (entry[0] == 0xE5 || entry[0] == '.' as int || IsLabel(entry))
          case File(name, sfn) => HoldsFile(b, i, name, sfn) && sfn[0] != '.' as int)
      && ReadLists(b, i + Size(slots[0]), slots[1..])
  }

  /** Which slot is the first file, and the entries before slot k. */
  function FirstFile(slots: seq<Slot>): (k: nat)
    ensures k <= |slots| && (k < |slots| ==> slots[k].File?) && forall j :: 0 <= j < k ==> slots[j].Gone?
  {
    if slots == [] || slots[0].File? then 0 else 1 + FirstFile(slots[1..])
  }

  function Ahead(slots: seq<Slot>, k: nat): nat
    requires k <= |slots|
  {
    if k == 0 then 0 else Size(slots[0]) + Ahead(slots[1..], k - 1)
  }

  /** dir_read gives the first file there is, with its long name or the news that it has none, and none if there is none;
      what follows it is read by the next call. */
  lemma {:induction false} ReadInDirectory(b: seq<Byte>, i: nat, slots: seq<Slot>, st: Track, buf: seq<Unit>)
    requires ReadLists(b, i, slots) && st.ord == 0xFF && |buf| == FF_MAX_LFN + 1
    ensures var k, r := FirstFile(slots), ReadFrom(b, i, false, st, buf);
      if k == |slots| then r == NoEntry
      else
        var p := i + Ahead(slots, k);
        && r.Entry? && r.at == p + EntryCount(slots[k].name) && r.blk == (if slots[k].name == [] then NO_LFN else p)
        && (slots[k].name != [] ==> InBuffer(r.buf, slots[k].name))
        && ReadLists(b, r.at + 1, slots[k + 1..])
    decreases |slots|
  {
    hide LfnEntry, SfnSum, HoldsFile, IsLfn, InBuffer, IsLabel, ReadFrom;
    if slots == [] {
      ReadEnd(b, i, st, buf);
    } else {
      match slots[0] {
        case Gone(_) =>
          ReadOver(b, i, st, buf);
          ReadInDirectory(b, i + 1, slots[1..], st, buf);
        case File(name, sfn) =>
          if name == [] {
            ReadPlain(b, i, sfn, st, buf);
          } else {
            ReadAtFile(b, i, name, sfn, st, buf);
          }
      }
    }
  }

  lemma ReadEnd(b: seq<Byte>, i: nat, st: Track, buf: seq<Unit>)
    requires |buf| == FF_MAX_LFN + 1 && (32 * i + 32 > |b| || b[32 * i] == 0)
    ensures ReadFrom(b, i, false, st, buf) == NoEntry
  {
  }

  lemma ReadOver(b: seq<Byte>, i: nat, st: Track, buf: seq<Unit>)
    requires 32 * i + 32 <= |b| && |buf| == FF_MAX_LFN + 1 && st.ord == 0xFF
    requires var e := At(b, i); e[0] != 0 && (e[0] == DDEM || e[0] == '.' as int || IsLabel(e))
    ensures ReadFrom(b, i, false, st, buf) == ReadFrom(b, i + 1, false, st, buf)
  {
    hide IsLabel;
    assert st.(ord := 0xFF) == st;
  }

  lemma ReadPlain(b: seq<Byte>, i: nat, sfn: seq<Byte>, st: Track, buf: seq<Unit>)
    requires HoldsFile(b, i, [], sfn) && sfn[0] != '.' as int && st.ord == 0xFF && |buf| == FF_MAX_LFN + 1
    ensures ReadFrom(b, i, false, st, buf) == Entry(i, NO_LFN, buf)
  {
    hide SfnSum, IsLfn, IsLabel;
    ShortKind(sfn);
    NotDeleted(sfn);
  }

  lemma NotDeleted(e: seq<Byte>)
    requires |e| == 32 && ShortEntry(e)
    ensures e[0] != DDEM
  {
  }
}
