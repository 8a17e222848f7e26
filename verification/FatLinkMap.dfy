/** The cluster link map of fast seek: f_lseek's CREATE_LINKMAP request, clmt_clust and the seek that uses them. */
module FatLinkMap {
  import opened Bytes
  import opened Device
  import opened FatCodec
  import opened FatVolume
  import opened FatChain
  import opened FileLayout
  import opened FatFile

  /** n clusters in a row from top. */
  ghost function Run(top: nat, n: nat): (r: seq<nat>)
    ensures |r| == n && forall i :: 0 <= i < n ==> r[i] == top + i
  {
    seq(n, i requires 0 <= i < n => top + i)
  }

  /** The clusters that the (length, top) pairs stand for. */
  ghost function Expand(items: seq<nat>): seq<nat>
    requires |items| % 2 == 0
  {
    if items == [] then [] else Run(items[1], items[0]) + Expand(items[2..])
  }

  lemma {:induction false} ExpandAppend(items: seq<nat>, n: nat, top: nat)
    requires |items| % 2 == 0
    ensures Expand(items + [n, top]) == Expand(items) + Run(top, n)
  {
    if items == [] {
      assert Expand([n, top][2..]) == [];
    } else {
      assert (items + [n, top])[2..] == items[2..] + [n, top];
      ExpandAppend(items[2..], n, top);
    }
  }

  /** The number of fragments of a chain: the places where a cluster does not directly follow the one before it. */
  ghost function Fragments(chain: seq<nat>): nat {
    if |chain| == 0 then 0
    else Fragments(chain[..|chain| - 1]) + if |chain| > 1 && chain[|chain| - 1] == chain[|chain| - 2] + 1 then 0 else 1
  }

  lemma FragmentsStep(chain: seq<nat>, m: nat)
    requires m < |chain|
    ensures Fragments(chain[..m + 1]) == Fragments(chain[..m]) + if m > 0 && chain[m] == chain[m - 1] + 1 then 0 else 1
  {
    assert chain[..m + 1][..m] == chain[..m];
  }

  /** The table holds its used length, the pairs of a chain's fragments and the terminator. */
  ghost predicate LinkMap(tbl: seq<nat>, chain: seq<nat>) {
    && |tbl| >= 2 && 2 <= tbl[0] <= |tbl| && tbl[0] % 2 == 0
    && tbl[tbl[0] - 1] == 0
    && (forall i :: 1 <= i < tbl[0] - 1 && i % 2 == 1 ==> tbl[i] > 0)
    && Expand(tbl[1..tbl[0] - 1]) == chain
  }

  /** The first fragment: its length, then its first cluster. */
  lemma FirstFragment(tbl: seq<nat>, chain: seq<nat>)
    requires LinkMap(tbl, chain) && chain != []
    ensures |tbl| > 3 && 0 < tbl[1] <= |chain| && forall i :: 0 <= i < tbl[1] ==> chain[i] == tbl[2] + i
  {
    var items := tbl[1..tbl[0] - 1];
    assert items != [];
    assert items[0] == tbl[1] && items[1] == tbl[2];
    assert chain[..tbl[1]] == Run(tbl[2], tbl[1]);
    assert forall i :: 0 <= i < tbl[1] ==> chain[i] == chain[..tbl[1]][i];
  }

  /** How f_lseek stores the pair (n, top) of a fragment if the table has room for used items. */
  method PutItem(tbl: array<nat>, used: nat, tlen: nat, n: nat, top: nat, ghost items: seq<nat>)
    requires 4 <= used == |items| + 4 && tlen <= tbl.Length
    requires used - 2 <= tlen ==> tbl[1..used - 3] == items
    modifies tbl
    ensures used <= tlen ==> tbl[1..used - 1] == items + [n, top]
    ensures forall i :: tlen <= i < tbl.Length ==> tbl[i] == old(tbl[i])
  {
    if used <= tlen {
      tbl[used - 3], tbl[used - 2] := n, top;
    }
  }

  /** The chain ends in the last cluster of the volume, with an end mark that is the number after it. */
  ghost predicate EndsAtEdge(fat: seq<nat>, chain: seq<nat>) {
    IsChain(fat, chain) && chain[|chain| - 1] + 1 == |fat| == fat[chain[|chain| - 1]]
  }

  /** One fragment: the clusters from top on that follow each other. */
  method Fragment(fs: Volume, top: nat, ghost chain: seq<nat>, ghost m: nat) returns (res: FResult, n: nat, cl: nat)
    requires fs.Valid() && IsChain(fs.fat, chain) && m < |chain| && chain[m] == top
    modifies fs`winsect, fs`wflag, fs.win, fs.disk
    ensures fs.Valid()
    ensures res == FR_OK || (res == FR_INT_ERR && EndsAtEdge(fs.fat, chain)) || (res == FR_DISK_ERR && !fs.disk.healthy)
    ensures res == FR_OK ==>
              && 0 < n && m + n <= |chain| && chain[m..m + n] == Run(top, n)
              && (if m + n < |chain| then cl == chain[m + n] != chain[m + n - 1] + 1
                  else cl >= fs.nFatent && !EndsAtEdge(fs.fat, chain))
  {
    hide Volume.Valid, IsChain, EndsAtEdge;
    n, cl, res := 0, top, FR_OK;
    while true
      invariant fs.Valid() && res == FR_OK && cl == top + n && m + n <= |chain|
      invariant if m + n < |chain| then cl == chain[m + n] else n > 0 && cl == fs.nFatent && EndsAtEdge(fs.fat, chain)
      invariant chain[m..m + n] == Run(top, n)
      decreases |chain| - n
    {
      if m + n < |chain| {
        MemberStatus(fs.fat, chain, m + n);
        if m + n + 1 < |chain| { MemberStatus(fs.fat, chain, m + n + 1); }
        EdgeOnly(fs.fat, chain);
        RunLonger(chain, m, top, n);
      }
      var pcl := cl;
      n := n + 1;
      cl := fs.GetFat(cl);
      if cl <= 1 { return FR_INT_ERR, n, cl; }
      if cl == DISK_ERROR { return FR_DISK_ERR, n, cl; }
      if cl != pcl + 1 { break; }
    }
  }

  lemma RunLonger(chain: seq<nat>, m: nat, top: nat, n: nat)
    requires m + n < |chain| && chain[m..m + n] == Run(top, n) && chain[m + n] == top + n
    ensures chain[m..m + n + 1] == Run(top, n + 1)
  {
    assert chain[m..m + n + 1] == chain[m..m + n] + [chain[m + n]];
  }

  lemma EdgeOnly(fat: seq<nat>, chain: seq<nat>)
    requires IsChain(fat, chain)
    ensures EndsAtEdge(fat, chain) <==> fat[chain[|chain| - 1]] == chain[|chain| - 1] + 1
  {
  }

  /** The pairs of the fragments of the clusters covered so far, and the table length they need. */
  ghost predicate Listed(items: seq<nat>, covered: seq<nat>, ulen: nat) {
    && |items| % 2 == 0 && ulen == |items| + 2 == 2 + 2 * Fragments(covered)
    && (forall i :: 0 <= i < |items| && i % 2 == 0 ==> items[i] > 0)
    && Expand(items) == covered
  }

  lemma ListedNone()
    ensures Listed([], [], 2)
  {
  }

  lemma ListedMore(chain: seq<nat>, items: seq<nat>, m: nat, ulen: nat, n: nat)
    requires m + n <= |chain| && Listed(items, chain[..m], ulen)
    requires m > 0 && n > 0 ==> chain[m] != chain[m - 1] + 1
    requires n > 0 && chain[m..m + n] == Run(chain[m], n)
    ensures Listed(items + [n, chain[m]], chain[..m + n], ulen + 2)
  {
    hide Fragments, Expand;
    ExpandAppend(items, n, chain[m]);
    assert chain[..m + n] == chain[..m] + chain[m..m + n];
    RunInOne(chain, m, n);
    FragmentsStep(chain, m);
  }

  lemma {:induction false} RunInOne(chain: seq<nat>, m: nat, n: nat)
    requires m + n <= |chain| && n > 0 && chain[m..m + n] == Run(chain[m], n)
    ensures Fragments(chain[..m + n]) == Fragments(chain[..m + 1])
  {
    if n > 1 {
      var r := chain[m..m + n];
      assert r[n - 1] == chain[m + n - 1] && r[n - 2] == chain[m + n - 2];
      assert chain[m..m + (n - 1)] == r[..n - 1] == Run(chain[m], n - 1);
      RunInOne(chain, m, n - 1);
      FragmentsStep(chain, m + n - 1);
    }
  }

  /** The last steps: the length used, and the terminator if it fits. */
  method FinishMap(tbl: array<nat>, ulen: nat, tlen: nat, ghost items: seq<nat>, ghost chain: seq<nat>) returns (res: FResult)
    requires tlen <= tbl.Length && 1 <= tbl.Length
    requires Listed(items, chain, ulen) && ulen >= 2 && (ulen <= tlen ==> tbl[1..ulen - 1] == items)
    modifies tbl
    ensures res == (if ulen <= tlen then FR_OK else FR_NOT_ENOUGH_CORE) && tbl[0] == ulen
    ensures res == FR_OK ==> LinkMap(tbl[..], chain)
    ensures forall i :: tlen <= i < tbl.Length && i > 0 ==> tbl[i] == old(tbl[i])
  {
    hide Expand, Fragments, LinkMap;
    tbl[0] := ulen;
    if ulen <= tlen {
      tbl[ulen - 1] := 0;
      assert tbl[..][1..ulen - 1] == items;
      MapMade(tbl[..], items, chain);
      res := FR_OK;
    } else {
      res := FR_NOT_ENOUGH_CORE;
    }
  }

  /** One turn of the outer loop: the next fragment, and its pair as far as the table goes. */
  method FragmentItem(fs: Volume, tbl: array<nat>, ulen: nat, tlen: nat, tcl: nat, ghost chain: seq<nat>, ghost m: nat,
                      ghost items: seq<nat>) returns (res: FResult, ncl: nat, cl: nat)
    requires fs.Valid() && IsChain(fs.fat, chain) && m < |chain| && tcl == chain[m] && (m > 0 ==> tcl != chain[m - 1] + 1)
    requires tlen <= tbl.Length && ulen == |items| + 4 && Listed(items, chain[..m], ulen - 2)
    requires ulen - 2 <= tlen ==> tbl[1..ulen - 3] == items
    modifies tbl, fs`winsect, fs`wflag, fs.win, fs.disk
    ensures fs.Valid()
    ensures res == FR_OK || (res == FR_INT_ERR && EndsAtEdge(fs.fat, chain)) || (res == FR_DISK_ERR && !fs.disk.healthy)
    ensures res == FR_OK ==>
              && 0 < ncl && m + ncl <= |chain| && Listed(items + [ncl, tcl], chain[..m + ncl], ulen)
              && (if m + ncl < |chain| then cl == chain[m + ncl] != chain[m + ncl - 1] + 1
                  else cl >= fs.nFatent && !EndsAtEdge(fs.fat, chain))
              && (ulen <= tlen ==> tbl[1..ulen - 1] == items + [ncl, tcl])
    ensures forall i :: tlen <= i < tbl.Length ==> tbl[i] == old(tbl[i])
  {
    hide Volume.Valid, IsChain, EndsAtEdge, Listed;
    res, ncl, cl := Fragment(fs, tcl, chain, m);
    if res != FR_OK { return; }
    ListedMore(chain, items, m, ulen - 2, ncl);
    PutItem(tbl, ulen, tlen, ncl, tcl, items);
  }

  /** f_lseek's CREATE_LINKMAP: tbl[0] is the given length, and becomes the length used or required. */
  method CreateLinkMap(fs: Volume, sclust: nat, tbl: array<nat>, ghost chain: seq<nat>) returns (res: FResult)
    requires fs.Valid() && (chain == [] || IsChain(fs.fat, chain)) && sclust == if chain == [] then 0 else chain[0]
    requires 1 <= tbl.Length && tbl[0] <= tbl.Length
    modifies tbl, fs`winsect, fs`wflag, fs.win, fs.disk
    ensures fs.Valid()
    ensures res == FR_DISK_ERR ==> !fs.disk.healthy
    ensures res == FR_INT_ERR ==> EndsAtEdge(fs.fat, chain)
    ensures res == FR_OK || res == FR_NOT_ENOUGH_CORE ==>
              tbl[0] == 2 + 2 * Fragments(chain) && !EndsAtEdge(fs.fat, chain)
              && (res == FR_OK <==> tbl[0] <= old(tbl[0]))
    ensures res == FR_OK ==> LinkMap(tbl[..], chain)
    ensures forall i :: old(tbl[0]) <= i < tbl.Length && i > 0 ==> tbl[i] == old(tbl[i])
    ensures res == FR_OK || res == FR_NOT_ENOUGH_CORE || res == FR_INT_ERR || res == FR_DISK_ERR
  {
    hide Volume.Valid, IsChain, EndsAtEdge, Listed, LinkMap;
    var tlen, ulen, cl := tbl[0], 2, sclust;
    res := FR_OK;
    ghost var m, items: seq<nat> := 0, [];
    ListedNone();
    assert chain[..0] == [];
    if chain != [] { MemberStatus(fs.fat, chain, 0); } else { NoEdge(fs.fat); }
    if cl != 0 {
      while true
        invariant fs.Valid() && res == FR_OK && chain != [] && IsChain(fs.fat, chain)
        invariant m < |chain| && cl == chain[m] && (m > 0 ==> cl != chain[m - 1] + 1)
        invariant Listed(items, chain[..m], ulen) && ulen == |items| + 2
        invariant ulen <= tlen ==> tbl[1..ulen - 1] == items
        invariant forall i :: tlen <= i < tbl.Length ==> tbl[i] == old(tbl[i])
        decreases |chain| - m
      {
        var tcl := cl;
        var ncl;
        ulen := ulen + 2;
        res, ncl, cl := FragmentItem(fs, tbl, ulen, tlen, tcl, chain, m, items);
        if res != FR_OK { return; }
        items := items + [ncl, tcl];
        m := m + ncl;
        if m < |chain| { MemberStatus(fs.fat, chain, m); }
        if cl >= fs.nFatent { break; }
      }
    }
    assert chain[..m] == chain;
    UsedLength(items, chain, ulen);
    res := FinishMap(tbl, ulen, tlen, items, chain);
  }

  lemma UsedLength(items: seq<nat>, chain: seq<nat>, ulen: nat)
    requires Listed(items, chain, ulen)
    ensures ulen == 2 + 2 * Fragments(chain)
  {
  }

  /** A sound FAT12 volume of one cluster whose end mark is 3, the number after it: the link map of its chain fails on a
      device without errors. */
  method EdgeFails() returns (fs: Volume, res: FResult)
    ensures fs.Valid() && fs.disk.healthy && fs.fatType == FAT12 && fs.nFatent == 3 && fs.fat == [0xFF8, 0xFFF, 3]
    ensures IsChain(fs.fat, [2]) && EndsAtEdge(fs.fat, [2])
    ensures res == FR_INT_ERR
  {
    hide Volume.Valid, LinkMap;
    var blank: Sector := seq(512, _ => 0);
    var table := blank[0 := 0xF8][1 := 0xFF][2 := 0xFF][3 := 3];
    var disk := new Disk([blank, table, blank, blank], true, 4);
    fs := new Volume(FAT12, 1, 1, 3, 1, 0, 1, 3, disk, 2, 0, 0);
    EdgeTable(fs.raw);
    var tbl := new nat[5];
    tbl[0] := 5;
    res := CreateLinkMap(fs, 2, tbl, [2]);
  }

  lemma EdgeTable(raw: seq<Byte>)
    requires |raw| == 512 && raw[..5] == [0xF8, 0xFF, 0xFF, 3, 0]
    ensures FatOf(FAT12, raw, 3) == [0xFF8, 0xFFF, 3]
  {
    assert raw[0] == raw[..5][0] && raw[1] == raw[..5][1] && raw[2] == raw[..5][2] && raw[3] == raw[..5][3] && raw[4] == raw[..5][4];
    assert Entry(FAT12, raw, 0) == 0xFF8 && Entry(FAT12, raw, 1) == 0xFFF && Entry(FAT12, raw, 2) == 3;
  }

  lemma NoEdge(fat: seq<nat>)
    ensures !EndsAtEdge(fat, [])
  {
  }

  lemma NoItems()
    ensures Expand([]) == []
  {
  }

  lemma MapMade(tbl: seq<nat>, items: seq<nat>, chain: seq<nat>)
    requires |items| + 2 <= |tbl| && tbl[0] == |items| + 2 && tbl[1..|items| + 1] == items && tbl[|items| + 1] == 0
    requires |items| % 2 == 0 && Expand(items) == chain
    requires forall i :: 0 <= i < |items| && i % 2 == 0 ==> items[i] > 0
    ensures LinkMap(tbl, chain)
  {
    hide Expand;
    forall i | 1 <= i < tbl[0] - 1 && i % 2 == 1
      ensures tbl[i] > 0
    {
      assert tbl[i] == items[i - 1];
    }
  }

  lemma ExpandSplit(items: seq<nat>, k: nat)
    requires |items| % 2 == 0 && k < |items| && k % 2 == 0
    ensures Expand(items[k..]) == Run(items[k + 1], items[k]) + Expand(items[k + 2..])
  {
    assert items[k..][2..] == items[k + 2..];
  }

  /** clmt_clust: the cluster of byte ofs by the table, 0 past the end of the chain. */
  method ClmtClust(fs: Volume, tbl: array<nat>, ofs: nat, ghost chain: seq<nat>) returns (clst: nat)
    requires fs.csize > 0 && LinkMap(tbl[..], chain)
    ensures clst == if ofs / 512 / fs.csize < |chain| then chain[ofs / 512 / fs.csize] else 0
  {
    hide Expand;
    ghost var items := tbl[1..tbl[0] - 1];
    ghost var order := Slot(ofs / 512, fs.csize);
    var p := 1;
    var cl: nat := Slot(ofs / 512, fs.csize);
    ghost var m := 0;
    assert items[0..] == items;
    while true
      invariant 1 <= p <= tbl[0] - 1 && p % 2 == 1 && cl + m == order && m <= |chain|
      invariant chain[m..] == Expand(items[p - 1..])
      decreases tbl.Length - p
    {
      var ncl := tbl[p];
      p := p + 1;
      if ncl == 0 {
        assert p == tbl[0] && items[p - 2..] == [];
        NoItems();
        assert |chain[m..]| == 0;
        return 0;
      }
      assert items[p - 2] == ncl;
      ExpandSplit(items, p - 2);
      assert chain[m..][..ncl] == Run(items[p - 1], ncl);
      if cl < ncl {
        assert chain[m..][cl] == Run(items[p - 1], ncl)[cl];
        break;
      }
      assert chain[m..][ncl..] == chain[m + ncl..];
      cl, p, m := cl - ncl, p + 1, m + ncl;
    }
    clst := cl + tbl[p];
  }

  /** f_lseek with a link map: the same place and the same file state as a seek along the chain, inside the file. */
  method FastSeek(fp: File, tbl: array<nat>, ofs: nat) returns (res: FResult)
    requires fp.Valid() && fp.err == FR_OK && LinkMap(tbl[..], fp.chain)
    modifies fp`fptr, fp`clust, fp`sect, fp`dirty, fp`err, fp.buf, fp.fs.disk, fp.fs`rest
    ensures fp.fs.Valid() && res == fp.err
    ensures res == FR_OK || (res == FR_DISK_ERR && !fp.fs.disk.healthy)
    ensures res == FR_OK ==>
              && fp.Valid() && fp.fptr == (if ofs > fp.objsize then fp.objsize else ofs)
              && fp.Content() == old(fp.Content())
              && KeptOutside(old(fp.fs.rest), fp.fs.rest, fp.secs)
  {
    hide Volume.Valid, Secs, CacheOk, IsChain, LinkMap, Slot, Place, Base, BytesOf, KeptOutside, File.Rooted;
    KeptSelf(fp.fs.rest, fp.secs);
    CacheFacts(fp.fsec, fp.secs, fp.fs.rest, fp.sect, fp.dirty, fp.buf[..]);
    res := FR_OK;
    var at := if ofs > fp.objsize then fp.objsize else ofs;
    fp.fptr := at;
    if at > 0 {
      var dsc := FindSector(fp, tbl, at);
      if at % 512 != 0 {
        SectorBefore(at);
        var ok := fp.LoadCache(dsc, (at - 1) / 512);
        if !ok {
          fp.err := FR_DISK_ERR;
          return FR_DISK_ERR;
        }
      }
    }
  }

  lemma SlotIs(k: nat, csize: nat)
    requires csize > 0
    ensures Slot(k, csize) == k / csize
  {
  }

  /** The cluster and the sector of byte at - 1, by the link map. */
  method FindSector(fp: File, tbl: array<nat>, at: nat) returns (dsc: nat)
    requires fp.fs.Valid() && fp.Placed() && 0 < at <= fp.objsize && LinkMap(tbl[..], fp.chain)
    modifies fp`clust
    ensures var k := (at - 1) / 512;
      && k < |fp.secs| && dsc == fp.secs[k]
      && Slot(k, fp.fs.csize) < |fp.chain| && fp.clust == fp.chain[Slot(k, fp.fs.csize)]
  {
    hide Volume.Valid, Secs, CacheOk, IsChain, LinkMap, Slot, Place;
    ghost var k := (at - 1) / 512;
    SecAt(fp.fs.database, fp.fs.csize, fp.chain, k);
    SlotIs(k, fp.fs.csize);
    fp.clust := ClmtClust(fp.fs, tbl, at - 1, fp.chain);
    MemberStatus(fp.fs.fat, fp.chain, Slot(k, fp.fs.csize));
    dsc := fp.fs.Clst2Sect(fp.clust); // not 0, since clust is a cluster of the chain
    dsc := dsc + Place((at - 1) / 512, fp.fs.csize);
  }
}
