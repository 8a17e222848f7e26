/** The layout f_mkfs plans for a FAT volume and the checks mount_volume makes of it. */
module FatLayout {
  import opened Bytes
  import opened FatCodec
  import opened FileLayout

  /** The volume size boundaries of the automatic cluster size, in units of 4K (FAT) and 128K (FAT32) sectors. */
  const CST: seq<nat> := [1, 4, 16, 64, 256, 512, 0]
  const CST32: seq<nat> := [1, 2, 4, 8, 16, 32, 0]

  const SHIFTED: seq<nat> := [1, 2, 4, 8, 16, 32, 64]

  /** How many boundaries from i on the size n reaches. */
  function Reached(tbl: seq<nat>, i: nat, n: nat): (e: nat)
    requires |tbl| == 7 && tbl[6] == 0 && i <= 6
    ensures e <= 6 - i
    decreases 6 - i
  {
    if tbl[i] != 0 && tbl[i] <= n then 1 + Reached(tbl, i + 1, n) else 0
  }

  /** The cluster size: as given, or by the volume size. */
  function Pau(fat32: bool, szVol: nat, szAu: nat): (pau: nat)
    requires szAu == 0 || IsClusterSize(szAu)
    ensures IsClusterSize(pau) && (szAu == 0 ==> pau <= 64) && (szAu != 0 ==> pau == szAu)
  {
    if szAu != 0 then szAu
    else SHIFTED[if fat32 then Reached(CST32, 0, szVol / 0x2_0000) else Reached(CST, 0, szVol / 0x1000)]
  }

  /** The automatic cluster sizes: on FAT12 and FAT16 one sector below 2 MB, twice as many from 2, 8, 32, 128, 512 MB and
      1 GB on, and on FAT32 from 64, 128, 256, 512 MB, 1 and 2 GB on, where it is one sector below 64 MB. */
  lemma AutomaticSizes(szVol: nat)
    ensures Pau(false, szVol, 0) ==
            if szVol < 0x1000 then 1 else if szVol < 0x4000 then 2 else if szVol < 0x1_0000 then 4 else if szVol < 0x4_0000 then 8
            else if szVol < 0x10_0000 then 16 else if szVol < 0x20_0000 then 32 else 64
    ensures Pau(true, szVol, 0) ==
            if szVol < 0x2_0000 then 1 else if szVol < 0x4_0000 then 2 else if szVol < 0x8_0000 then 4 else if szVol < 0x10_0000 then 8
            else if szVol < 0x20_0000 then 16 else if szVol < 0x40_0000 then 32 else 64
  {
    var n, m := szVol / 0x1000, szVol / 0x2_0000;
    assert Reached(CST, 6, n) == 0 == Reached(CST32, 6, m);
    assert Reached(CST, 5, n) == if 512 <= n then 1 else 0;
    assert Reached(CST, 4, n) == if 256 <= n then 1 + Reached(CST, 5, n) else 0;
    assert Reached(CST, 3, n) == if 64 <= n then 1 + Reached(CST, 4, n) else 0;
    assert Reached(CST, 2, n) == if 16 <= n then 1 + Reached(CST, 3, n) else 0;
    assert Reached(CST, 1, n) == if 4 <= n then 1 + Reached(CST, 2, n) else 0;
    assert Reached(CST, 0, n) == if 1 <= n then 1 + Reached(CST, 1, n) else 0;
    assert Reached(CST32, 5, m) == if 32 <= m then 1 else 0;
    assert Reached(CST32, 4, m) == if 16 <= m then 1 + Reached(CST32, 5, m) else 0;
    assert Reached(CST32, 3, m) == if 8 <= m then 1 + Reached(CST32, 4, m) else 0;
    assert Reached(CST32, 2, m) == if 4 <= m then 1 + Reached(CST32, 3, m) else 0;
    assert Reached(CST32, 1, m) == if 2 <= m then 1 + Reached(CST32, 2, m) else 0;
    assert Reached(CST32, 0, m) == if 1 <= m then 1 + Reached(CST32, 1, m) else 0;
  }

  /** Where and how large the volume is to be, the erase block size, and the options, after f_mkfs has adjusted them. */
  datatype Params = Params(bVol: nat, szVol: nat, szBlk: nat, nFat: nat, nRoot: nat, fat32: bool)

  predicate IsBlock(n: nat) {
    IsClusterSize(n) || n == 256 || n == 512 || n == 1024 || n == 2048 || n == 4096 || n == 8192 || n == 16384 || n == 32768
  }

  /** What f_mkfs has made sure of: n_root is a whole number of sectors, the volume has 128 sectors or more. */
  predicate Adjusted(p: Params) {
    && (p.bVol == 0 || p.bVol == 63) && 128 <= p.szVol && p.bVol + p.szVol < DWORD
    && IsBlock(p.szBlk) && 1 <= p.nFat <= 2
    && 16 <= p.nRoot <= 32768 && p.nRoot % 16 == 0
  }

  datatype Layout = Layout(fmt: FatType, pau: nat, szRsv: nat, szFat: nat, szDir: nat, nClst: nat)

  datatype Turn = Accept(layout: Layout) | Again(fmt: FatType, szAu: nat) | Abort

  /** The size of one FAT in bytes for the first estimate of the cluster number, in 32-bit arithmetic. */
  function FatBytes(fmt: FatType, nClst: nat): nat {
    match fmt
    case FAT12 => (nClst * 3 + 1) / 2 + 3
    case FAT16 => (nClst * 2 + 4) % DWORD
    case FAT32 => (nClst * 4 + 8) % DWORD
  }

  /** The same in sectors; the rounding up is done in 32-bit arithmetic, too. */
  function FatSectors(fmt: FatType, nClst: nat): nat {
    (FatBytes(fmt, nClst) + 511) % DWORD / 512
  }

  /** Sectors from x up to the next multiple of the block size. */
  function Gap(x: nat, blk: nat): (n: nat)
    requires blk > 0
    ensures n < blk && (x + n) % blk == 0
  {
    GapFits(x, blk);
    (x + blk - 1) / blk * blk - x
  }

  lemma GapFits(x: nat, blk: nat)
    requires blk > 0
    ensures x <= (x + blk - 1) / blk * blk < x + blk
    ensures (x + blk - 1) / blk * blk % blk == 0
  {
    var q := (x + blk - 1) / blk;
    assert x + blk - 1 == q * blk + (x + blk - 1) % blk;
    DivUnique(q * blk, blk, q, 0);
  }

  /** Sectors of all FATs. */
  function Area(szFat: nat, nFat: nat): (r: nat)
    ensures nFat == 1 ==> r == szFat
    ensures nFat == 2 ==> r == szFat + szFat
  {
    szFat * nFat
  }

  /** The share of each FAT. */
  function Share(n: nat, nFat: nat): (r: nat)
    requires nFat > 0
    ensures nFat == 1 ==> r == n
    ensures nFat == 2 && n % 2 == 0 ==> r + r == n
  {
    n / nFat
  }

  /** The number of clusters in n sectors. */
  function Clusters(n: nat, pau: nat): (r: nat)
    requires IsClusterSize(pau)
    ensures r <= n
  {
    n / pau
  }

  /** The layout for one choice of type and cluster size, before its cluster number is judged. */
  function Draft(p: Params, fmt0: FatType, szAu: nat): (l: Layout)
    requires Adjusted(p) && fmt0 != FAT12 && (szAu == 0 || IsClusterSize(szAu))
  {
    var pau := Pau(fmt0 == FAT32, p.szVol, szAu);
    var first := Clusters(p.szVol, pau);
    var fmt := if fmt0 != FAT32 && first <= MAX_FAT12 then FAT12 else fmt0;
    var szFat0 := FatSectors(fmt, first);
    var szRsv0 := if fmt == FAT32 then 32 else 1;
    var szDir := if fmt == FAT32 then 0 else p.nRoot * 32 / 512;
    var n := Gap(p.bVol + szRsv0 + Area(szFat0, p.nFat) + szDir, p.szBlk);
    var odd := if fmt != FAT32 && n % p.nFat != 0 then 1 else 0;
    var szRsv := if fmt == FAT32 then szRsv0 + n else szRsv0 + odd;
    var szFat := if fmt == FAT32 then szFat0 else szFat0 + Share(n - odd, p.nFat);
    Layout(fmt, pau, szRsv, szFat, szDir, Clusters((p.szVol - szRsv - Area(szFat, p.nFat) - szDir) % DWORD, pau))
  }

  /** One turn of f_mkfs's loop: what becomes of the choice (fmt, szAu). */
  function Try(p: Params, fmt: FatType, szAu: nat): Turn
    requires Adjusted(p) && fmt != FAT12 && (szAu == 0 || IsClusterSize(szAu))
  {
    var l := Draft(p, fmt, szAu);
    var first := Clusters(p.szVol, l.pau);
    var bData := p.bVol + (if l.fmt == FAT32 then 32 else 1) + Area(FatSectors(l.fmt, first), p.nFat) + l.szDir;
    if l.fmt == FAT32 && (first <= MAX_FAT16 || first > MAX_FAT32) then Abort
    else if p.szVol < bData + l.pau * 16 - p.bVol then Abort
    else if l.fmt == FAT32 && l.nClst <= MAX_FAT16 then
      if szAu == 0 && l.pau / 2 != 0 then Again(FAT32, l.pau / 2) else Abort
    else if l.fmt == FAT16 && l.nClst > MAX_FAT16 then
      if szAu == 0 && l.pau * 2 <= 64 then Again(FAT16, l.pau * 2)
      else if p.fat32 then Again(FAT32, szAu)
      else if szAu == 0 && l.pau * 2 <= 128 then Again(FAT16, l.pau * 2)
      else Abort
    else if l.fmt == FAT16 && l.nClst <= MAX_FAT12 then
      if szAu == 0 && l.pau * 2 <= 128 then Again(FAT16, l.pau * 2) else Abort
    else if l.fmt == FAT12 && l.nClst > MAX_FAT12 then Abort
    else Accept(l)
  }

  // ----- the boot sector and mount_volume -----

  /** The fields of the boot sector that describe the layout, as wide as they are stored. fatSz32 and rootClus lie
      where a FAT12 or FAT16 boot sector holds other things. */
  datatype Bpb = Bpb(secPerClus: nat, rsvdSecCnt: nat, numFats: nat, rootEntCnt: nat, totSec16: nat, totSec32: nat,
                     fatSz16: nat, fatSz32: nat, rootClus: nat)

  function Vbr(p: Params, l: Layout, other32: nat, other44: nat): Bpb {
    Bpb(l.pau % 256, l.szRsv % 0x1_0000, p.nFat % 256, (if l.fmt == FAT32 then 0 else p.nRoot) % 0x1_0000,
        if p.szVol < 0x1_0000 then p.szVol else 0, if p.szVol < 0x1_0000 then 0 else p.szVol,
        if l.fmt == FAT32 then 0 else l.szFat % 0x1_0000, if l.fmt == FAT32 then l.szFat else other32,
        if l.fmt == FAT32 then 2 else other44)
  }

  datatype Mounted = NoFileSystem
    | Mounted(fmt: FatType, nFats: nat, csize: nat, nFatent: nat, fsize: nat, fatbase: nat, database: nat, dirbase: nat)

  /** The bytes mount_volume wants the FAT to have. */
  function FatNeed(fmt: FatType, nFatent: nat): nat {
    match fmt
    case FAT12 => nFatent * 3 / 2 + nFatent % 2
    case FAT16 => nFatent * 2
    case FAT32 => nFatent * 4
  }

  /** mount_volume's checks of a boot sector at bsect, its sector size and revision taken to be right. */
  function Mount(b: Bpb, bsect: nat): Mounted {
    var fsize := if b.fatSz16 == 0 then b.fatSz32 else b.fatSz16;
    var tsect := if b.totSec16 == 0 then b.totSec32 else b.totSec16;
    var sysect := b.rsvdSecCnt + Area(fsize, b.numFats) + b.rootEntCnt / 16;
    if b.numFats != 1 && b.numFats != 2 then NoFileSystem
    else if !IsClusterSize(b.secPerClus) then NoFileSystem
    else if b.rootEntCnt % 16 != 0 || b.rsvdSecCnt == 0 || tsect < sysect then NoFileSystem
    else
      var nclst := Clusters(tsect - sysect, b.secPerClus);
      if nclst == 0 || nclst > MAX_FAT32 then NoFileSystem
      else
        var fmt := if nclst <= MAX_FAT12 then FAT12 else if nclst <= MAX_FAT16 then FAT16 else FAT32;
        var nFatent := nclst + 2;
        if (fmt == FAT32) != (b.rootEntCnt == 0) || fsize < (FatNeed(fmt, nFatent) + 511) / 512 then NoFileSystem
        else Mounted(fmt, b.numFats, b.secPerClus, nFatent, fsize, bsect + b.rsvdSecCnt, bsect + sysect,
                     if fmt == FAT32 then b.rootClus else bsect + b.rsvdSecCnt + Area(fsize, b.numFats))
  }

  // ----- every accepted layout -----

  /** Sectors before the data area. */
  function Sys(p: Params, l: Layout): nat {
    l.szRsv + Area(l.szFat, p.nFat) + l.szDir
  }

  lemma ClustersBounds(x: nat, pau: nat)
    requires IsClusterSize(pau)
    ensures x < 128 * Clusters(x, pau) + 128
    ensures x >= pau ==> Clusters(x, pau) > 0
    ensures x < pau ==> Clusters(x, pau) == 0
    ensures pau * Clusters(x, pau) <= x
  {
  }

  lemma ClustersLess(x: nat, d: nat, pau: nat)
    requires IsClusterSize(pau)
    ensures Clusters(x, pau) <= Clusters(x + d, pau) <= Clusters(x, pau) + d
  {
  }

  /** Aligning the data area adds the gap to the reserved sectors or spreads it over the FATs. */
  lemma DraftAligned(p: Params, fmt: FatType, szAu: nat)
    requires Adjusted(p) && fmt != FAT12 && (szAu == 0 || IsClusterSize(szAu))
    ensures var l := Draft(p, fmt, szAu);
            var szFat0 := FatSectors(l.fmt, Clusters(p.szVol, l.pau));
            var before := p.bVol + (if l.fmt == FAT32 then 32 else 1) + Area(szFat0, p.nFat) + l.szDir;
            && p.bVol + Sys(p, l) == before + Gap(before, p.szBlk)
            && (p.bVol + Sys(p, l)) % p.szBlk == 0
            && szFat0 <= l.szFat < szFat0 + 32768
            && 1 <= l.szRsv <= (if l.fmt == FAT32 then 32799 else 2)
            && (l.fmt == FAT32 <==> fmt == FAT32) && (l.fmt == FAT16 ==> fmt == FAT16)
            && l.szDir == (if fmt == FAT32 then 0 else p.nRoot / 16) <= 2048
            && l.nClst == Clusters((p.szVol - Sys(p, l)) % DWORD, l.pau)
            && (l.fmt == FAT12 ==> Clusters(p.szVol, l.pau) <= MAX_FAT12)
            && Sys(p, l) < 34911 + Area(szFat0, p.nFat)
  {
    hide Area, Clusters, FatBytes, FatSectors, Pau, Draft, Gap;
    var l := Draft(p, fmt, szAu);
    DraftPau(p, fmt, szAu);
    DraftGap(p, fmt, szAu);
    GapBound(p.bVol + (if l.fmt == FAT32 then 32 else 1) + Area(FatSectors(l.fmt, Clusters(p.szVol, l.pau)), p.nFat) + l.szDir,
             p.szBlk);
  }

  /** Where the gap goes. */
  lemma DraftGap(p: Params, fmt: FatType, szAu: nat)
    requires Adjusted(p) && fmt != FAT12 && (szAu == 0 || IsClusterSize(szAu))
    ensures var l := Draft(p, fmt, szAu);
            && IsClusterSize(l.pau)
            && (l.fmt == FAT32 <==> fmt == FAT32) && (l.fmt == FAT16 ==> fmt == FAT16)
            && (l.fmt == FAT12 ==> Clusters(p.szVol, l.pau) <= MAX_FAT12)
            && l.szDir == (if fmt == FAT32 then 0 else p.nRoot / 16)
            && l.nClst == Clusters((p.szVol - Sys(p, l)) % DWORD, l.pau)
            && var szFat0 := FatSectors(l.fmt, Clusters(p.szVol, l.pau));
            && var szRsv0 := if l.fmt == FAT32 then 32 else 1;
            && var n := Gap(p.bVol + szRsv0 + Area(szFat0, p.nFat) + l.szDir, p.szBlk);
            && szFat0 <= l.szFat <= szFat0 + n && szRsv0 <= l.szRsv
            && l.szRsv <= szRsv0 + (if l.fmt == FAT32 then n else 1)
            && l.szRsv + Area(l.szFat, p.nFat) == szRsv0 + Area(szFat0, p.nFat) + n
  {
    hide Area, Clusters, FatBytes, FatSectors, Pau, Gap, Share;
    var l := Draft(p, fmt, szAu);
    var szFat0 := FatSectors(l.fmt, Clusters(p.szVol, l.pau));
    GapSpread(Gap(p.bVol + (if l.fmt == FAT32 then 32 else 1) + Area(szFat0, p.nFat) + l.szDir, p.szBlk), szFat0, p.nFat);
  }

  /** n sectors go to the FATs in equal parts, and one to the reserved sectors if it is left over. */
  lemma GapSpread(n: nat, szFat: nat, nFat: nat)
    requires 1 <= nFat <= 2
    ensures var odd := if n % nFat != 0 then 1 else 0;
            n >= odd && Share(n - odd, nFat) <= n
            && odd + Area(szFat + Share(n - odd, nFat), nFat) == Area(szFat, nFat) + n
  {
    if nFat == 1 { assert n % nFat == 0; }
  }

  lemma GapBound(x: nat, blk: nat)
    requires IsBlock(blk)
    ensures Gap(x, blk) < 32768
  {
  }

  /** What holds of a layout f_mkfs accepts: nothing has wrapped around or been cut, and the FATs are large enough. */
  ghost predicate Sound(p: Params, l: Layout) {
    && IsClusterSize(l.pau) && p.szBlk > 0
    && Sys(p, l) <= p.szVol && l.nClst == Clusters(p.szVol - Sys(p, l), l.pau)
    && (p.bVol + Sys(p, l)) % p.szBlk == 0
    && l.szRsv > 0 && l.szRsv < 0x1_0000
    && (IsSubType(l.fmt, l.nClst) || (l.fmt == FAT12 && l.nClst == 0))
    && (l.fmt != FAT32 ==> l.szFat < 0x1_0000)
    && l.szDir == (if l.fmt == FAT32 then 0 else p.nRoot / 16)
    && (FatNeed(l.fmt, l.nClst + 2) + 511) / 512 <= l.szFat
  }

  lemma FatBytesEnough(fmt: FatType, first: nat, nClst: nat)
    requires nClst <= first && first <= 0x1000_0000
    ensures FatNeed(fmt, nClst + 2) <= FatBytes(fmt, first)
  {
    if fmt == FAT12 {
      Need12(nClst);
      assert (nClst * 3 + 1) / 2 <= (first * 3 + 1) / 2;
    }
  }

  lemma Need12(n: nat)
    ensures FatNeed(FAT12, n + 2) == (n * 3 + 1) / 2 + 3
  {
    var h := n / 2;
    if n % 2 == 0 {
      assert (n + 2) * 3 == 2 * (3 * h + 3) && n * 3 + 1 == 2 * (3 * h) + 1;
      Halves(3 * h + 3, 0);
      Halves(3 * h, 1);
    } else {
      assert (n + 2) * 3 == 2 * (3 * h + 4) + 1 && n * 3 + 1 == 2 * (3 * h + 2);
      Halves(3 * h + 4, 1);
      Halves(3 * h + 2, 0);
    }
  }

  lemma Halves(q: nat, r: nat)
    requires r < 2
    ensures (2 * q + r) / 2 == q
  {
  }

  lemma AcceptInside(p: Params, fmt: FatType, szAu: nat)
    requires Adjusted(p) && fmt != FAT12 && (szAu == 0 || IsClusterSize(szAu)) && Try(p, fmt, szAu).Accept?
    ensures Sys(p, Draft(p, fmt, szAu)) <= p.szVol
  {
    hide Area, Clusters, Draft, Gap, Pau, FatNeed, FatBytes, FatSectors;
    DraftAligned(p, fmt, szAu);
    DraftPau(p, fmt, szAu);
    var l := Draft(p, fmt, szAu);
    SectorsBound(l.fmt, Clusters(p.szVol, l.pau));
    ClustersBounds(p.szVol, l.pau);
    if Sys(p, l) > p.szVol && l.fmt != FAT32 {
      Underflow(p.szVol, Sys(p, l), l.pau);
    }
  }

  /** The subtraction that gives the cluster number does not pass below zero in an accepted layout. */
  lemma AcceptFits(p: Params, fmt: FatType, szAu: nat)
    requires Adjusted(p) && fmt != FAT12 && (szAu == 0 || IsClusterSize(szAu)) && Try(p, fmt, szAu).Accept?
    ensures Sys(p, Draft(p, fmt, szAu)) <= p.szVol && Clusters(p.szVol, Draft(p, fmt, szAu).pau) <= 0x1000_0000
  {
    hide Area, Clusters, Draft, Gap, Pau, FatNeed, FatBytes, FatSectors;
    DraftAligned(p, fmt, szAu);
    DraftPau(p, fmt, szAu);
    var l := Draft(p, fmt, szAu);
    var first := Clusters(p.szVol, l.pau);
    SectorsBound(l.fmt, first);
    AcceptInside(p, fmt, szAu);
    ClustersLess(p.szVol - Sys(p, l), Sys(p, l), l.pau);
  }

  /** How many sectors the first estimate gives the FAT. */
  lemma SectorsBound(fmt: FatType, first: nat)
    ensures fmt == FAT12 && first <= MAX_FAT12 ==> FatSectors(fmt, first) <= 16
    ensures fmt == FAT16 ==> FatSectors(fmt, first) < 0x80_0000
    ensures fmt == FAT16 && first <= 0x1000_0000 ==> 512 * FatSectors(fmt, first) <= 2 * first + 515
    ensures fmt == FAT32 && first <= MAX_FAT32 ==> 512 * FatSectors(fmt, first) <= 4 * first + 519
  {
    hide FatBytes;
    FatBytesBound(fmt, first);
    var n := FatBytes(fmt, first) + 511;
    Rounded(n % DWORD);
    if n < DWORD {
      DivUnique(n, DWORD, 0, n);
    }
  }

  lemma Rounded(n: nat)
    ensures 512 * (n / 512) <= n < 512 * (n / 512) + 512
  {
  }

  /** They are enough for the clusters there are in the end. */
  lemma SectorsEnough(fmt: FatType, first: nat, nClst: nat)
    requires nClst <= first <= 0x1000_0000 && (fmt == FAT12 ==> first <= MAX_FAT12) && (fmt == FAT32 ==> first <= MAX_FAT32)
    ensures (FatNeed(fmt, nClst + 2) + 511) / 512 <= FatSectors(fmt, first)
  {
    hide FatBytes, FatNeed;
    FatBytesBound(fmt, first);
    FatBytesEnough(fmt, first, nClst);
    var need, n := FatNeed(fmt, nClst + 2) + 511, FatBytes(fmt, first) + 511;
    DivUnique(n, DWORD, 0, n);
    Rounded(n);
    Rounded(need);
  }

  lemma FatBytesBound(fmt: FatType, first: nat)
    ensures fmt == FAT12 && first <= MAX_FAT12 ==> FatBytes(fmt, first) < 0x2000
    ensures fmt == FAT16 ==> FatBytes(fmt, first) < DWORD
    ensures fmt == FAT16 && first <= 0x1000_0000 ==> FatBytes(fmt, first) == 2 * first + 4
    ensures fmt == FAT32 && first <= MAX_FAT32 ==> FatBytes(fmt, first) == 4 * first + 8
  {
  }

  lemma Underflow(szVol: nat, sys: nat, pau: nat)
    requires IsClusterSize(pau) && szVol < sys < 0x200_0000
    ensures Clusters((szVol - sys) % DWORD, pau) > MAX_FAT16
  {
    hide Clusters;
    ClustersBounds((szVol - sys) % DWORD, pau);
  }

  lemma DraftPau(p: Params, fmt: FatType, szAu: nat)
    requires Adjusted(p) && fmt != FAT12 && (szAu == 0 || IsClusterSize(szAu))
    ensures var l := Draft(p, fmt, szAu); l.pau == Pau(fmt == FAT32, p.szVol, szAu) && IsClusterSize(l.pau)
  {
  }

  /** What the loop has checked of the layout it accepts. */
  lemma AcceptChecked(p: Params, fmt: FatType, szAu: nat)
    requires Adjusted(p) && fmt != FAT12 && (szAu == 0 || IsClusterSize(szAu)) && Try(p, fmt, szAu).Accept?
    ensures var l := Try(p, fmt, szAu).layout;
            && l == Draft(p, fmt, szAu) && IsClusterSize(l.pau)
            && (IsSubType(l.fmt, l.nClst) || (l.fmt == FAT12 && l.nClst == 0) || (l.fmt == FAT32 && l.nClst > MAX_FAT32))
            && (l.fmt == FAT32 ==> Clusters(p.szVol, l.pau) <= MAX_FAT32)
  {
    hide Area, Clusters, Draft, FatSectors;
    DraftPau(p, fmt, szAu);
  }

  /** Every layout the loop accepts is sound. */
  lemma AcceptSound(p: Params, fmt: FatType, szAu: nat)
    requires Adjusted(p) && fmt != FAT12 && (szAu == 0 || IsClusterSize(szAu)) && Try(p, fmt, szAu).Accept?
    ensures Sound(p, Try(p, fmt, szAu).layout)
  {
    hide Area, Clusters, Draft, Gap, Pau, FatNeed, FatBytes, FatSectors, Try;
    AcceptChecked(p, fmt, szAu);
    AcceptFits(p, fmt, szAu);
    DraftAligned(p, fmt, szAu);
    var l := Draft(p, fmt, szAu);
    var first := Clusters(p.szVol, l.pau);
    ClustersLess(p.szVol - Sys(p, l), Sys(p, l), l.pau);
    SectorsEnough(l.fmt, first, l.nClst);
    SectorsBound(l.fmt, first);
  }

  /** mount_volume reads back from the boot sector of a sound layout the same sub-type, cluster number and areas, and
      refuses it exactly when aligning the data area has left no room for one cluster. */
  lemma MountsAsPlanned(p: Params, l: Layout, other32: nat, other44: nat)
    requires Adjusted(p) && Sound(p, l)
    ensures var m := Mount(Vbr(p, l, other32, other44), p.bVol);
            && (m == NoFileSystem <==> p.szVol < Sys(p, l) + l.pau)
            && (m.Mounted? ==>
                  m == Mounted(l.fmt, p.nFat, l.pau, l.nClst + 2, l.szFat, p.bVol + l.szRsv, p.bVol + Sys(p, l),
                               if l.fmt == FAT32 then 2 else p.bVol + l.szRsv + Area(l.szFat, p.nFat))
                  && m.database % p.szBlk == 0
                  && m.database + l.pau * l.nClst <= p.bVol + p.szVol)
  {
    hide Area, Clusters;
    ClustersBounds(p.szVol - Sys(p, l), l.pau);
    MountClusters(p, l, other32, other44);
  }

  lemma MountClusters(p: Params, l: Layout, other32: nat, other44: nat)
    requires Adjusted(p) && Sound(p, l)
    ensures Mount(Vbr(p, l, other32, other44), p.bVol) ==
            if l.nClst == 0 then NoFileSystem
            else Mounted(l.fmt, p.nFat, l.pau, l.nClst + 2, l.szFat, p.bVol + l.szRsv, p.bVol + Sys(p, l),
                         if l.fmt == FAT32 then 2 else p.bVol + l.szRsv + Area(l.szFat, p.nFat))
  {
    hide Area, Clusters, Vbr, Adjusted, FatNeed;
    VbrFields(p, l, other32, other44);
  }

  /** No field of the boot sector is cut. */
  lemma VbrFields(p: Params, l: Layout, other32: nat, other44: nat)
    requires Adjusted(p) && Sound(p, l)
    ensures var b := Vbr(p, l, other32, other44);
            && b.secPerClus == l.pau && b.rsvdSecCnt == l.szRsv > 0 && 1 <= b.numFats == p.nFat <= 2
            && b.rootEntCnt % 16 == 0 && b.rootEntCnt / 16 == l.szDir && (l.fmt == FAT32 <==> b.rootEntCnt == 0)
            && (if b.fatSz16 == 0 then b.fatSz32 else b.fatSz16) == l.szFat
            && (if b.totSec16 == 0 then b.totSec32 else b.totSec16) == p.szVol
            && (l.fmt == FAT32 ==> b.rootClus == 2)
  {
    hide Area, Clusters, IsClusterSize, IsBlock, IsSubType, Sys, FatNeed;
    VbrRoot(p, l, other32, other44);
    PauSmall(l.pau);
    Uncut(l.pau, 256);
    Uncut(p.nFat, 256);
    Uncut(l.szRsv, 0x1_0000);
    Uncut(l.szFat, 0x1_0000);
    SomeFat(l.fmt, l.nClst);
  }

  lemma PauSmall(pau: nat)
    requires IsClusterSize(pau)
    ensures pau < 256
  {
  }

  lemma Uncut(n: nat, m: nat)
    requires m > 0
    ensures n < m ==> n % m == n
  {
  }

  lemma SomeFat(t: FatType, n: nat)
    ensures (FatNeed(t, n + 2) + 511) / 512 > 0
  {
  }

  lemma VbrRoot(p: Params, l: Layout, other32: nat, other44: nat)
    requires Adjusted(p) && l.szDir == if l.fmt == FAT32 then 0 else p.nRoot / 16
    ensures var n := Vbr(p, l, other32, other44).rootEntCnt;
            n % 16 == 0 && n / 16 == l.szDir && (l.fmt == FAT32 <==> n == 0)
  {
  }

  /** A volume mount_volume takes has the geometry the other modules start from, and ends inside its sectors. */
  lemma MountedGeometry(b: Bpb, bsect: nat)
    requires Mount(b, bsect).Mounted?
    ensures var v := Mount(b, bsect);
            var end := v.fatbase + v.fsize + if v.nFats == 2 then v.fsize else 0;
            && 1 <= v.nFats <= 2 && IsClusterSize(v.csize) && IsSubType(v.fmt, v.nFatent - 2)
            && EntryOfs(v.fmt, v.nFatent - 1) + EntryLen(v.fmt) <= 512 * v.fsize
            && bsect < v.fatbase && end <= v.database && (v.fmt != FAT32 ==> end < v.database)
            && v.database + v.csize * (v.nFatent - 2) <= bsect + if b.totSec16 == 0 then b.totSec32 else b.totSec16
  {
    hide Clusters, Area, FatNeed, EntryOfs, EntryLen;
    var v := Mount(b, bsect);
    var tsect := if b.totSec16 == 0 then b.totSec32 else b.totSec16;
    var sysect := v.database - bsect;
    ClustersBounds(tsect - sysect, v.csize);
    LastEntryFits(v.fmt, v.nFatent, v.fsize);
  }

  lemma LastEntryFits(t: FatType, n: nat, fsize: nat)
    requires n > 2 && (FatNeed(t, n) + 511) / 512 <= fsize
    ensures EntryOfs(t, n - 1) + EntryLen(t) <= 512 * fsize
  {
    LastEntry(t, n);
    hide FatNeed, EntryOfs, EntryLen;
    Rounded(FatNeed(t, n) + 511);
  }

  lemma LastEntry(t: FatType, n: nat)
    requires n > 2
    ensures EntryOfs(t, n - 1) + EntryLen(t) <= FatNeed(t, n)
  {
    if t == FAT12 {
      var q := n / 2;
      if n % 2 == 0 {
        Halves(q - 1, 1);
        Halves(3 * q, 0);
      } else {
        Halves(q, 0);
        Halves(3 * q + 1, 1);
      }
    }
  }

  /** f_mkfs accepts a volume of 32773 sectors with erase blocks of 32768 and clusters of 128 sectors, and leaves it
      without a cluster: mount_volume then finds no file system. */
  lemma AcceptedButEmpty()
    ensures var p := Params(0, 32773, 32768, 1, 512, false);
            var l := Layout(FAT12, 128, 1, 32735, 32, 0);
            Adjusted(p) && Try(p, FAT16, 128) == Accept(l) && Mount(Vbr(p, l, 0, 0), 0) == NoFileSystem
  {
    var p := Params(0, 32773, 32768, 1, 512, false);
    EmptyDraft(p);
    hide Draft, Gap;
  }

  lemma EmptyDraft(p: Params)
    requires p == Params(0, 32773, 32768, 1, 512, false)
    ensures Draft(p, FAT16, 128) == Layout(FAT12, 128, 1, 32735, 32, 0)
  {
    hide Gap;
    assert Clusters(32773, 128) == 256 && FatSectors(FAT12, 256) == 1;
    assert Gap(34, 32768) == 32734 by { GapOf(34, 32768, 1, 32734); }
    assert Share(32734, 1) == 32734 && Area(32735, 1) == 32735 && Area(1, 1) == 1;
  }

  lemma GapOf(x: nat, blk: nat, q: nat, n: nat)
    requires n < blk && x + n == q * blk
    ensures Gap(x, blk) == n
  {
    DivUnique(x + blk - 1, blk, q, blk - 1 - n);
  }

  /** An alignment of up to 15 clusters and a sector always leaves room. */
  lemma SmallAlignmentMounts(p: Params, fmt: FatType, szAu: nat)
    requires Adjusted(p) && fmt != FAT12 && (szAu == 0 || IsClusterSize(szAu)) && Try(p, fmt, szAu).Accept?
    requires p.szBlk <= 15 * Try(p, fmt, szAu).layout.pau + 1
    ensures p.szVol >= Sys(p, Try(p, fmt, szAu).layout) + Try(p, fmt, szAu).layout.pau
  {
    hide Area, Clusters, Draft, Pau, FatBytes, FatSectors;
    DraftAligned(p, fmt, szAu);
    DraftPau(p, fmt, szAu);
  }

  /** What a choice of sub-type and cluster size lacks: on FAT32 the volume gives too few or too many clusters from the
      start; it ends before the 16th cluster behind a data area that is not aligned; or in the end the cluster number is
      not one of the sub-type. */
  predicate Lacks(p: Params, fmt: FatType, szAu: nat)
    requires Adjusted(p) && fmt != FAT12 && (szAu == 0 || IsClusterSize(szAu))
  {
    var l := Draft(p, fmt, szAu);
    var first := Clusters(p.szVol, l.pau);
    || (l.fmt == FAT32 && !(0xFFF5 < first <= 0x0FFF_FFF5))
    || p.szVol < (if l.fmt == FAT32 then 32 else 1) + p.nFat * FatSectors(l.fmt, first) + (if l.fmt == FAT32 then 0 else p.nRoot / 16) + 16 * l.pau
    || (l.fmt == FAT12 && l.nClst > 0xFF5) || (l.fmt == FAT16 && !(0xFF5 < l.nClst <= 0xFFF5)) || (l.fmt == FAT32 && l.nClst <= 0xFFF5)
  }

  /** A choice is accepted exactly if it lacks nothing. */
  lemma AcceptedWhen(p: Params, fmt: FatType, szAu: nat)
    requires Adjusted(p) && fmt != FAT12 && (szAu == 0 || IsClusterSize(szAu))
    ensures Try(p, fmt, szAu).Accept? <==> !Lacks(p, fmt, szAu)
  {
    hide Clusters, Pau, FatBytes, FatSectors, Gap, Share;
  }

  datatype Plan = Planned(layout: Layout) | InvalidParameter | Aborted

  /** The layout part of f_mkfs: chooses the sub-type and tries cluster sizes until a layout is accepted or none is left.
      fat allows FAT12 and FAT16. */
  method PlanVolume(p: Params, fat: bool, auSize: nat) returns (r: Plan)
    requires Adjusted(p) && (auSize == 0 || IsBlock(auSize))
    ensures r == InvalidParameter <==> !fat && !p.fat32
    ensures r.Planned? ==> Sound(p, r.layout) && (if r.layout.fmt == FAT32 then p.fat32 else fat)
    ensures r.Planned? && auSize != 0 ==> r.layout.pau == if auSize > 128 then 128 else auSize
    ensures r == Aborted ==> exists fmt, szAu ::
      && (if fmt == FAT32 then p.fat32 else fmt == FAT16 && fat) && (szAu == 0 || IsClusterSize(szAu))
      && (auSize != 0 ==> szAu == if auSize > 128 then 128 else auSize) && Lacks(p, fmt, szAu)
  {
    hide Sound, Lacks;
    var szAu: nat := if auSize > 128 then 128 else auSize;
    var fmt := FAT16;
    if p.fat32 && !fat {
      fmt := FAT32;
    } else if !fat {
      return InvalidParameter;
    }
    while true
      invariant szAu == 0 || IsClusterSize(szAu)
      invariant if fmt == FAT32 then p.fat32 else fmt == FAT16 && fat
      invariant auSize != 0 ==> szAu == if auSize > 128 then 128 else auSize
      decreases (if szAu == 0 then 1 else 0) + (if fmt == FAT16 then 1 else 0)
    {
      DraftKind(p, fmt, szAu);
      match Try(p, fmt, szAu) {
        case Accept(l) =>
          AcceptSound(p, fmt, szAu);
          return Planned(l);
        case Again(f, a) =>
          fmt, szAu := f, a;
        case Abort =>
          AcceptedWhen(p, fmt, szAu);
          return Aborted;
      }
    }
  }

  lemma DraftKind(p: Params, fmt: FatType, szAu: nat)
    requires Adjusted(p) && fmt != FAT12 && (szAu == 0 || IsClusterSize(szAu))
    ensures var l := Draft(p, fmt, szAu);
            IsClusterSize(l.pau) && (szAu != 0 ==> l.pau == szAu) && (l.fmt == FAT32 <==> fmt == FAT32)
    ensures Try(p, fmt, szAu).Accept? ==> Try(p, fmt, szAu).layout == Draft(p, fmt, szAu)
  {
  }
}
