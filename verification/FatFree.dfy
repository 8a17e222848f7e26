/** f_getfree: the cached count, or a scan of the FAT that sets it. */
module FatFree {
  import opened Bytes
  import opened Device
  import opened FatCodec
  import opened FatVolume
  import opened FatChain

  /** The free entries of from..to. */
  ghost function FreeIn(fat: seq<nat>, from: nat, to: nat): int
    requires from <= to <= |fat|
  {
    FreeFrom(fat, from) - FreeFrom(fat, to)
  }

  /** The FAT12 scan asks get_fat for every cluster and stops at an entry of 1. */
  method Scan12(fs: Volume) returns (res: FResult, nfree: nat)
    requires fs.Valid()
    modifies fs`winsect, fs`wflag, fs.win, fs.disk
    ensures fs.Valid() && fs.Near(old(fs.winsect), fs.winsect)
    ensures res == FR_OK ==> nfree == FreeCount(fs.fat) && !HoldsOne(fs.fat)
    ensures res == FR_INT_ERR ==> exists c :: FirstOne(fs.fat, c) && nfree == FreeIn(fs.fat, 2, c)
    ensures res == FR_OK || res == FR_INT_ERR || (res == FR_DISK_ERR && !fs.disk.healthy)
    ensures nfree <= fs.nFatent - 2
  {
    hide Volume.Valid;
    res, nfree := FR_OK, 0;
    var clst := 2;
    while true
      invariant fs.Valid() && fs.Near(old(fs.winsect), fs.winsect)
      invariant 2 <= clst < fs.nFatent && res == FR_OK && nfree <= clst - 2
      invariant nfree == FreeIn(fs.fat, 2, clst) && forall d :: 2 <= d < clst ==> fs.fat[d] != 1
      decreases fs.nFatent - clst
    {
      var stat := fs.GetFat(clst);
      if stat == DISK_ERROR { res := FR_DISK_ERR; break; }
      if stat == 1 { res := FR_INT_ERR; break; }
      if stat == 0 { nfree := nfree + 1; }
      clst := clst + 1;
      if clst >= fs.nFatent { break; }
    }
  }

  /** Whether the word or double word at offset i of the window, entry k of the FAT, is free. */
  method EntryIsFree(fs: Volume, ghost k: nat, i: nat) returns (zero: bool)
    requires fs.Valid() && fs.fatType != FAT12 && k < fs.nFatent
    requires i == EntryOfs(fs.fatType, k) % 512 && fs.winsect == fs.fatbase + EntryOfs(fs.fatType, k) / 512
    ensures zero <==> fs.fat[k] == 0
  {
    hide Volume.Valid, LdWord, LdDword;
    fs.FatAt(k);
    if fs.fatType == FAT16 {
      EvenPlace(k);
      fs.WindowWord(2 * k);
      zero := LdWord(fs.win[..], i) == 0;
    } else {
      FourthPlace(k);
      fs.WindowWord(4 * k);
      fs.WindowWord(4 * k + 2);
      TwoWords(fs.win[..], i);
      TwoWords(fs.raw, 4 * k);
      zero := LdDword(fs.win[..], i) % 0x1000_0000 == 0;
    }
  }

  lemma TwoWords(s: seq<Byte>, k: nat)
    requires k + 3 < |s|
    ensures LdDword(s, k) == LdWord(s, k) + 0x1_0000 * LdWord(s, k + 2)
  {
  }

  lemma EvenPlace(k: nat)
    ensures (2 * k) % 512 <= 510
  {
    assert k == 256 * (k / 256) + k % 256;
    DivUnique(2 * k, 512, k / 256, 2 * (k % 256));
  }

  lemma FourthPlace(k: nat)
    ensures (4 * k) % 512 <= 508 && (4 * k + 2) % 512 == (4 * k) % 512 + 2 && (4 * k + 2) / 512 == 4 * k / 512
  {
    assert k == 128 * (k / 128) + k % 128;
    DivUnique(4 * k, 512, k / 128, 4 * (k % 128));
    DivUnique(4 * k + 2, 512, k / 128, 4 * (k % 128) + 2);
  }

  lemma EntryZero(t: FatType)
    ensures EntryOfs(t, 0) == 0
  {
  }

  /** How the offset of an entry, its sector and the next sector to load move on to the next entry. */
  lemma NextEntry(t: FatType, k: nat)
    requires t != FAT12
    ensures var o, o' := EntryOfs(t, k), EntryOfs(t, k + 1);
            && o' % 512 == (o % 512 + if t == FAT16 then 2 else 4) % 512
            && (o' + 511) / 512 == (o + 511) / 512 + (if o % 512 == 0 then 1 else 0)
            && (o' % 512 != 0 ==> o' / 512 == o / 512)
            && (o % 512 == 0 ==> (o + 511) / 512 == o / 512)
  {
    var o := EntryOfs(t, k);
    var d := if t == FAT16 then 2 else 4;
    assert o % 512 % d == 0;
    Carry(o / 512, o % 512, d);
  }

  lemma Carry(q: nat, r: nat, d: nat)
    requires r < r + d <= 512
    ensures var o := 512 * q + r;
            && (o + d) % 512 == (r + d) % 512
            && (o + d + 511) / 512 == (o + 511) / 512 + (if r == 0 then 1 else 0)
            && ((o + d) % 512 != 0 ==> (o + d) / 512 == q)
            && (r == 0 ==> (o + 511) / 512 == q)
  {
  }

  /** The FAT16/FAT32 scan walks the FAT sector by sector and counts entries 0 and 1 as well. */
  method ScanWide(fs: Volume) returns (res: FResult, nfree: nat)
    requires fs.Valid() && fs.fatType != FAT12
    modifies fs`winsect, fs`wflag, fs.win, fs.disk
    ensures fs.Valid() && fs.Near(old(fs.winsect), fs.winsect)
    ensures res == FR_OK ==> nfree == FreeFrom(fs.fat, 0)
    ensures res == FR_OK || (res == FR_DISK_ERR && !fs.disk.healthy)
  {
    hide Volume.Valid, EntryOfs;
    assert EntryOfs(fs.fatType, 0) == 0 by { EntryZero(fs.fatType); }
    res, nfree := FR_OK, 0;
    var clst := fs.nFatent;
    var sect := fs.fatbase;
    var i := 0;
    ghost var k := 0;
    while true
      invariant fs.Valid() && fs.Near(old(fs.winsect), fs.winsect)
      invariant k == fs.nFatent - clst && 1 <= clst && res == FR_OK
      invariant i == EntryOfs(fs.fatType, k) % 512 && sect == fs.fatbase + (EntryOfs(fs.fatType, k) + 511) / 512
      invariant i != 0 ==> fs.winsect == fs.fatbase + EntryOfs(fs.fatType, k) / 512
      invariant nfree == FreeIn(fs.fat, 0, k)
      decreases clst
    {
      fs.FatAt(k);
      NextEntry(fs.fatType, k);
      if i == 0 {
        res := fs.MoveWindow(sect);
        sect := sect + 1;
        if res != FR_OK { break; }
      }
      var zero := EntryIsFree(fs, k, i);
      if zero { nfree := nfree + 1; }
      i := (i + if fs.fatType == FAT16 then 2 else 4) % 512;
      clst, k := clst - 1, k + 1;
      if clst == 0 { break; }
    }
  }

  /** f_getfree on a mounted volume. */
  method GetFree(fs: Volume) returns (res: FResult, nclst: nat)
    requires fs.Valid()
    modifies fs`winsect, fs`wflag, fs`freeClst, fs`fsiFlag, fs.win, fs.disk
    ensures fs.Valid() && fs.Near(old(fs.winsect), fs.winsect)
    ensures nclst == fs.freeClst
    ensures res != FR_DISK_ERR ==> ScanOutcome(fs.fat, old(fs.freeClst), fs.fatType != FAT12, res == FR_OK, nclst)
    ensures res != FR_DISK_ERR ==>
              (res == FR_INT_ERR <==> fs.fatType == FAT12 && old(fs.freeClst) > fs.nFatent - 2 && HoldsOne(fs.fat))
    ensures res == FR_OK || res == FR_INT_ERR || (res == FR_DISK_ERR && !fs.disk.healthy)
    ensures fs.fsiFlag / 2 == old(fs.fsiFlag) / 2 && (fs.fsiFlag % 2 == 1 || fs.fsiFlag == old(fs.fsiFlag))
    ensures fs.freeClst != old(fs.freeClst) ==> fs.fsiFlag % 2 == 1
  {
    hide Volume.Valid;
    res := FR_OK;
    if fs.freeClst <= fs.nFatent - 2 {
      nclst := fs.freeClst;
    } else {
      var nfree;
      if fs.fatType == FAT12 {
        res, nfree := Scan12(fs);
      } else {
        res, nfree := ScanWide(fs);
      }
      nclst := nfree;
      fs.freeClst := nfree;
      fs.fsiFlag := if fs.fsiFlag % 2 == 0 then fs.fsiFlag + 1 else fs.fsiFlag;
    }
  }

  /** The wide scan gives the number of free clusters exactly when the two reserved entries are not zero. */
  lemma WideCount(fat: seq<nat>)
    requires |fat| >= 2
    ensures FreeFrom(fat, 0) == FreeCount(fat) <==> fat[0] != 0 && fat[1] != 0
  {
    assert FreeFrom(fat, 0) == (if fat[0] == 0 then 1 else 0) + FreeFrom(fat, 1);
  }

  /** The FAT12 scan that stops at an entry of 1 stores a true count exactly when nothing after that entry is free. */
  lemma StoppedCount(fat: seq<nat>, c: nat)
    requires 2 <= c < |fat| && fat[c] == 1
    ensures FreeIn(fat, 2, c) == FreeCount(fat) <==> forall d :: c < d < |fat| ==> fat[d] != 0
  {
    FreeFromNone(fat, c);
  }

  /** The map of the smallest FAT16 with cluster 2 free, all others in use, and nothing in its reserved entry 1. */
  const SmallFat16: seq<nat> := seq(0xFF8, c => if c == 0 then 0xFFF8 else if c <= 2 then 0 else 0xFFFF)

  /** A FAT12 on which the stopped scan stores one cluster too few, and a FAT16 on which the scan counts the reserved
      entry 1: what f_getfree leaves is not the number of free clusters. */
  lemma WrongCounts()
    ensures ScanOutcome([0xFF8, 0xFFF, 0, 1, 0], 0xFFFF_FFFF, false, false, 1) && FreeCount([0xFF8, 0xFFF, 0, 1, 0]) == 2
    ensures IsSubType(FAT16, |SmallFat16| - 2)
    ensures ScanOutcome(SmallFat16, 0xFFFF_FFFF, true, true, 2) && FreeCount(SmallFat16) == 1
  {
    var a, b := [0xFF8, 0xFFF, 0, 1, 0], SmallFat16;
    assert FreeFrom(a, 5) == 0 && FreeFrom(a, 4) == 1 && FreeFrom(a, 3) == 1 && FreeFrom(a, 2) == 2;
    assert FirstOne(a, 3);
    NoneFree(b, 3);
    assert FreeFrom(b, 2) == 1 && FreeFrom(b, 1) == 2 && FreeFrom(b, 0) == 2;
  }

  lemma {:induction false} NoneFree(fat: seq<nat>, i: nat)
    requires i <= |fat| && forall c :: i <= c < |fat| ==> fat[c] != 0
    ensures FreeFrom(fat, i) == 0
    decreases |fat| - i
  {
    if i < |fat| { NoneFree(fat, i + 1); }
  }
}
