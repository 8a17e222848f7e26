/** sync_fs: the window flushed and, on FAT32, the cached free count saved in the FSINFO sector. */
module FatSync {
  import opened Bytes
  import opened Device
  import opened FatCodec
  import opened FatVolume
  import opened FileLayout

  const FSI_LeadSig: nat := 0
  const FSI_StrucSig: nat := 484
  const FSI_Free_Count: nat := 488
  const FSI_Nxt_Free: nat := 492
  const BS_55AA: nat := 510

  const UNKNOWN: nat := 0xFFFF_FFFF

  /** The free count and the hint mount_volume starts with. */
  datatype FsInfo = FsInfo(free: nat, last: nat)

  /** What mount_volume takes from the FSINFO sector; bits 0 and 1 of the option FF_FS_NOFSINFO keep it from the count and
      from the hint. */
  function LoadFsInfo(s: Sector, noFsInfo: nat): FsInfo
    requires |s| == 512
  {
    if LdWord(s, BS_55AA) == 0xAA55 && LdDword(s, FSI_LeadSig) == 0x41615252 && LdDword(s, FSI_StrucSig) == 0x61417272
    then FsInfo(if noFsInfo % 2 == 0 then LdDword(s, FSI_Free_Count) else UNKNOWN,
                if noFsInfo / 2 % 2 == 0 then LdDword(s, FSI_Nxt_Free) else UNKNOWN)
    else FsInfo(UNKNOWN, UNKNOWN)
  }

  lemma DwordElsewhere(s: seq<Byte>, k: nat, v: nat, j: nat)
    requires k + 3 < |s| && j + 3 < |s| && (j + 3 < k || k + 3 < j)
    ensures LdDword(StDword(s, k, v), j) == LdDword(s, j)
  {
  }

  lemma WordBefore(s: seq<Byte>, k: nat, v: nat, j: nat)
    requires k + 3 < j && j + 1 < |s|
    ensures LdWord(StDword(s, k, v), j) == LdWord(s, j)
  {
  }

  /** The FSINFO sector sync_fs makes: zeros but for the two signatures, the boot signature, the count and the hint. */
  function FsInfoBytes(free: nat, last: nat): (s: Sector)
    ensures |s| == 512
  {
    var s := StWord(seq(512, _ => 0), BS_55AA, 0xAA55);
    var t := StDword(StDword(s, FSI_LeadSig, 0x41615252), FSI_StrucSig, 0x61417272);
    StDword(StDword(t, FSI_Free_Count, free), FSI_Nxt_Free, last)
  }

  /** Saved and loaded again, the count and the hint are the same, or unknown if the option says so. */
  lemma FsInfoRoundTrip(free: nat, last: nat, noFsInfo: nat)
    requires free < DWORD && last < DWORD
    ensures LoadFsInfo(FsInfoBytes(free, last), noFsInfo) ==
            FsInfo(if noFsInfo % 2 == 0 then free else UNKNOWN, if noFsInfo / 2 % 2 == 0 then last else UNKNOWN)
  {
    hide StDword, LdDword, StWord, LdWord;
    var zero: Sector := seq(512, _ => 0);
    var s := StWord(zero, BS_55AA, 0xAA55);
    WordRoundTrip(zero, BS_55AA, 0xAA55);
    var a := StDword(s, FSI_LeadSig, 0x41615252);
    WordBefore(s, FSI_LeadSig, 0x41615252, BS_55AA);
    DwordRoundTrip(s, FSI_LeadSig, 0x41615252);
    var b := StDword(a, FSI_StrucSig, 0x61417272);
    WordBefore(a, FSI_StrucSig, 0x61417272, BS_55AA);
    DwordElsewhere(a, FSI_StrucSig, 0x61417272, FSI_LeadSig);
    DwordRoundTrip(a, FSI_StrucSig, 0x61417272);
    var c := StDword(b, FSI_Free_Count, free);
    WordBefore(b, FSI_Free_Count, free, BS_55AA);
    DwordElsewhere(b, FSI_Free_Count, free, FSI_LeadSig);
    DwordElsewhere(b, FSI_Free_Count, free, FSI_StrucSig);
    DwordRoundTrip(b, FSI_Free_Count, free);
    WordBefore(c, FSI_Nxt_Free, last, BS_55AA);
    DwordElsewhere(c, FSI_Nxt_Free, last, FSI_LeadSig);
    DwordElsewhere(c, FSI_Nxt_Free, last, FSI_StrucSig);
    DwordElsewhere(c, FSI_Nxt_Free, last, FSI_Free_Count);
    DwordRoundTrip(c, FSI_Nxt_Free, last);
  }

  /** The four bytes from k on are v, lowest first. */
  predicate BytesAt(s: seq<Byte>, k: nat, v: nat)
    requires k + 3 < |s|
  {
    s[k] as int + 0x100 * (s[k + 1] as int) + 0x1_0000 * (s[k + 2] as int) + 0x100_0000 * (s[k + 3] as int) == v
  }

  /** The sector byte by byte (section 'FAT32 FSInfo Sector Structure and Backup Boot Sector' of the Microsoft FAT32 File
      System Specification 1.03): the signatures at 0, 484 and 510, the count at 488 and the hint at 492. */
  lemma FsInfoPlaces(free: nat, last: nat)
    requires free < DWORD && last < DWORD
    ensures var s := FsInfoBytes(free, last);
      && BytesAt(s, 0, 0x4161_5252) && BytesAt(s, 484, 0x6141_7272) && s[510] == 0x55 && s[511] == 0xAA
      && BytesAt(s, 488, free) && BytesAt(s, 492, last) && forall i :: 4 <= i < 484 || 496 <= i < 510 ==> s[i] == 0
  {
    hide StDword, BytesAt;
    var s := StWord(seq(512, _ => 0), BS_55AA, 0xAA55);
    var a := StDword(s, FSI_LeadSig, 0x41615252);
    FourBytes(s, FSI_LeadSig, 0x41615252);
    var b := StDword(a, FSI_StrucSig, 0x61417272);
    FourBytes(a, FSI_StrucSig, 0x61417272);
    BytesStay(a, b, 0, 0x41615252);
    var c := StDword(b, FSI_Free_Count, free);
    FourBytes(b, FSI_Free_Count, free);
    BytesStay(b, c, 0, 0x41615252);
    BytesStay(b, c, 484, 0x61417272);
    var d := StDword(c, FSI_Nxt_Free, last);
    FourBytes(c, FSI_Nxt_Free, last);
    BytesStay(c, d, 0, 0x41615252);
    BytesStay(c, d, 484, 0x61417272);
    BytesStay(c, d, 488, free);
  }

  lemma BytesStay(a: seq<Byte>, b: seq<Byte>, k: nat, v: nat)
    requires k + 3 < |a| == |b| && BytesAt(a, k, v) && b[k] == a[k] && b[k + 1] == a[k + 1] && b[k + 2] == a[k + 2] && b[k + 3] == a[k + 3]
    ensures BytesAt(b, k, v)
  {
  }

  lemma FourBytes(s: seq<Byte>, k: nat, v: nat)
    requires k + 3 < |s| && v < DWORD
    ensures BytesAt(StDword(s, k, v), k, v)
    ensures forall i :: 0 <= i < |s| && !(k <= i < k + 4) ==> StDword(s, k, v)[i] == s[i]
  {
    TwoBytes(v);
    TwoBytes(v / 0x1_0000);
  }

  /** FSINFO read as the first sector of a FAT32: entry 0 is the signature, and the clusters that follow are free. */
  lemma FsInfoAsFat(raw: seq<Byte>, free: nat, last: nat, c: nat)
    requires |raw| >= 512 && raw[..512] == FsInfoBytes(free, last) && free < DWORD && last < DWORD && c < 121
    ensures Entry(FAT32, raw, c) == if c == 0 then 0x0161_5252 else 0
  {
    var zero: Sector := seq(512, _ => 0);
    var s := FsInfoBytes(free, last);
    assert forall i :: 0 <= i < 512 ==> raw[i] == s[i];
    assert s[0] == 0x52 && s[1] == 0x52 && s[2] == 0x61 && s[3] == 0x41;
    assert forall i :: 4 <= i < 484 ==> s[i] == 0;
  }

  method StoreWord(win: array<Byte>, k: nat, v: nat)
    requires k + 1 < win.Length
    modifies win
    ensures win[..] == StWord(old(win[..]), k, v)
  {
    win[k], win[k + 1] := v % 256, v / 256 % 256;
  }

  method StoreDword(win: array<Byte>, k: nat, v: nat)
    requires k + 3 < win.Length
    modifies win
    ensures win[..] == StDword(old(win[..]), k, v)
  {
    StoreWord(win, k, v);
    StoreWord(win, k + 2, v / 0x1_0000);
  }

  /** The FSINFO sector in the window. */
  method FillFsInfo(win: array<Byte>, free: nat, last: nat)
    requires win.Length == 512 && free < DWORD && last < DWORD
    modifies win
    ensures win[..] == FsInfoBytes(free, last)
  {
    hide StDword, LdDword, StWord, LdWord;
    forall i | 0 <= i < 512 {
      win[i] := 0;
    }
    assert win[..] == seq(512, _ => 0);
    StoreWord(win, BS_55AA, 0xAA55);
    StoreDword(win, FSI_LeadSig, 0x41615252);
    StoreDword(win, FSI_StrucSig, 0x61417272);
    StoreDword(win, FSI_Free_Count, free);
    StoreDword(win, FSI_Nxt_Free, last);
  }

  /** The FSINFO sector written through the window. What disk_write answered is written; the source ignores it, so only
      then is the window known to match the device; and only a reserved area with room for FSINFO keeps it off the FAT. */
  method WriteFsInfo(fs: Volume) returns (ghost written: bool)
    requires fs.Valid() && !fs.wflag && fs.freeClst < DWORD && fs.lastClst < DWORD
    modifies fs`winsect, fs`fsiFlag, fs`rest, fs.win, fs.disk
    ensures fs.fsiFlag == 0 && fs.disk.Valid() && (fs.disk.healthy ==> written)
    ensures SameOutside(old(fs.disk.sectors), fs.disk.sectors, fs.volbase + 1, fs.volbase + 2)
    ensures fs.volbase + 1 < |fs.disk.sectors| && fs.win[..] == FsInfoBytes(fs.freeClst, fs.lastClst)
    ensures written ==> fs.disk.sectors[fs.volbase + 1] == FsInfoBytes(fs.freeClst, fs.lastClst)
    ensures fs.disk.dead == fs.volbase + 1 ==> !written
    ensures written && fs.volbase + 1 < fs.fatbase ==> fs.Valid()
  {
    hide RawFat, FatOf, Twins, IsClusterSize, Holds, FsInfoBytes, Spliced, SameOutside;
    ghost var img, sectors := fs.Image(), fs.disk.sectors;
    FillFsInfo(fs.win, fs.freeClst, fs.lastClst);
    fs.winsect := fs.volbase + 1;
    written := fs.disk.Write(fs.win[..], fs.winsect, 1);
    fs.fsiFlag := 0;
    if fs.volbase + 1 < fs.fatbase && written {
      assert img == sectors && fs.Image() == fs.disk.sectors;
      FsInfoOffFat(fs, img, fs.Image());
      TwinsOffFat(fs, sectors, fs.disk.sectors);
      RestOffFat(fs, fs.rest, img, fs.Image(), fs.disk.sectors);
      fs.rest := Spliced(fs.rest, fs.disk.sectors, fs.winsect, fs.winsect + 1);
    }
  }

  /** sync_fs; synced is disk_ioctl's answer. */
  method SyncFs(fs: Volume, synced: bool) returns (res: FResult, ghost written: bool)
    requires fs.Valid() && fs.freeClst < DWORD && fs.lastClst < DWORD
    modifies fs`winsect, fs`wflag, fs`fsiFlag, fs`rest, fs.win, fs.disk
    ensures res == FR_OK || res == FR_DISK_ERR
    ensures res == FR_DISK_ERR ==> !fs.disk.healthy || !synced
    ensures !old(fs.wflag) ==> res == if synced then FR_OK else FR_DISK_ERR
    ensures fs.disk.dead == fs.volbase + 1 ==> !written
    ensures fs.disk.healthy ==> !fs.wflag
    ensures !(fs.fatType == FAT32 && old(fs.fsiFlag) == 1) ==> fs.Valid() && fs.fsiFlag == old(fs.fsiFlag)
    ensures fs.fatType == FAT32 && old(fs.fsiFlag) == 1 && res == FR_OK ==> fs.fsiFlag == 0
    ensures fs.fatType == FAT32 && old(fs.fsiFlag) == 1 && fs.disk.healthy ==>
              && fs.fsiFlag == 0 && written
              && fs.disk.Valid() && fs.volbase + 1 < |fs.disk.sectors| && fs.FatEnd() <= |fs.disk.sectors|
              && fs.disk.sectors[fs.volbase + 1] == FsInfoBytes(fs.freeClst, fs.lastClst)
              && (RawFat(fs.disk.sectors, fs.fatbase, fs.fsize) == old(fs.raw) <==>
                    fs.volbase + 1 < fs.fatbase || old(fs.raw)[..512] == FsInfoBytes(fs.freeClst, fs.lastClst))
              && (fs.volbase + 1 < fs.fatbase ==> fs.Valid())
  {
    hide Volume.Valid, FsInfoBytes, RawFat;
    written := false;
    res := fs.SyncWindow();
    if res == FR_OK {
      if fs.fatType == FAT32 && fs.fsiFlag == 1 {
        RawClean(fs);
        ghost var sectors := fs.disk.sectors;
        written := WriteFsInfo(fs);
        if written {
          FatKeptExactly(sectors, fs.disk.sectors, fs.fatbase, fs.fsize, fs.volbase + 1, FsInfoBytes(fs.freeClst, fs.lastClst));
        }
      }
      if !synced { res := FR_DISK_ERR; }
    }
  }

  /** With a clean window the device alone holds the FAT. */
  lemma RawClean(fs: Volume)
    requires fs.Valid() && !fs.wflag
    ensures fs.raw == RawFat(fs.disk.sectors, fs.fatbase, fs.fsize) && 0 < fs.fsize
    ensures fs.volbase < fs.fatbase && fs.FatEnd() <= |fs.disk.sectors|
    ensures forall s :: 0 <= s < |fs.disk.sectors| ==> |fs.disk.sectors[s]| == 512
  {
  }

  /** Writing data to sector w keeps the FAT exactly if w lies before it or is its first sector and holds data already. */
  lemma FatKeptExactly(a: seq<Sector>, b: seq<Sector>, base: nat, size: nat, w: nat, data: Sector)
    requires 0 < size && base + size <= |a| && w <= base && SameOutside(a, b, w, w + 1) && b[w] == data && |data| == 512
    requires (forall s :: 0 <= s < |a| ==> |a[s]| == 512) && forall s :: 0 <= s < |b| ==> |b[s]| == 512
    ensures var raw := RawFat(a, base, size);
      RawFat(b, base, size) == raw <==> w < base || raw[..512] == data
  {
    var raw, raw' := RawFat(a, base, size), RawFat(b, base, size);
    if w == base {
      assert raw'[..512] == data;
      if raw[..512] == data {
        forall i | 0 <= i < 512 * size ensures raw'[i] == raw[i] {
          if i < 512 {
            assert raw[i] == raw[..512][i] && raw'[i] == raw'[..512][i];
          }
        }
      }
    } else {
      assert raw' == raw;
    }
  }

  /** The smallest number of entries of a FAT32, and the sectors they take. */
  const MIN_ENTRIES: nat := 0xFFF8
  const MIN_FAT: nat := 512

  /** A device that cannot write the FSINFO sector: sync_fs reports success and takes FSINFO for saved. */
  method IgnoredFailure() returns (fs: Volume, res: FResult, ghost written: bool)
    ensures res == FR_OK && !written && fs.fatType == FAT32 && fs.fsiFlag == 0
  {
    hide FsInfoBytes, Volume.Valid;
    var blank: Sector := seq(512, _ => 0);
    var image := seq(2 + MIN_FAT + MIN_ENTRIES - 2, _ => blank);
    var disk := new Disk(image, false, 1);
    fs := new Volume(FAT32, 1, 1, MIN_ENTRIES, MIN_FAT, 0, 2, 2 + MIN_FAT, disk, 2, MIN_ENTRIES - 2, 1);
    res, written := SyncFs(fs, true);
  }

  /** A FAT32 volume with one reserved sector and every cluster a chain, in sync but for its FSINFO: sync_fs reports success,
      entry 0 is the signature, and the cluster that was a chain is free. */
  method OneReservedSector() returns (fs: Volume, res: FResult)
    ensures res == FR_OK && fs.volbase + 1 == fs.fatbase && fs.disk.Valid() && fs.FatEnd() <= |fs.disk.sectors|
    ensures fs.fatType == FAT32 && fs.nFatent == |fs.fat| == MIN_ENTRIES && fs.fsize == MIN_FAT
    ensures fs.fat[0] == 0xFFF_FFFF && fs.fat[2] == 0xFFF_FFFF
    ensures var raw := RawFat(fs.disk.sectors, fs.fatbase, fs.fsize);
      Entry(FAT32, raw, 0) == 0x0161_5252 && Entry(FAT32, raw, 1) == 0 && Entry(FAT32, raw, 2) == 0
  {
    hide FsInfoBytes, Volume.Valid;
    var blank, full: Sector := seq(512, _ => 0), seq(512, _ => 255);
    var image := [blank] + seq(MIN_FAT, _ => full) + seq(MIN_ENTRIES - 2, _ => blank);
    var disk := new Disk(image, true, |image|);
    fs := new Volume(FAT32, 1, 1, MIN_ENTRIES, MIN_FAT, 0, 1, 1 + MIN_FAT, disk, 2, 0, 1);
    AllOnes(fs.raw);
    ghost var written;
    res, written := SyncFs(fs, true);
    ghost var raw := RawFat(fs.disk.sectors, fs.fatbase, fs.fsize);
    assert raw[..512] == FsInfoBytes(0, 2);
    FsInfoAsFat(raw, 0, 2, 0);
    FsInfoAsFat(raw, 0, 2, 1);
    FsInfoAsFat(raw, 0, 2, 2);
  }

  lemma AllOnes(raw: seq<Byte>)
    requires |raw| >= 512 && forall i :: 0 <= i < 512 ==> raw[i] == 255
    ensures Entry(FAT32, raw, 0) == Entry(FAT32, raw, 2) == 0xFFF_FFFF
  {
  }

  lemma FsInfoOffFat(fs: Volume, a: seq<Sector>, b: seq<Sector>)
    requires fs.volbase + 1 < fs.fatbase && fs.fatbase + fs.fsize <= |a|
    requires SameOutside(a, b, fs.volbase + 1, fs.volbase + 2)
    requires forall s :: 0 <= s < |a| ==> |a[s]| == 512
    requires forall s :: 0 <= s < |b| ==> |b[s]| == 512
    ensures RawFat(a, fs.fatbase, fs.fsize) == RawFat(b, fs.fatbase, fs.fsize)
  {
  }

  lemma RestOffFat(fs: Volume, rest: seq<Sector>, a: seq<Sector>, b: seq<Sector>, sectors: seq<Sector>)
    requires SameOutside(rest, a, fs.fatbase, fs.FatEnd()) && SameOutside(a, b, fs.volbase + 1, fs.volbase + 2) && |sectors| == |rest|
    requires forall s :: 0 <= s < |rest| ==> |rest[s]| == 512 && |sectors[s]| == 512
    requires fs.volbase + 1 < |rest| && b[fs.volbase + 1] == sectors[fs.volbase + 1]
    ensures SameOutside(Spliced(rest, sectors, fs.volbase + 1, fs.volbase + 2), b, fs.fatbase, fs.FatEnd())
  {
  }

  lemma TwinsOffFat(fs: Volume, a: seq<Sector>, b: seq<Sector>)
    requires fs.volbase + 1 < fs.fatbase && SameOutside(a, b, fs.volbase + 1, fs.volbase + 2)
    ensures fs.nFats == 2 && fs.fatbase + 2 * fs.fsize <= |a| && Twins(a, fs.fatbase, fs.fsize, -1) ==>
              Twins(b, fs.fatbase, fs.fsize, -1)
  {
  }
}
