/** A mounted volume: the one-sector write-back window and the FAT entries read and written through it. */
module FatVolume {
  import opened Bytes
  import opened Device
  import opened FatCodec
  import opened FileLayout

  /** The bytes of the FAT that occupies size sectors from base. */
  ghost function RawFat(img: seq<Sector>, base: nat, size: nat): (raw: seq<Byte>)
    requires base + size <= |img|
    requires forall s :: 0 <= s < |img| ==> |img[s]| == 512
    ensures |raw| == 512 * size
  {
    seq(512 * size, o requires 0 <= o < 512 * size => img[base + o / 512][o % 512])
  }

  /** The cluster map: entry c of the first n entries. */
  ghost function FatOf(t: FatType, raw: seq<Byte>, n: nat): (fat: seq<nat>)
    requires n > 0 && Fits(t, raw, n - 1)
    ensures |fat| == n
  {
    seq(n, c requires 0 <= c < n => Entry(t, raw, c))
  }

  lemma RawFatFrame(a: seq<Sector>, b: seq<Sector>, base: nat, size: nat, hi: nat)
    requires base + size <= |a|
    requires forall s :: 0 <= s < |a| ==> |a[s]| == 512
    requires forall s :: 0 <= s < |b| ==> |b[s]| == 512
    requires SameOutside(a, b, base + size, hi)
    ensures |b| == |a| && RawFat(a, base, size) == RawFat(b, base, size)
  {
  }

  /** An update of one entry of the raw FAT is an update of one key of the cluster map. */
  lemma FatOfSet(t: FatType, raw: seq<Byte>, n: nat, c: nat, val: nat)
    requires 0 <= c < n && Fits(t, raw, n - 1)
    ensures Fits(t, raw, c) && FatOf(t, SetEntry(t, raw, c, val), n) == FatOf(t, raw, n)[c := val % Modulus(t)]
  {
    hide Entry, SetEntry;
    var r := SetEntry(t, raw, c, val);
    forall d | 0 <= d < n
      ensures Entry(t, r, d) == if d == c then val % Modulus(t) else Entry(t, raw, d)
    {
      if d == c {
        EntryAfterSet(t, raw, c, val);
      } else {
        EntryElsewhere(t, raw, c, d, val);
      }
    }
  }

  /** Changing a byte of the sector that holds byte o of the FAT changes exactly that byte of the raw FAT. */
  lemma RawFatPatch(img: seq<Sector>, base: nat, size: nat, o: nat, data: Sector, v: Byte)
    requires base + size <= |img| && o < 512 * size
    requires forall s :: 0 <= s < |img| ==> |img[s]| == 512
    requires data == img[base + o / 512][o % 512 := v]
    ensures RawFat(img[base + o / 512 := data], base, size) == RawFat(img, base, size)[o := v]
  {
  }

  /** Sector s of the first FAT is repeated size sectors later, but perhaps for one sector. */
  ghost predicate Twins(sectors: seq<Sector>, base: nat, size: nat, except: int)
    requires base + 2 * size <= |sectors|
  {
    forall s :: base <= s < base + size && s != except ==> sectors[s + size] == sectors[s]
  }

  /** Writing a first-FAT sector and then its twin leaves no exception. */
  lemma TwinsFlushed(a: seq<Sector>, base: nat, size: nat, w: nat, data: Sector)
    requires base + 2 * size <= |a| && w < |a| && !(base + size <= w < base + 2 * size)
    requires Twins(a, base, size, w)
    ensures Twins(if base <= w < base + size then a[w := data][w + size := data] else a[w := data], base, size, -1)
  {
  }

  /** Equal everywhere but in sector w and in the sectors lo..hi. */
  ghost predicate SameBut(a: seq<Sector>, b: seq<Sector>, w: nat, lo: nat, hi: nat) {
    |a| == |b| && forall s :: 0 <= s < |a| && s != w && !(lo <= s < hi) ==> a[s] == b[s]
  }

  lemma SameButOne(a: seq<Sector>, b: seq<Sector>, w: nat, lo: nat, hi: nat)
    requires SameOutside(a, b, w, w + 1)
    ensures SameBut(a, b, w, lo, hi)
  {
  }

  lemma SameButTwo(a: seq<Sector>, b: seq<Sector>, c: seq<Sector>, w: nat, x: nat, lo: nat, hi: nat)
    requires SameBut(a, b, w, lo, hi) && SameOutside(b, c, x, x + 1) && lo <= x < hi && w != x
    ensures SameBut(a, c, w, lo, hi) && (w < |a| && !(lo <= w < hi) ==> c[w] == b[w])
  {
  }

  lemma HoldsToo(bytes: seq<Byte>, at: nat, a: seq<Sector>, b: seq<Sector>, lba: nat, n: nat)
    requires at + 512 * n <= |bytes| && lba + n <= |a| == |b|
    requires forall s :: 0 <= s < |a| ==> |a[s]| == 512 && |b[s]| == 512
    requires Holds(bytes, at, a, lba, n)
    requires forall s :: lba <= s < lba + n ==> a[s] == b[s]
    ensures Holds(bytes, at, b, lba, n)
  {
  }

  /** a with the sectors lo..hi of b. */
  ghost function Spliced(a: seq<Sector>, b: seq<Sector>, lo: nat, hi: nat): (r: seq<Sector>)
    requires |a| == |b|
    requires forall s :: 0 <= s < |a| ==> |a[s]| == 512 && |b[s]| == 512
    ensures SameOutside(a, r, lo, hi)
    ensures forall s :: 0 <= s < |r| ==> |r[s]| == 512
    ensures forall s :: lo <= s < hi && s < |r| ==> r[s] == b[s]
  {
    seq(|a|, s requires 0 <= s < |a| => if lo <= s < hi then b[s] else a[s])
  }

  lemma FatAreaKept(a: seq<Sector>, b: seq<Sector>, base: nat, size: nat, lo: nat, hi: nat)
    requires SameOutside(a, b, lo, hi) && base + size <= lo && base + size <= |a|
    requires forall s :: 0 <= s < |a| ==> |a[s]| == 512
    requires forall s :: 0 <= s < |b| ==> |b[s]| == 512
    ensures RawFat(a, base, size) == RawFat(b, base, size)
  {
  }

  class Volume {
    const fatType: FatType
    const nFats: nat
    const csize: nat
    const nFatent: nat
    const fsize: nat
    const volbase: nat
    const fatbase: nat
    const database: nat
    const disk: Disk
    const win: array<Byte>

    var winsect: nat
    var wflag: bool
    var lastClst: nat
    var freeClst: nat
    var fsiFlag: nat

    /** The second FAT was a copy of the first when the volume was mounted. */
    ghost const mirrored: bool

    /** The first FAT, byte by byte, as the window and the device hold it together. */
    ghost var raw: seq<Byte>

    /** The cluster map the raw FAT encodes. */
    ghost var fat: seq<nat>

    /** The sectors outside the FAT area, as the window and the device hold them together. */
    ghost var rest: seq<Sector>

    /** A volume whose geometry has passed mount_volume's checks; nothing is in the window yet. */
    constructor (fatType: FatType, nFats: nat, csize: nat, nFatent: nat, fsize: nat,
                 volbase: nat, fatbase: nat, database: nat, disk: Disk, lastClst: nat, freeClst: nat, fsiFlag: nat)
      requires (nFats == 1 || nFats == 2) && IsClusterSize(csize)
      requires IsSubType(fatType, nFatent - 2)
      requires EntryOfs(fatType, nFatent - 1) + EntryLen(fatType) <= 512 * fsize
      requires volbase < fatbase && fatbase + fsize + (if nFats == 2 then fsize else 0) <= database
      requires fatType != FAT32 ==> fatbase + fsize + (if nFats == 2 then fsize else 0) < database
      requires disk.Valid() && database + csize * (nFatent - 2) <= |disk.sectors| < DWORD - 1
      ensures Valid() && fresh(win) && this.disk == disk && !wflag
      ensures this.fatType == fatType && this.nFats == nFats && this.csize == csize && this.nFatent == nFatent
      ensures this.fsize == fsize && this.volbase == volbase && this.fatbase == fatbase && this.database == database
      ensures this.lastClst == lastClst && this.freeClst == freeClst && this.fsiFlag == fsiFlag
      ensures raw == RawFat(disk.sectors, fatbase, fsize) && rest == disk.sectors
      ensures fat == FatOf(fatType, raw, nFatent)
      ensures mirrored <==> nFats == 2 && Twins(disk.sectors, fatbase, fsize, -1)
    {
      hide RawFat, FatOf, EntryOfs, EntryLen;
      this.fatType, this.nFats, this.csize, this.nFatent := fatType, nFats, csize, nFatent;
      this.fsize, this.volbase, this.fatbase, this.database := fsize, volbase, fatbase, database;
      this.disk := disk;
      win := new Byte[512](_ => 0);
      winsect, wflag := DWORD - 1, false;
      this.lastClst, this.freeClst, this.fsiFlag := lastClst, freeClst, fsiFlag;
      mirrored := nFats == 2 && Twins(disk.sectors, fatbase, fsize, -1);
      raw, rest := RawFat(disk.sectors, fatbase, fsize), disk.sectors;
      fat := FatOf(fatType, RawFat(disk.sectors, fatbase, fsize), nFatent);
    }

    /** The end of the FAT area: one or two copies of fsize sectors. */
    function FatEnd(): nat {
      fatbase + fsize + if nFats == 2 then fsize else 0
    }

    function DataEnd(): (end: nat)
      requires 2 <= nFatent
      ensures database <= end
    {
      database + csize * (nFatent - 2)
    }

    /** What mount_volume has checked of the geometry. */
    ghost predicate Layout() {
      && win.Length == 512
      && (nFats == 1 || nFats == 2)
      && IsClusterSize(csize)
      && IsSubType(fatType, nFatent - 2)
      && EntryOfs(fatType, nFatent - 1) + EntryLen(fatType) <= 512 * fsize
      && volbase < fatbase
      && FatEnd() <= database && (fatType != FAT32 ==> FatEnd() < database)
      && DataEnd() < DWORD
      && (mirrored ==> nFats == 2)
    }

    /** The sectors as the module sees them: the window stands for its sector. */
    ghost function Image(): (img: seq<Sector>)
      requires disk.Valid() && win.Length == 512
      reads this`winsect, win, disk
      ensures |img| == |disk.sectors|
      ensures forall s :: 0 <= s < |img| ==> |img[s]| == 512
    {
      if winsect < |disk.sectors| then disk.sectors[winsect := win[..]] else disk.sectors
    }

    ghost predicate Shape()
      reads this`winsect, this`wflag, win, disk
    {
      && Layout()
      && disk.Valid()
      && DataEnd() <= |disk.sectors| < DWORD - 1
      && (winsect < |disk.sectors| || (winsect == DWORD - 1 && !wflag))
      && (!wflag && winsect < |disk.sectors| ==> disk.sectors[winsect] == win[..])
      && !(fatbase + fsize <= winsect < FatEnd())
      && (mirrored && disk.healthy ==> Twins(disk.sectors, fatbase, fsize, if wflag then winsect else -1))
    }

    ghost predicate Valid()
      reads this`winsect, this`wflag, this`raw, this`fat, this`rest, win, disk
      ensures Valid() ==> disk.Valid() && |fat| == nFatent && |raw| == 512 * fsize && |rest| == |disk.sectors|
      ensures Valid() ==> forall s :: 0 <= s < |rest| ==> |rest[s]| == 512
      ensures Valid() ==> 0 < fatbase && 3 <= nFatent && nFatent + 9 <= Modulus(fatType) && win.Length == 512 && 0 < csize <= 128
      ensures Valid() ==> fatbase + fsize <= FatEnd() <= database <= DataEnd() <= |disk.sectors| < DWORD - 1
    {
      && Shape()
      && raw == RawFat(Image(), fatbase, fsize)
      && fat == FatOf(fatType, raw, nFatent)
      && SameOutside(rest, Image(), fatbase, FatEnd())
      && (forall s :: 0 <= s < |rest| ==> |rest[s]| == 512)
    }

    /** The window has not moved, or shows a sector of the first FAT, or shows nothing. */
    ghost predicate Near(was: nat, now: nat) {
      now == was || fatbase <= now < fatbase + fsize || now == DWORD - 1
    }

    /** The window shows a sector of the first FAT. */
    ghost predicate OnFat()
      reads this`winsect
    {
      fatbase <= winsect < fatbase + fsize
    }

    /** With two FATs, once the window is clean the second is a copy of the first. */
    lemma SecondFatIsCopy()
      requires Valid() && mirrored && disk.healthy && !wflag
      ensures fatbase + 2 * fsize <= |disk.sectors|
      ensures disk.sectors[fatbase + fsize..fatbase + 2 * fsize] == disk.sectors[fatbase..fatbase + fsize]
    {
    }

    /** Stores the window into its sector and, from the first FAT, into the twin sector; a failure of the second is not noticed. */
    method WriteBack() returns (ok: bool)
      requires Layout() && disk.Valid() && winsect < |disk.sectors| && FatEnd() <= |disk.sectors| < DWORD
      requires !(fatbase + fsize <= winsect < FatEnd())
      modifies disk
      ensures disk.Valid() && |disk.sectors| == |old(disk.sectors)|
      ensures ok ==> disk.sectors[winsect] == win[..]
      ensures disk.healthy ==> ok
      ensures SameBut(old(disk.sectors), disk.sectors, winsect, fatbase + fsize, FatEnd())
      ensures nFats == 2 && disk.healthy && Twins(old(disk.sectors), fatbase, fsize, winsect)
              ==> Twins(disk.sectors, fatbase, fsize, -1)
    {
      hide Holds, IsClusterSize, Twins, DataEnd, SameBut, SameOutside;
      ghost var before := disk.sectors;
      if nFats == 2 && Twins(before, fatbase, fsize, winsect) {
        TwinsFlushed(disk.sectors, fatbase, fsize, winsect, win[..]);
      }
      ok := disk.Write(win[..], winsect, 1);
      SameButOne(before, disk.sectors, winsect, fatbase + fsize, FatEnd());
      if ok {
        if Unsigned(winsect - fatbase) < fsize {
          if nFats == 2 {
            ghost var between := disk.sectors;
            var _ := disk.Write(win[..], winsect + fsize, 1);
            SameButTwo(before, between, disk.sectors, winsect, winsect + fsize, fatbase + fsize, FatEnd());
          }
        }
      }
    }

    /** Flushes a dirty window: nothing is lost, and after success the device alone holds everything. */
    method SyncWindow() returns (res: FResult)
      requires Valid()
      modifies this`wflag, disk
      ensures Valid()
      ensures res == FR_OK || res == FR_DISK_ERR
      ensures res == FR_OK ==> !wflag
      ensures res == FR_DISK_ERR ==> !disk.healthy && wflag == old(wflag)
      ensures !old(wflag) ==> res == FR_OK && disk.sectors == old(disk.sectors)
    {
      hide RawFat, FatOf, Twins, DataEnd, Holds, IsClusterSize;
      res := FR_OK;
      if wflag {
        var ok := WriteBack();
        if ok {
          wflag := false;
        } else {
          res := FR_DISK_ERR;
        }
      }
      RawFatFrame(old(Image()), Image(), fatbase, fsize, FatEnd());
    }

    /** Shows sector sect in the window, after flushing it if it was dirty. */
    method MoveWindow(sect: nat) returns (res: FResult)
      requires Valid()
      requires sect < DWORD && !(fatbase + fsize <= sect < FatEnd())
      modifies this`winsect, this`wflag, win, disk
      ensures Valid()
      ensures res == FR_OK || res == FR_DISK_ERR
      ensures res == FR_OK ==> winsect == sect
      ensures res == FR_DISK_ERR ==> (disk.healthy ==> sect >= |disk.sectors|) && (winsect == old(winsect) || winsect == DWORD - 1)
      ensures sect == old(winsect) ==> unchanged(this) && unchanged(win) && unchanged(disk)
    {
      hide RawFat, FatOf, Twins, DataEnd, IsClusterSize;
      res := FR_OK;
      if sect != winsect {
        res := SyncWindow();
        if res == FR_OK {
          ghost var img := Image();
          var at := sect;
          var ok := disk.Read(win, 0, sect, 1);
          if !ok {
            at := DWORD - 1;
            res := FR_DISK_ERR;
          }
          winsect := at;
          assert ok ==> win[..] == win[0..512];
          assert Image() == img;
        }
      }
    }

    /** Byte o of the FAT, once the window shows its sector. */
    lemma WindowByte(o: nat)
      requires Valid() && o < 512 * fsize && winsect == fatbase + o / 512
      ensures raw[o] == win[o % 512]
    {
      assert Image()[fatbase + o / 512] == win[..];
    }

    lemma WindowWord(o: nat)
      requires Valid() && o + 1 < 512 * fsize && winsect == fatbase + o / 512 && o % 512 < 511
      ensures LdWord(win[..], o % 512) == LdWord(raw, o)
    {
      hide RawFat, Valid;
      WindowByte(o);
      WindowByte(o + 1);
    }

    lemma FatAt(c: nat)
      requires Valid() && c < nFatent
      ensures Fits(fatType, raw, c) && fat[c] == Entry(fatType, raw, c)
    {
      hide RawFat;
    }

    /** Changes byte o of the FAT in the window. */
    method PatchByte(o: nat, v: Byte)
      requires Valid() && o < 512 * fsize && winsect == fatbase + o / 512
      modifies this`wflag, this`raw, this`fat, win
      ensures Valid() && wflag
      ensures raw == old(raw)[o := v]
    {
      hide RawFat, FatOf, DataEnd, IsClusterSize;
      RawFatPatch(Image(), fatbase, fsize, o, win[..][o % 512 := v], v);
      win[o % 512] := v;
      wflag := true;
      assert Image() == old(Image())[winsect := win[..]];
      raw := raw[o := v];
      fat := FatOf(fatType, raw, nFatent);
    }

    /** st_word into the window at the sector's copy of byte o. */
    method PatchWord(o: nat, v: nat)
      requires Valid() && o + 1 < 512 * fsize && winsect == fatbase + o / 512 && o % 512 < 511
      modifies this`wflag, this`raw, this`fat, win
      ensures Valid() && wflag
      ensures raw == StWord(old(raw), o, v)
    {
      hide Valid;
      PatchByte(o, v % 256);
      PatchByte(o + 1, v / 256 % 256);
    }

    /** get_fat's FAT12 case: the two bytes of the entry may lie in two sectors. */
    method GetFat12(clst: nat) returns (val: nat)
      requires Valid() && fatType == FAT12 && 2 <= clst < nFatent
      modifies this`winsect, this`wflag, win, disk
      ensures Valid() && Near(old(winsect), winsect)
      ensures val == if val == DISK_ERROR then DISK_ERROR else fat[clst]
      ensures disk.healthy ==> val != DISK_ERROR
    {
      hide Valid;
      FatAt(clst);
      val := DISK_ERROR;
      var bc := clst + clst / 2;
      var res := MoveWindow(fatbase + bc / 512);
      if res != FR_OK { return; }
      WindowByte(bc);
      var wc: nat := win[bc % 512];
      bc := bc + 1;
      res := MoveWindow(fatbase + bc / 512);
      if res != FR_OK { return; }
      WindowByte(bc);
      wc := wc + 256 * (win[bc % 512] as int);
      assert wc == LdWord(raw, clst + clst / 2);
      val := if clst % 2 == 1 then wc / 16 else wc % 0x1000;
    }

    method GetFat16(clst: nat) returns (val: nat)
      requires Valid() && fatType == FAT16 && 2 <= clst < nFatent
      modifies this`winsect, this`wflag, win, disk
      ensures Valid() && Near(old(winsect), winsect)
      ensures val == if val == DISK_ERROR then DISK_ERROR else fat[clst]
      ensures disk.healthy ==> val != DISK_ERROR
    {
      hide Valid;
      FatAt(clst);
      val := DISK_ERROR;
      var res := MoveWindow(fatbase + clst / 256);
      if res != FR_OK { return; }
      WindowWord(2 * clst);
      val := LdWord(win[..], clst * 2 % 512);
    }

    method GetFat32(clst: nat) returns (val: nat)
      requires Valid() && fatType == FAT32 && 2 <= clst < nFatent
      modifies this`winsect, this`wflag, win, disk
      ensures Valid() && Near(old(winsect), winsect)
      ensures val == if val == DISK_ERROR then DISK_ERROR else fat[clst]
      ensures disk.healthy ==> val != DISK_ERROR
    {
      hide Valid;
      FatAt(clst);
      val := DISK_ERROR;
      var res := MoveWindow(fatbase + clst / 128);
      if res != FR_OK { return; }
      WindowWord(4 * clst);
      WindowWord(4 * clst + 2);
      val := LdDword(win[..], clst * 4 % 512) % 0x1000_0000;
    }

    /** get_fat: the entry of clst, 1 outside 2..nFatent, DISK_ERROR after a failed request. */
    method GetFat(clst: nat) returns (val: nat)
      requires Valid()
      modifies this`winsect, this`wflag, win, disk
      ensures Valid() && Near(old(winsect), winsect)
      ensures val != DISK_ERROR ==> val == if 2 <= clst < nFatent then fat[clst] else 1
      ensures disk.healthy ==> val != DISK_ERROR
    {
      hide Valid;
      if clst < 2 || clst >= nFatent {
        return 1;
      }
      match fatType
      case FAT12 =>
        val := GetFat12(clst);
      case FAT16 =>
        val := GetFat16(clst);
      case FAT32 =>
        val := GetFat32(clst);
    }

    /** put_fat's FAT12 case; if the second sector cannot be reached, only the first byte has changed. */
    method PutFat12(clst: nat, val: nat) returns (res: FResult)
      requires Valid() && fatType == FAT12 && 2 <= clst < nFatent
      modifies this`winsect, this`wflag, this`raw, this`fat, win, disk
      ensures Valid() && Near(old(winsect), winsect)
      ensures res == FR_OK || (res == FR_DISK_ERR && !disk.healthy)
      ensures Fits(FAT12, old(raw), clst)
      ensures res == FR_OK ==> raw == SetEntry(FAT12, old(raw), clst, val)
      ensures res != FR_OK ==> raw == old(raw) || raw == SetFirst12(old(raw), clst, val)
      ensures res == FR_OK ==> OnFat()
    {
      hide Valid, FirstByte12, SecondByte12;
      FatAt(clst);
      var bc := clst + clst / 2;
      res := MoveWindow(fatbase + bc / 512);
      if res != FR_OK { return; }
      WindowByte(bc);
      PatchByte(bc, FirstByte12(win[bc % 512], clst, val));
      bc := bc + 1;
      res := MoveWindow(fatbase + bc / 512);
      if res != FR_OK { return; }
      WindowByte(bc);
      PatchByte(bc, SecondByte12(win[bc % 512], clst, val));
    }

    method PutFat16(clst: nat, val: nat) returns (res: FResult)
      requires Valid() && fatType == FAT16 && 2 <= clst < nFatent
      modifies this`winsect, this`wflag, this`raw, this`fat, win, disk
      ensures Valid() && Near(old(winsect), winsect)
      ensures res == FR_OK || (res == FR_DISK_ERR && !disk.healthy)
      ensures Fits(FAT16, old(raw), clst)
      ensures raw == if res == FR_OK then SetEntry(FAT16, old(raw), clst, val) else old(raw)
      ensures res == FR_OK ==> OnFat()
    {
      hide Valid;
      FatAt(clst);
      res := MoveWindow(fatbase + clst / 256);
      if res != FR_OK { return; }
      PatchWord(2 * clst, val);
    }

    method PutFat32(clst: nat, val: nat) returns (res: FResult)
      requires Valid() && fatType == FAT32 && 2 <= clst < nFatent
      modifies this`winsect, this`wflag, this`raw, this`fat, win, disk
      ensures Valid() && Near(old(winsect), winsect)
      ensures res == FR_OK || (res == FR_DISK_ERR && !disk.healthy)
      ensures Fits(FAT32, old(raw), clst)
      ensures raw == if res == FR_OK then SetEntry(FAT32, old(raw), clst, val) else old(raw)
      ensures res == FR_OK ==> OnFat()
    {
      hide Valid;
      FatAt(clst);
      res := MoveWindow(fatbase + clst / 128);
      if res != FR_OK { return; }
      WindowWord(4 * clst);
      WindowWord(4 * clst + 2);
      assert LdDword(win[..], clst * 4 % 512) == LdDword(raw, 4 * clst);
      var v := NewDword(LdDword(win[..], clst * 4 % 512), val);
      hide LdDword, LdWord, StWord, NewDword;
      PatchWord(4 * clst, v);
      PatchWord(4 * clst + 2, v / 0x1_0000);
    }

    /** put_fat: entry clst becomes val cut to the entry width; nothing changes outside 2..nFatent. */
    method PutFat(clst: nat, val: nat) returns (res: FResult)
      requires Valid()
      modifies this`winsect, this`wflag, this`raw, this`fat, win, disk
      ensures Valid() && Near(old(winsect), winsect)
      ensures res == FR_OK <==> 2 <= clst < nFatent && res != FR_DISK_ERR
      ensures res == FR_INT_ERR <==> !(2 <= clst < nFatent)
      ensures res == FR_DISK_ERR ==> !disk.healthy && (fatType != FAT12 ==> fat == old(fat))
      ensures res == FR_OK ==> Fits(fatType, old(raw), clst) && raw == SetEntry(fatType, old(raw), clst, val)
      ensures res == FR_OK ==> fat == old(fat)[clst := val % Modulus(fatType)]
      ensures res == FR_INT_ERR ==> unchanged(this) && unchanged(win) && unchanged(disk)
      ensures res == FR_OK ==> OnFat()
    {
      hide RawFat, FatOf, Shape, SetEntry;
      res := FR_INT_ERR;
      if 2 <= clst < nFatent {
        FatAt(clst);
        FatFitsLast();
        FatOfSet(fatType, raw, nFatent, clst, val);
        match fatType {
          case FAT12 =>
            res := PutFat12(clst, val);
          case FAT16 =>
            res := PutFat16(clst, val);
          case FAT32 =>
            res := PutFat32(clst, val);
        }
      }
    }

    lemma FatFitsLast()
      requires Valid()
      ensures Fits(fatType, raw, nFatent - 1)
    {
      FatAt(nFatent - 1);
    }

    /** clst2sect: the first sector of a cluster, 0 for a number out of range. */
    method Clst2Sect(clst: nat) returns (sect: nat)
      requires Valid() && clst < DWORD
      ensures sect == if 2 <= clst < nFatent then database + csize * (clst - 2) else 0
    {
      hide Valid;
      var c := Unsigned(clst - 2);
      if c >= nFatent - 2 { return 0; }
      return database + csize * c;
    }

    /** disk_read of data sectors into a caller's buffer, past the window. */
    method ReadData(buf: array<Byte>, at: nat, lba: nat, n: nat) returns (ok: bool)
      requires Valid() && buf != win && at + 512 * n <= buf.Length
      requires database <= lba && !(lba <= winsect < lba + n)
      modifies buf
      ensures Valid()
      ensures ok ==> lba + n <= |rest| && Holds(buf[..], at, rest, lba, n)
      ensures ok && n == 1 ==> buf[at..at + 512] == rest[lba]
      ensures SameAround(old(buf[..]), buf[..], at, at + 512 * n)
      ensures disk.healthy && lba + n <= |rest| ==> ok
    {
      hide RawFat, FatOf, IsClusterSize, DataEnd;
      ok := disk.Read(buf, at, lba, n);
      if ok {
        HoldsToo(buf[..], at, disk.sectors, rest, lba, n);
      }
    }

    /** disk_write of data sectors, past the window. */
    method WriteData(src: seq<Byte>, lba: nat, n: nat) returns (ok: bool)
      requires Valid() && |src| == 512 * n
      requires database <= lba && !(lba <= winsect < lba + n)
      modifies disk, this`rest
      ensures Valid()
      ensures SameOutside(old(rest), rest, lba, lba + n)
      ensures ok ==> lba + n <= |rest| && Holds(src, 0, rest, lba, n)
      ensures ok && n == 1 ==> rest == old(rest)[lba := src]
      ensures disk.healthy && lba + n <= |rest| ==> ok
    {
      hide RawFat, FatOf, IsClusterSize, DataEnd, Holds, Spliced, Twins, SameOutside;
      ghost var was := Image();
      ghost var sectors := disk.sectors;
      ok := disk.Write(src, lba, n);
      ImageOutside(was, sectors, lba, lba + n);
      StillOutside(rest, was, Image(), lba, lba + n, disk.sectors, fatbase, FatEnd());
      FatAreaKept(was, Image(), fatbase, fsize, lba, lba + n);
      TwinsKept(sectors, disk.sectors, lba, lba + n);
      rest := Spliced(rest, disk.sectors, lba, lba + n);
      if ok {
        HoldsToo(src, 0, disk.sectors, rest, lba, n);
        OneHeld(old(rest), rest, lba, n, src);
      }
    }

    lemma OneHeld(a: seq<Sector>, b: seq<Sector>, lba: nat, n: nat, src: seq<Byte>)
      requires SameOutside(a, b, lba, lba + n) && |src| == 512 * n && lba + n <= |b|
      requires (forall s :: 0 <= s < |b| ==> |b[s]| == 512) && Holds(src, 0, b, lba, n)
      ensures n == 1 ==> b == a[lba := src]
    {
      if n == 1 {
        forall i | 0 <= i < 512 ensures b[lba][i] == src[i] {
          assert src[i] == b[lba + i / 512][i % 512];
        }
        assert b[lba] == src;
        assert forall s :: 0 <= s < |b| ==> b[s] == a[lba := src][s];
      }
    }

    /** What changed on the device, away from the window, changed in the image. */
    lemma ImageOutside(was: seq<Sector>, sectors: seq<Sector>, lo: nat, hi: nat)
      requires SameOutside(sectors, disk.sectors, lo, hi) && disk.Valid() && win.Length == 512 && !(lo <= winsect < hi)
      requires was == if winsect < |sectors| then sectors[winsect := win[..]] else sectors
      ensures SameOutside(was, Image(), lo, hi) && forall s :: lo <= s < hi && s < |sectors| ==> Image()[s] == disk.sectors[s]
    {
    }

    lemma StillOutside(rest: seq<Sector>, img: seq<Sector>, img': seq<Sector>, lo: nat, hi: nat, sectors: seq<Sector>, base: nat, end: nat)
      requires SameOutside(rest, img, base, end) && SameOutside(img, img', lo, hi) && |sectors| == |rest| && end <= lo
      requires forall s :: 0 <= s < |rest| ==> |rest[s]| == 512 && |sectors[s]| == 512
      requires forall s :: lo <= s < hi && s < |rest| ==> img'[s] == sectors[s]
      ensures SameOutside(Spliced(rest, sectors, lo, hi), img', base, end)
    {
    }

    lemma TwinsKept(a: seq<Sector>, b: seq<Sector>, lo: nat, hi: nat)
      requires Layout() && SameOutside(a, b, lo, hi) && database <= lo && FatEnd() <= |a|
      ensures forall e: int :: mirrored && Twins(a, fatbase, fsize, e) ==> Twins(b, fatbase, fsize, e)
    {
    }
  }
}
