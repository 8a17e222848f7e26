/** An open file: its cursor, its one-sector cache, and f_read, f_write and f_lseek over them. */
module FatFile {
  import opened Bytes
  import opened Device
  import opened FatCodec
  import opened FatVolume
  import opened FatChain
  import opened FatAlloc
  import opened FileLayout

  /** Only sectors of secs differ. */
  ghost predicate KeptOutside(a: seq<Sector>, b: seq<Sector>, secs: seq<nat>) {
    |a| == |b| && forall s :: 0 <= s < |a| && s !in secs ==> a[s] == b[s]
  }

  lemma KeptSelf(a: seq<Sector>, secs: seq<nat>)
    ensures KeptOutside(a, a, secs)
  {
  }

  lemma KeptThen(a: seq<Sector>, b: seq<Sector>, c: seq<Sector>, secs: seq<nat>)
    requires KeptOutside(a, b, secs) && KeptOutside(b, c, secs)
    ensures KeptOutside(a, c, secs)
  {
  }

  /** The buffer is a copy of sector sect of the file if that is one; every other sector, and that one too when the
      buffer is clean, is on the device. */
  ghost predicate CacheOk(fsec: seq<Sector>, secs: seq<nat>, rest: seq<Sector>, sect: nat, dirty: bool, buf: seq<Byte>) {
    && |fsec| == |secs| && |buf| == 512
    && (forall k :: 0 <= k < |fsec| ==> |fsec[k]| == 512)
    && (forall k :: 0 <= k < |secs| ==> secs[k] < |rest|)
    && (forall k :: 0 <= k < |secs| && (secs[k] != sect || !dirty) ==> fsec[k] == rest[secs[k]])
    && (forall k :: 0 <= k < |secs| && secs[k] == sect ==> buf == fsec[k])
    && (sect in secs || (sect == 0 && !dirty))
  }

  lemma CacheFlushed(fsec: seq<Sector>, secs: seq<nat>, rest: seq<Sector>, sect: nat, buf: seq<Byte>)
    requires CacheOk(fsec, secs, rest, sect, true, buf)
    ensures sect < |rest| && CacheOk(fsec, secs, rest[sect := buf], sect, false, buf)
    ensures KeptOutside(rest, rest[sect := buf], secs)
  {
  }

  lemma CacheLoaded(fsec: seq<Sector>, secs: seq<nat>, rest: seq<Sector>, sect: nat, buf: seq<Byte>, k: nat, buf': seq<Byte>)
    requires CacheOk(fsec, secs, rest, sect, false, buf) && k < |secs| && buf' == rest[secs[k]]
    ensures CacheOk(fsec, secs, rest, secs[k], false, buf')
  {
  }

  /** bytes with the sector-sized piece data put at position at. */
  ghost function Patched(bytes: seq<Byte>, at: nat, data: seq<Byte>): (r: seq<Byte>)
    requires at + |data| <= |bytes|
    ensures |r| == |bytes|
  {
    bytes[..at] + data + bytes[at + |data|..]
  }

  lemma PatchedAround(a: seq<Byte>, b: seq<Byte>, at: nat, data: seq<Byte>, lo: nat, hi: nat)
    requires lo <= at && at + |data| <= hi && at + |data| <= |b| && SameAround(a, b, lo, hi)
    ensures SameAround(a, Patched(b, at, data), lo, hi)
  {
  }

  /** mem_cpy to dst[at..]. */
  method MemCpy(dst: array<Byte>, at: nat, src: seq<Byte>)
    requires at + |src| <= dst.Length
    modifies dst
    ensures dst[..] == Patched(old(dst[..]), at, src)
  {
    forall i | at <= i < at + |src| {
      dst[i] := src[i - at];
    }
  }

  lemma CacheFacts(fsec: seq<Sector>, secs: seq<nat>, rest: seq<Sector>, sect: nat, dirty: bool, buf: seq<Byte>)
    requires CacheOk(fsec, secs, rest, sect, dirty, buf)
    ensures |buf| == 512 && |fsec| == |secs| && (sect == 0 || sect < |rest|)
    ensures forall k :: 0 <= k < |fsec| ==> |fsec[k]| == 512
    ensures dirty ==> sect < |rest|
  {
  }

  /** A direct read of cc sectors, with the dirty sector put in if it is one of them, is what the file holds. */
  lemma DirectRead(fsec: seq<Sector>, secs: seq<nat>, rest: seq<Sector>, sect: nat, dirty: bool, buf: seq<Byte>,
                   k: nat, cc: nat, got: seq<Byte>, at: nat)
    requires CacheOk(fsec, secs, rest, sect, dirty, buf) && Contiguous(secs, k, cc) && cc > 0
    requires forall s :: 0 <= s < |rest| ==> |rest[s]| == 512
    requires at + 512 * cc <= |got| && secs[k] + cc <= |rest| && Holds(got, at, rest, secs[k], cc)
    ensures dirty && secs[k] <= sect < secs[k] + cc ==>
              Holds(Patched(got, at + 512 * (sect - secs[k]), buf), at, fsec, k, cc)
    ensures !(dirty && secs[k] <= sect < secs[k] + cc) ==> Holds(got, at, fsec, k, cc)
  {
    hide CacheOk, Contiguous, Patched, Holds;
    CacheFacts(fsec, secs, rest, sect, dirty, buf);
    RunInside(secs, k, cc);
    var inside := dirty && secs[k] <= sect < secs[k] + cc;
    var d := if inside then at + 512 * (sect - secs[k]) else at;
    forall i | at <= i < at + 512 * cc
      ensures k + (i - at) / 512 < |fsec|
      ensures inside ==> Patched(got, d, buf)[i] == fsec[k + (i - at) / 512][(i - at) % 512]
      ensures !inside ==> got[i] == fsec[k + (i - at) / 512][(i - at) % 512]
    {
      var t, r := (i - at) / 512, (i - at) % 512;
      assert i == at + 512 * t + r;
      HeldByte(got, at, rest, secs[k], cc, t, r);
      DirectByte(fsec, secs, rest, sect, dirty, buf, k, cc, t, r);
      if inside {
        PatchedByte(got, d, buf, i);
        var j := sect - secs[k];
        assert j == t <==> d <= i < d + 512;
      }
    }
    if inside {
      AllHeld(Patched(got, d, buf), at, fsec, k, cc);
    } else {
      AllHeld(got, at, fsec, k, cc);
    }
  }

  lemma AllHeld(bytes: seq<Byte>, at: nat, sectors: seq<Sector>, k: nat, cc: nat)
    requires at + 512 * cc <= |bytes| && k + cc <= |sectors| && forall s :: 0 <= s < |sectors| ==> |sectors[s]| == 512
    requires forall i :: at <= i < at + 512 * cc ==> bytes[i] == sectors[k + (i - at) / 512][(i - at) % 512]
    ensures Holds(bytes, at, sectors, k, cc)
  {
  }

  lemma HeldByte(bytes: seq<Byte>, at: nat, sectors: seq<Sector>, lba: nat, n: nat, t: nat, r: nat)
    requires at + 512 * n <= |bytes| && lba + n <= |sectors| && t < n && r < 512
    requires (forall s :: 0 <= s < |sectors| ==> |sectors[s]| == 512) && Holds(bytes, at, sectors, lba, n)
    ensures bytes[at + 512 * t + r] == sectors[lba + t][r]
  {
    var i := at + 512 * t + r;
    DivUnique(i - at, 512, t, r);
    assert bytes[i] == sectors[lba + (i - at) / 512][(i - at) % 512];
  }

  lemma PatchedByte(bytes: seq<Byte>, at: nat, data: seq<Byte>, i: nat)
    requires at + |data| <= |bytes| && i < |bytes|
    ensures Patched(bytes, at, data)[i] == if at <= i < at + |data| then data[i - at] else bytes[i]
  {
  }

  /** Byte r of sector k + t, which is the t-th of a run. */
  lemma DirectByte(fsec: seq<Sector>, secs: seq<nat>, rest: seq<Sector>, sect: nat, dirty: bool, buf: seq<Byte>,
                   k: nat, cc: nat, t: nat, r: nat)
    requires CacheOk(fsec, secs, rest, sect, dirty, buf) && Contiguous(secs, k, cc) && t < cc && r < 512
    requires forall s :: 0 <= s < |rest| ==> |rest[s]| == 512
    ensures k + t < |fsec| && secs[k] + t < |rest| && |fsec[k + t]| == |buf| == 512
    ensures fsec[k + t][r] == if dirty && sect == secs[k] + t then buf[r] else rest[secs[k] + t][r]
  {
    assert secs[k + t] == secs[k] + t;
  }

  /** Whole sectors read to bytes[at..] are the file's bytes from sector k on. */
  lemma DirectBytes(bytes: seq<Byte>, at: nat, fsec: seq<Sector>, size: nat, k: nat, cc: nat)
    requires 512 * (k + cc) <= size <= 512 * |fsec| && at + 512 * cc <= |bytes|
    requires forall j :: 0 <= j < |fsec| ==> |fsec[j]| == 512
    requires Holds(bytes, at, fsec, k, cc)
    ensures bytes[at..at + 512 * cc] == BytesOf(fsec, size)[512 * k..512 * (k + cc)]
  {
    var c := BytesOf(fsec, size);
    forall i | at <= i < at + 512 * cc
      ensures bytes[i] == c[512 * k + (i - at)]
    {
      assert (512 * k + (i - at)) / 512 == k + (i - at) / 512;
      assert (512 * k + (i - at)) % 512 == (i - at) % 512;
    }
    var got, want := bytes[at..at + 512 * cc], c[512 * k..512 * (k + cc)];
    forall j | 0 <= j < |got|
      ensures got[j] == want[j]
    {
      assert got[j] == bytes[at + j] && want[j] == c[512 * k + ((at + j) - at)];
    }
  }

  lemma PatchedPiece(b: seq<Byte>, at: nat, data: seq<Byte>)
    requires at + |data| <= |b|
    ensures Patched(b, at, data)[at..at + |data|] == data
    ensures SameAround(b, Patched(b, at, data), at, at + |data|)
  {
  }

  // ----- lemmas for f_write -----

  /** Chain c1 continues chain c0 by clusters that were free; no other entry differs. */
  ghost predicate Grown(f0: seq<nat>, f1: seq<nat>, c0: seq<nat>, c1: seq<nat>) {
    && |f1| == |f0| && c0 <= c1
    && (forall c :: 0 <= c < |f0| && c !in c1 ==> f1[c] == f0[c])
    && (forall i :: |c0| <= i < |c1| ==> 2 <= c1[i] < |f0| && f0[c1[i]] == 0)
  }

  lemma GrownNot(f: seq<nat>, c: seq<nat>)
    ensures Grown(f, f, c, c)
  {
  }

  lemma GrownThen(f0: seq<nat>, f1: seq<nat>, f2: seq<nat>, c0: seq<nat>, c1: seq<nat>, c2: seq<nat>)
    requires Grown(f0, f1, c0, c1) && Grown(f1, f2, c1, c2)
    requires c1 == [] || IsChain(f1, c1)
    requires Distinct(c2)
    ensures Grown(f0, f2, c0, c2)
  {
    forall i | |c0| <= i < |c2|
      ensures 2 <= c2[i] < |f0| && f0[c2[i]] == 0
    {
      if i < |c1| {
        assert c2[i] == c1[i];
      } else {
        assert forall j :: 0 <= j < |c1| ==> c1[j] == c2[j] != c2[i];
      }
    }
    forall c | 0 <= c < |f0| && c !in c2
      ensures f2[c] == f0[c]
    {
      assert c !in c1 by { assert forall j :: 0 <= j < |c1| ==> c1[j] == c2[j]; }
    }
  }

  /** The cluster create_chain has appended, or started the chain with, grows it. */
  lemma GrowFacts(fat: seq<nat>, c: seq<nat>, ncl: nat, eoc: nat)
    requires c == [] || IsChain(fat, c)
    requires 2 <= ncl < |fat| <= eoc && fat[ncl] == 0
    ensures var fat' := Taken(fat, if c == [] then 0 else c[|c| - 1], ncl, eoc);
            && IsChain(fat', c + [ncl]) && Grown(fat, fat', c, c + [ncl])
            && FreeCount(fat') == FreeCount(fat) - 1
  {
    if c == [] {
      FreeFromUpdate(fat, 2, ncl, eoc);
    } else {
      ChainStretched(fat, c, ncl, eoc);
      assert c[|c| - 1] in c + [ncl];
    }
    assert ncl == (c + [ncl])[|c|];
  }

  /** Another file's chain stays what it was, and shares nothing with the grown one. */
  lemma OtherChainKept(f0: seq<nat>, f1: seq<nat>, c0: seq<nat>, c1: seq<nat>, t: seq<nat>)
    requires Grown(f0, f1, c0, c1) && IsChain(f0, t) && Disjoint(t, c0)
    ensures IsChain(f1, t) && Disjoint(t, c1)
  {
    forall c | c in t
      ensures c !in c1
    {
      forall i | 0 <= i < |c1|
        ensures c1[i] != c
      {
        if i < |c0| {
          assert c0[i] in c0;
        } else {
          ChainHoldsNoFree(f0, t, c1[i]);
        }
      }
    }
    ChainElsewhere(f0, f1, t);
  }

  /** ... and so does every sector of it. */
  lemma OtherSectorsKept(database: nat, csize: nat, r0: seq<Sector>, r1: seq<Sector>, c1: seq<nat>, t: seq<nat>, j: nat)
    requires csize > 0 && AllClusters(c1) && AllClusters(t) && Disjoint(t, c1)
    requires KeptOutside(r0, r1, Secs(database, csize, c1))
    requires j < csize * |t| && Secs(database, csize, t)[j] < |r0|
    ensures r1[Secs(database, csize, t)[j]] == r0[Secs(database, csize, t)[j]]
  {
    hide Secs;
    forall i | 0 <= i < csize * |c1|
      ensures Secs(database, csize, c1)[i] != Secs(database, csize, t)[j]
    {
      SecsDisjoint(database, csize, t, c1, j, i);
    }
  }

  /** Whatever f_write or f_lseek did to the file of chain c0, now c1: another file still has its chain and all its bytes. */
  lemma OtherFileKept(database: nat, csize: nat, f0: seq<nat>, f1: seq<nat>, r0: seq<Sector>, r1: seq<Sector>,
                      c0: seq<nat>, c1: seq<nat>, t: seq<nat>, size: nat)
    requires Grown(f0, f1, c0, c1) && IsChain(f0, t) && Disjoint(t, c0)
    requires csize > 0 && AllClusters(c1) && AllClusters(t)
    requires KeptOutside(r0, r1, Secs(database, csize, c1))
    requires forall k :: 0 <= k < csize * |t| ==> Secs(database, csize, t)[k] < |r0|
    requires forall s :: 0 <= s < |r0| ==> |r0[s]| == 512 && |r1[s]| == 512
    requires size <= 512 * (csize * |t|)
    ensures IsChain(f1, t) && Disjoint(t, c1)
    ensures BytesOf(OnDevice(r1, Secs(database, csize, t)), size) == BytesOf(OnDevice(r0, Secs(database, csize, t)), size)
  {
    hide Secs, BytesOf, IsChain, Grown, KeptOutside;
    OtherChainKept(f0, f1, c0, c1, t);
    var secs := Secs(database, csize, t);
    SameLength(r0, r1, Secs(database, csize, c1));
    forall k | 0 <= k < |secs|
      ensures r1[secs[k]] == r0[secs[k]]
    {
      OtherSectorsKept(database, csize, r0, r1, c1, t, k);
    }
    assert OnDevice(r1, secs) == OnDevice(r0, secs);
  }

  lemma SameLength(a: seq<Sector>, b: seq<Sector>, secs: seq<nat>)
    requires KeptOutside(a, b, secs)
    ensures |a| == |b|
  {
  }

  /** What the device holds in the sectors of a file. */
  ghost function OnDevice(rest: seq<Sector>, secs: seq<nat>): (r: seq<Sector>)
    requires forall k :: 0 <= k < |secs| ==> secs[k] < |rest|
    ensures |r| == |secs| && forall k :: 0 <= k < |r| ==> r[k] == rest[secs[k]]
  {
    seq(|secs|, k requires 0 <= k < |secs| => rest[secs[k]])
  }

  /** The cache invariant holds for a file grown by sectors the cache does not show. */
  lemma CacheGrown(fsec: seq<Sector>, secs: seq<nat>, rest: seq<Sector>, sect: nat, dirty: bool, buf: seq<Byte>,
                   secs': seq<nat>) returns (fsec': seq<Sector>)
    requires CacheOk(fsec, secs, rest, sect, dirty, buf) && secs <= secs' && Distinct(secs')
    requires forall k :: 0 <= k < |secs'| ==> 0 < secs'[k] < |rest|
    requires forall s :: 0 <= s < |rest| ==> |rest[s]| == 512
    ensures fsec <= fsec' && CacheOk(fsec', secs', rest, sect, dirty, buf)
  {
    fsec' := seq(|secs'|, k requires 0 <= k < |secs'| => if k < |fsec| then fsec[k] else rest[secs'[k]]);
    forall k | 0 <= k < |secs'| && secs'[k] == sect
      ensures buf == fsec'[k]
    {
      var j :| 0 <= j < |secs| && secs[j] == sect;
      assert secs'[j] == sect;
    }
    assert sect in secs ==> sect in secs' by {
      if sect in secs {
        var j :| 0 <= j < |secs| && secs[j] == sect;
        assert secs'[j] == sect;
      }
    }
  }

  lemma CleanSector(fsec: seq<Sector>, secs: seq<nat>, rest: seq<Sector>, sect: nat, buf: seq<Byte>, k: nat)
    requires CacheOk(fsec, secs, rest, sect, false, buf) && k < |secs|
    ensures secs[k] < |rest| && fsec[k] == rest[secs[k]]
  {
  }

  /** The buffer may be changed freely once it is marked dirty. */
  lemma CacheTouched(fsec: seq<Sector>, secs: seq<nat>, rest: seq<Sector>, sect: nat, dirty: bool, buf: seq<Byte>,
                     k: nat, buf': seq<Byte>)
    requires CacheOk(fsec, secs, rest, sect, dirty, buf) && k < |secs| && (sect == secs[k] || !dirty)
    requires |buf'| == 512 && Distinct(secs)
    ensures CacheOk(fsec[k := buf'], secs, rest, secs[k], true, buf')
  {
  }

  lemma OutsideRun(secs: seq<nat>, k: nat, cc: nat, i: nat)
    requires Distinct(secs) && cc > 0 && Contiguous(secs, k, cc) && i < |secs| && !(k <= i < k + cc)
    ensures !(secs[k] <= secs[i] < secs[k] + cc)
  {
    var d := secs[i] as int - secs[k] as int;
    var m := if 0 <= d < cc then k + d else k;
    assert secs[m] == secs[k] + (m - k);
  }

  lemma RunInside(secs: seq<nat>, k: nat, cc: nat)
    requires Contiguous(secs, k, cc) && cc > 0
    ensures k + cc <= |secs| && secs[k + cc - 1] == secs[k] + cc - 1
  {
  }

  /** A direct write of cc sectors, followed by the refill of the buffer if it shows one of them. */
  lemma DirectWritten(fsec: seq<Sector>, secs: seq<nat>, rest: seq<Sector>, sect: nat, buf: seq<Byte>,
                      k: nat, cc: nat, data: seq<Byte>, rest': seq<Sector>, buf': seq<Byte>)
    requires CacheOk(fsec, secs, rest, sect, false, buf) && Contiguous(secs, k, cc) && cc > 0 && Distinct(secs)
    requires |data| == 512 * cc && secs[k] + cc <= |rest'|
    requires forall s :: 0 <= s < |rest'| ==> |rest'[s]| == 512
    requires SameOutside(rest, rest', secs[k], secs[k] + cc) && Holds(data, 0, rest', secs[k], cc)
    requires buf' == if secs[k] <= sect < secs[k] + cc
                     then data[512 * (sect - secs[k])..512 * (sect - secs[k]) + 512] else buf
    ensures CacheOk(PutSectors(fsec, k, cc, data), secs, rest', sect, false, buf')
    ensures KeptOutside(rest, rest', secs)
  {
    var n, base := PutSectors(fsec, k, cc, data), secs[k];
    forall i | 0 <= i < |secs|
      ensures n[i] == rest'[secs[i]]
      ensures secs[i] == sect ==> buf' == n[i]
    {
      if k <= i < k + cc {
        WrittenSector(data, rest', base, cc, i - k);
      } else {
        OutsideRun(secs, k, cc, i);
      }
    }
    forall s | base <= s < base + cc
      ensures s in secs
    {
      assert secs[k + (s - base)] == s;
    }
  }

  lemma WrittenSector(data: seq<Byte>, rest: seq<Sector>, lba: nat, cc: nat, j: nat)
    requires |data| == 512 * cc && lba + cc <= |rest| && j < cc
    requires forall s :: 0 <= s < |rest| ==> |rest[s]| == 512
    requires Holds(data, 0, rest, lba, cc)
    ensures rest[lba + j] == data[512 * j..512 * j + 512]
  {
    var got := rest[lba + j];
    forall i | 0 <= i < 512
      ensures got[i] == data[512 * j + i]
    {
      assert (512 * j + i - 0) / 512 == j && (512 * j + i - 0) % 512 == i;
    }
  }

  class File {
    const fs: Volume
    const readable: bool
    const writable: bool
    const buf: array<Byte>

    var sclust: nat
    var objsize: nat
    var fptr: nat
    var clust: nat
    var sect: nat
    var dirty: bool
    var modified: bool
    var err: FResult

    /** The file's cluster chain, its sectors in file order, and what each of them holds. */
    ghost var chain: seq<nat>
    ghost var secs: seq<nat>
    ghost var fsec: seq<Sector>

    /** A file just opened: the state f_open leaves, with the chain its directory entry names. */
    constructor (fs: Volume, readable: bool, writable: bool, sclust: nat, objsize: nat, ghost chain: seq<nat>)
      requires fs.Valid()
      requires AllClusters(chain) && (chain == [] || IsChain(fs.fat, chain))
      requires sclust == if chain == [] then 0 else chain[0]
      requires objsize <= 512 * (fs.csize * |chain|) && objsize < DWORD
      requires fs.winsect !in Secs(fs.database, fs.csize, chain)
      ensures Valid() && fresh(buf) && this.fs == fs && this.readable == readable && this.writable == writable
      ensures this.chain == chain && this.objsize == objsize && fptr == 0 && err == FR_OK && !dirty
    {
      this.fs, this.readable, this.writable := fs, readable, writable;
      this.sclust, this.objsize, fptr, clust, sect := sclust, objsize, 0, 0, 0;
      dirty, modified, err := false, false, FR_OK;
      buf := new Byte[512](_ => 0);
      this.chain := chain;
      var all := Secs(fs.database, fs.csize, chain);
      secs := all;
      SecsReal(fs, chain);
      fsec := seq(|all|, k requires 0 <= k < |all| && all[k] < |fs.rest| reads fs`rest => fs.rest[all[k]]);
    }

    static lemma SecsReal(fs: Volume, chain: seq<nat>)
      requires fs.Valid() && AllClusters(chain) && (chain == [] || IsChain(fs.fat, chain))
      ensures forall k :: 0 <= k < fs.csize * |chain| ==>
                fs.database <= Secs(fs.database, fs.csize, chain)[k] < |fs.rest|
    {
      forall k | 0 <= k < fs.csize * |chain|
        ensures fs.database <= Secs(fs.database, fs.csize, chain)[k] < |fs.rest|
      {
        SecsInside(fs.database, fs.csize, chain, fs.nFatent, k);
      }
    }

    /** The start cluster is the head of the chain. */
    ghost predicate Rooted()
      reads this`sclust, this`chain
    {
      sclust == if chain == [] then 0 else chain[0]
    }

    /** The chain holds the whole file, and the volume's window is elsewhere. */
    ghost predicate Placed()
      reads this`objsize, this`chain, this`secs, fs`fat, fs`winsect
    {
      && fs.csize > 0
      && AllClusters(chain) && (chain == [] || IsChain(fs.fat, chain))
      && secs == Secs(fs.database, fs.csize, chain)
      && objsize <= 512 * |secs| && objsize < DWORD
      && fs.winsect !in secs
    }

    ghost predicate Cached()
      reads this`sect, this`dirty, this`secs, this`fsec, fs`rest, buf
    {
      CacheOk(fsec, secs, fs.rest, sect, dirty, buf[..])
    }

    /** The current cluster holds byte fptr - 1, and off a sector boundary the cache shows the sector of fptr. */
    ghost predicate CursorAt(p: nat)
      reads this`clust, this`sect, this`chain, this`secs
      requires fs.csize > 0
    {
      && (p > 0 ==> Slot((p - 1) / 512, fs.csize) < |chain| && clust == chain[Slot((p - 1) / 512, fs.csize)])
      && (p % 512 != 0 ==> p / 512 < |secs| && sect == secs[p / 512])
    }

    ghost predicate Valid()
      reads this, buf, fs, fs.win, fs.disk
      ensures Valid() ==> fs.Valid() && fptr <= objsize < DWORD && buf.Length == 512
    {
      && fs.Valid() && buf != fs.win
      && Rooted() && Placed() && Cached()
      && fptr <= objsize && CursorAt(fptr)
    }

    /** The bytes of the file. */
    ghost function Content(): seq<Byte>
      requires Placed() && Cached()
      reads this, fs, buf
    {
      BytesOf(fsec, objsize)
    }

    /** Writes a dirty buffer back. */
    method Flush() returns (ok: bool)
      requires fs.Valid() && Placed() && Cached() && buf != fs.win
      modifies fs.disk, fs`rest, this`dirty
      ensures fs.Valid()
      ensures ok ==> Cached() && !dirty
      ensures KeptOutside(old(fs.rest), fs.rest, secs)
      ensures fs.disk.healthy ==> ok
    {
      hide Volume.Valid, Secs, IsChain, Holds;
      ok := true;
      if dirty {
        SecsReal(fs, chain);
        CacheFlushed(fsec, secs, fs.rest, sect, buf[..]);
        ok := fs.WriteData(buf[..], sect, 1);
        if ok {
          dirty := false;
        }
      }
    }

    /** Makes the buffer show sector k of the file. */
    method LoadCache(s: nat, ghost k: nat) returns (ok: bool)
      requires fs.Valid() && Placed() && Cached() && buf != fs.win
      requires k < |secs| && s == secs[k]
      modifies fs.disk, fs`rest, this`dirty, this`sect, buf
      ensures fs.Valid()
      ensures ok ==> Cached() && sect == s
      ensures KeptOutside(old(fs.rest), fs.rest, secs)
      ensures fs.disk.healthy ==> ok
    {
      hide Volume.Valid, Secs, IsChain, Holds;
      ok := true;
      if sect != s {
        ok := Flush();
        if !ok { return; }
        SecsReal(fs, chain);
        ghost var was := buf[..];
        ok := fs.ReadData(buf, 0, s, 1);
        if !ok { return; }
        assert buf[..] == buf[0..512];
        CacheLoaded(fsec, secs, fs.rest, sect, was, k, buf[..]);
      }
      sect := s;
    }

    /** Moves to cluster q of the chain from the one before it. */
    method NextCluster(ghost q: nat) returns (res: FResult)
      requires fs.Valid() && Rooted() && Placed() && Cached() && buf != fs.win && q < |chain|
      requires if fptr == 0 then q == 0 else q > 0 && clust == chain[q - 1]
      modifies this`clust, fs`winsect, fs`wflag, fs.win, fs.disk
      ensures fs.Valid() && Placed() && Cached()
      ensures res == FR_OK || (res == FR_DISK_ERR && !fs.disk.healthy)
      ensures res == FR_OK ==> clust == chain[q]
    {
      hide Volume.Valid, Secs, CacheOk;
      var clst;
      SecsReal(fs, chain);
      if fptr == 0 {
        clst := sclust;
      } else {
        MemberStatus(fs.fat, chain, q - 1);
        clst := fs.GetFat(clust);
      }
      if clst < 2 { return FR_INT_ERR; }
      if clst == DISK_ERROR { return FR_DISK_ERR; }
      clust := clst;
      res := FR_OK;
    }

    /** The current cluster's sector csect, which is sector k of the file. */
    method SectorHere(csect: nat, ghost k: nat, ghost q: nat) returns (s: nat)
      requires fs.Valid() && Placed() && k < |secs|
      requires q == Slot(k, fs.csize) < |chain| && clust == chain[q] && csect == Place(k, fs.csize)
      ensures s == secs[k]
    {
      hide Volume.Valid, Secs, Slot, Place;
      SecsReal(fs, chain);
      SecAt(fs.database, fs.csize, chain, k);
      s := fs.Clst2Sect(clust);
      s := s + csect;
    }

    /** At a sector boundary inside the file: moves to the cluster of byte fptr and gives its sector.
        csect is the sector's place in the cluster. */
    method FollowRead() returns (res: FResult, s: nat, csect: nat)
      requires Valid() && fptr < objsize && fptr % 512 == 0
      modifies this`clust, fs`winsect, fs`wflag, fs.win, fs.disk
      ensures fs.Valid() && Placed() && Cached()
      ensures res == FR_OK || (res == FR_DISK_ERR && !fs.disk.healthy)
      ensures res == FR_OK ==>
                && fptr / 512 < |secs| && csect == Place(fptr / 512, fs.csize) && s == secs[fptr / 512]
                && Slot(fptr / 512, fs.csize) < |chain| && clust == chain[Slot(fptr / 512, fs.csize)]
    {
      hide Volume.Valid, Secs, CacheOk, IsChain, Slot, Place;
      ghost var k := fptr / 512;
      ghost var q, r, p := Boundary(fs.csize, chain, k);
      assert fptr > 0 ==> (fptr - 1) / 512 == k - 1;
      csect, s, res := Place(fptr / 512, fs.csize), 0, FR_OK;
      if csect == 0 {
        res := NextCluster(q);
        if res != FR_OK { return; }
      }
      s := SectorHere(csect, k, q);
    }

    /** Reads cc whole sectors of the current cluster past the cache, and takes a dirty one among them from the cache. */
    method ReadDirect(rbuff: array<Byte>, at: nat, s: nat, cc: nat, ghost k: nat) returns (ok: bool)
      requires fs.Valid() && Placed() && Cached() && buf != fs.win
      requires cc > 0 && Contiguous(secs, k, cc) && s == secs[k]
      requires rbuff != buf && rbuff != fs.win && at + 512 * cc <= rbuff.Length
      modifies rbuff
      ensures fs.Valid() && Cached()
      ensures ok ==> Holds(rbuff[..], at, fsec, k, cc)
      ensures SameAround(old(rbuff[..]), rbuff[..], at, at + 512 * cc)
      ensures fs.disk.healthy ==> ok
    {
      hide Volume.Valid, Secs, IsChain, Holds, CacheOk, SameAround, Patched, Contiguous, Unsigned;
      SecsReal(fs, chain);
      RunInside(secs, k, cc);
      WindowAway(k, cc);
      CacheFacts(fsec, secs, fs.rest, sect, dirty, buf[..]);
      ok := fs.ReadData(rbuff, at, s, cc);
      if ok {
        ghost var got := rbuff[..];
        DirectRead(fsec, secs, fs.rest, sect, dirty, buf[..], k, cc, got, at);
        if dirty && Unsigned(sect - s) < cc {
          var d := at + (sect - s) * 512;
          PatchedAround(old(rbuff[..]), got, d, buf[..], at, at + 512 * cc);
          MemCpy(rbuff, d, buf[..]);
        }
      }
    }

    lemma WindowAway(k: nat, cc: nat)
      requires Placed() && Contiguous(secs, k, cc)
      ensures forall i :: k <= i < k + cc ==> secs[i] != fs.winsect
      ensures cc > 0 ==> !(secs[k] <= fs.winsect < secs[k] + cc)
    {
      if cc > 0 && secs[k] <= fs.winsect < secs[k] + cc {
        assert secs[k + (fs.winsect - secs[k])] == fs.winsect;
      }
    }

    lemma CacheAt(k: nat)
      requires Cached() && k < |secs| && sect == secs[k]
      ensures k < |fsec| && buf[..] == fsec[k]
    {
    }

    /** The direct part of a turn: the whole sectors of the current cluster that btr covers. */
    method ReadSectors(rbuff: array<Byte>, at: nat, btr: nat, s: nat, csect: nat, ghost k: nat) returns (ok: bool, rcnt: nat)
      requires fs.Valid() && Placed() && Cached() && buf != fs.win
      requires fptr == 512 * k && k < |secs| && s == secs[k] && csect == Place(k, fs.csize)
      requires Slot(k, fs.csize) < |chain| && clust == chain[Slot(k, fs.csize)]
      requires 512 <= btr <= objsize - fptr
      requires rbuff != buf && rbuff != fs.win && at + btr <= rbuff.Length
      modifies rbuff
      ensures fs.Valid() && Cached()
      ensures ok ==>
                && 0 < rcnt <= btr && CursorAt(fptr + rcnt)
                && rbuff[..][at..at + rcnt] == BytesOf(fsec, objsize)[fptr..fptr + rcnt]
                && SameAround(old(rbuff[..]), rbuff[..], at, at + rcnt)
      ensures fs.disk.healthy ==> ok
    {
      hide Volume.Valid, Secs, IsChain, CacheOk, Holds, Slot, Place, SameAround, BytesOf, Placed, Cached, CursorAt, Contiguous;
      CacheSizes();
      PlacedSizes();
      var cc := btr / 512;
      if csect + cc > fs.csize {
        cc := fs.csize - csect;
      }
      rcnt := 512 * cc;
      RunInCluster(fs.database, fs.csize, chain, k, cc);
      ok := ReadDirect(rbuff, at, s, cc, k);
      if ok {
        DirectBytes(rbuff[..], at, fsec, objsize, k, cc);
        SectorsEnd(k, cc);
      }
    }

    /** The cached part of a turn: what btr covers of the cached sector. */
    method ReadPiece(rbuff: array<Byte>, at: nat, btr: nat, ghost k: nat) returns (rcnt: nat)
      requires fs.Valid() && Placed() && Cached() && buf != fs.win
      requires k == fptr / 512 < |secs| && sect == secs[k]
      requires Slot(k, fs.csize) < |chain| && clust == chain[Slot(k, fs.csize)]
      requires 0 < btr <= objsize - fptr
      requires rbuff != buf && rbuff != fs.win && at + btr <= rbuff.Length
      modifies rbuff
      ensures fs.Valid() && Cached()
      ensures 0 < rcnt <= btr && CursorAt(fptr + rcnt)
      ensures rbuff[..][at..at + rcnt] == BytesOf(fsec, objsize)[fptr..fptr + rcnt]
      ensures SameAround(old(rbuff[..]), rbuff[..], at, at + rcnt)
    {
      hide Volume.Valid, Secs, IsChain, CacheOk, Slot, SameAround, BytesOf, Patched, CursorAt, Cached, Placed;
      rcnt := 512 - fptr % 512;
      if rcnt > btr { rcnt := btr; }
      CacheSizes();
      PartBytes(fsec, objsize, fptr, rcnt);
      CacheAt(k);
      ghost var before := rbuff[..];
      MemCpy(rbuff, at, buf[fptr % 512..fptr % 512 + rcnt]);
      PatchedPiece(before, at, buf[..][fptr % 512..fptr % 512 + rcnt]);
      PieceEnd(rcnt);
    }

    lemma CacheSizes()
      requires Placed() && Cached()
      ensures |fsec| == |secs| && objsize <= 512 * |fsec| && forall j :: 0 <= j < |fsec| ==> |fsec[j]| == 512
    {
      hide Secs, IsChain, CacheOk;
      CacheFacts(fsec, secs, fs.rest, sect, dirty, buf[..]);
    }

    lemma PlacedSizes()
      requires Placed()
      ensures fs.csize > 0 && AllClusters(chain) && secs == Secs(fs.database, fs.csize, chain)
      ensures objsize <= 512 * |secs| && objsize < DWORD
    {
    }

    /** After cc sectors from k on the cursor is still in the cluster of sector k. */
    lemma SectorsEnd(k: nat, cc: nat)
      requires fs.csize > 0 && cc > 0 && Slot(k + cc - 1, fs.csize) < |chain| && clust == chain[Slot(k + cc - 1, fs.csize)]
      ensures CursorAt(512 * k + 512 * cc)
    {
      hide Slot;
      LastSector(k, cc);
    }

    lemma PieceEnd(n: nat)
      requires Placed() && 0 < n <= 512 - fptr % 512 && fptr / 512 < |secs| && sect == secs[fptr / 512]
      requires Slot(fptr / 512, fs.csize) < |chain| && clust == chain[Slot(fptr / 512, fs.csize)]
      ensures CursorAt(fptr + n)
    {
      hide Slot;
      PieceSector(fptr, n);
    }

    /** The turn at a sector boundary: reads whole sectors if btr allows it, else loads the cache, and then rcnt is 0. */
    method ReadBoundary(rbuff: array<Byte>, at: nat, btr: nat, ghost k: nat) returns (res: FResult, rcnt: nat)
      requires Valid() && 0 < btr <= objsize - fptr && fptr == 512 * k
      requires rbuff != buf && rbuff != fs.win && at + btr <= rbuff.Length
      modifies this`clust, this`sect, this`dirty, buf, rbuff, fs`winsect, fs`wflag, fs`rest, fs.win, fs.disk
      ensures fs.Valid()
      ensures res == FR_OK || (res == FR_DISK_ERR && !fs.disk.healthy)
      ensures res == FR_OK ==> Placed() && Cached() && rcnt <= btr && Content() == old(Content())
      ensures res == FR_OK && rcnt == 0 ==>
                && k < |secs| && sect == secs[k] && rbuff[..] == old(rbuff[..])
                && Slot(k, fs.csize) < |chain| && clust == chain[Slot(k, fs.csize)]
      ensures res == FR_OK && rcnt > 0 ==>
                && CursorAt(fptr + rcnt)
                && rbuff[..][at..at + rcnt] == Content()[fptr..fptr + rcnt]
                && SameAround(old(rbuff[..]), rbuff[..], at, at + rcnt)
      ensures KeptOutside(old(fs.rest), fs.rest, secs)
    {
      hide Volume.Valid, Secs, IsChain, CacheOk, Slot, Place, SameAround, BytesOf, KeptOutside, Rooted, Placed, Cached;
      KeptSelf(fs.rest, secs);
      rcnt := 0;
      var s, csect;
      res, s, csect := FollowRead();
      if res != FR_OK { return; }
      var ok;
      if btr / 512 > 0 {
        ok, rcnt := ReadSectors(rbuff, at, btr, s, csect, k);
      } else {
        ok := LoadCache(s, k);
      }
      res := if ok then FR_OK else FR_DISK_ERR;
    }

    /** Inside a sector the cursor is on the cluster and the cached sector of the next byte. */
    lemma CursorInside()
      requires Placed() && CursorAt(fptr) && fptr % 512 != 0
      ensures fptr / 512 < |secs| && sect == secs[fptr / 512]
      ensures Slot(fptr / 512, fs.csize) < |chain| && clust == chain[Slot(fptr / 512, fs.csize)]
    {
      hide Slot;
      SectorBefore(fptr);
    }

    /** One turn of f_read's loop: whole sectors if btr allows it at a sector boundary, else a piece of the cached sector. */
    method ReadStep(rbuff: array<Byte>, at: nat, btr: nat) returns (res: FResult, rcnt: nat)
      requires Valid() && 0 < btr <= objsize - fptr
      requires rbuff != buf && rbuff != fs.win && at + btr <= rbuff.Length
      modifies this`clust, this`sect, this`dirty, buf, rbuff, fs`winsect, fs`wflag, fs`rest, fs.win, fs.disk
      ensures fs.Valid()
      ensures res == FR_OK || (res == FR_DISK_ERR && !fs.disk.healthy)
      ensures res == FR_OK ==>
                && Placed() && Cached() && 0 < rcnt <= btr && CursorAt(fptr + rcnt)
                && rbuff[..][at..at + rcnt] == Content()[fptr..fptr + rcnt]
                && SameAround(old(rbuff[..]), rbuff[..], at, at + rcnt)
      ensures KeptOutside(old(fs.rest), fs.rest, secs)
    {
      hide Volume.Valid, Secs, IsChain, CacheOk, Slot, Place, SameAround, BytesOf, KeptOutside, Rooted, Placed, Cached, CursorAt;
      ghost var k := fptr / 512;
      KeptSelf(fs.rest, secs);
      res, rcnt := FR_OK, 0;
      if fptr % 512 == 0 {
        res, rcnt := ReadBoundary(rbuff, at, btr, k);
        if res != FR_OK || rcnt > 0 { return; }
      } else {
        CursorInside();
      }
      rcnt := ReadPiece(rbuff, at, btr, k);
    }

    lemma PieceAdded(before: seq<Byte>, after: seq<Byte>, content: seq<Byte>, from: nat, br: nat, rcnt: nat)
      requires |before| == |after| && br + rcnt <= |after| && from + br + rcnt <= |content|
      requires before[..br] == content[from..from + br]
      requires SameAround(before, after, br, br + rcnt)
      requires after[br..br + rcnt] == content[from + br..from + br + rcnt]
      ensures after[..br + rcnt] == content[from..from + br + rcnt]
      ensures after[br + rcnt..] == before[br + rcnt..]
    {
      assert after[..br + rcnt] == after[..br] + after[br..br + rcnt];
      assert after[..br] == before[..br];
    }

    lemma RestStays(start: seq<Byte>, before: seq<Byte>, after: seq<Byte>, br: nat, rcnt: nat)
      requires |start| == |before| == |after| && br + rcnt <= |start|
      requires before[br..] == start[br..] && after[br + rcnt..] == before[br + rcnt..]
      ensures after[br + rcnt..] == start[br + rcnt..]
    {
      assert start[br + rcnt..] == start[br..][rcnt..] && before[br + rcnt..] == before[br..][rcnt..];
    }

    /** f_read: the bytes from the file pointer on, up to btr of them and to the end of the file. */
    method Read(rbuff: array<Byte>, btr: nat) returns (res: FResult, br: nat)
      requires Valid() && btr <= rbuff.Length
      requires rbuff != buf && rbuff != fs.win
      modifies this`fptr, this`clust, this`sect, this`dirty, this`err, buf, rbuff, fs`winsect, fs`wflag, fs`rest, fs.win, fs.disk
      ensures fs.Valid() && br <= btr
      ensures res == FR_OK ==>
                && Valid() && br == (if btr <= objsize - old(fptr) then btr else objsize - old(fptr))
                && fptr == old(fptr) + br
                && Content() == old(Content())
                && rbuff[..br] == old(Content())[old(fptr)..old(fptr) + br]
                && rbuff[br..] == old(rbuff[..])[br..]
      ensures old(err) != FR_OK ==> res == old(err) && Valid()
      ensures old(err) == FR_OK && !readable ==> res == FR_DENIED && Valid()
      ensures old(err) == FR_OK && readable ==> res == err && (res == FR_OK || (res == FR_DISK_ERR && !fs.disk.healthy))
      ensures KeptOutside(old(fs.rest), fs.rest, secs)
    {
      hide Volume.Valid, Secs, IsChain, CacheOk, SameAround, BytesOf, KeptOutside, Rooted, Placed, Cached, CursorAt;
      KeptSelf(fs.rest, secs);
      if err != FR_OK { return err, 0; }
      if !readable { return FR_DENIED, 0; }
      var left: nat := objsize - fptr;
      if btr < left { left := btr; }
      res, br := ReadLoop(rbuff, left);
    }

    /** A turn and the file pointer behind it. */
    method ReadOn(rbuff: array<Byte>, at: nat, btr: nat) returns (res: FResult, rcnt: nat)
      requires Valid() && 0 < btr <= objsize - fptr && err == FR_OK
      requires rbuff != buf && rbuff != fs.win && at + btr <= rbuff.Length
      modifies this`fptr, this`clust, this`sect, this`dirty, this`err, buf, rbuff, fs`winsect, fs`wflag, fs`rest, fs.win, fs.disk
      ensures fs.Valid() && res == err && (res == FR_OK || (res == FR_DISK_ERR && !fs.disk.healthy))
      ensures res == FR_OK ==>
                && Valid() && 0 < rcnt <= btr && fptr == old(fptr) + rcnt && Content() == old(Content())
                && rbuff[..][at..at + rcnt] == Content()[old(fptr)..fptr]
                && SameAround(old(rbuff[..]), rbuff[..], at, at + rcnt)
      ensures KeptOutside(old(fs.rest), fs.rest, secs)
    {
      hide Volume.Valid, Secs, IsChain, CacheOk, SameAround, BytesOf, KeptOutside, Rooted, Placed, Cached, CursorAt;
      res, rcnt := ReadStep(rbuff, at, btr);
      if res != FR_OK {
        err := res;
        return;
      }
      fptr := fptr + rcnt;
    }

    /** f_read's loop, for btr bytes that the file has. */
    method ReadLoop(rbuff: array<Byte>, btr: nat) returns (res: FResult, br: nat)
      requires Valid() && btr <= rbuff.Length && btr <= objsize - fptr && err == FR_OK
      requires rbuff != buf && rbuff != fs.win
      modifies this`fptr, this`clust, this`sect, this`dirty, this`err, buf, rbuff, fs`winsect, fs`wflag, fs`rest, fs.win, fs.disk
      ensures fs.Valid() && br <= btr && res == err && (res == FR_OK || (res == FR_DISK_ERR && !fs.disk.healthy))
      ensures res == FR_OK ==>
                && Valid() && br == btr && fptr == old(fptr) + br
                && Content() == old(Content())
                && rbuff[..br] == old(Content())[old(fptr)..old(fptr) + br]
                && rbuff[br..] == old(rbuff[..])[br..]
      ensures KeptOutside(old(fs.rest), fs.rest, secs)
    {
      hide Volume.Valid, Secs, IsChain, CacheOk, SameAround, BytesOf, KeptOutside, Rooted, Placed, Cached, CursorAt;
      br := 0;
      KeptSelf(fs.rest, secs);
      var left := btr;
      ghost var from, content := fptr, Content();
      res := FR_OK;
      while left > 0
        invariant Valid() && err == FR_OK && res == FR_OK
        invariant br + left == btr && fptr == from + br && from + btr <= objsize
        invariant Content() == content && |content| == objsize
        invariant rbuff[..br] == content[from..from + br]
        invariant rbuff[br..] == old(rbuff[..])[br..]
        invariant KeptOutside(old(fs.rest), fs.rest, secs)
        decreases left
      {
        ghost var before, rest := rbuff[..], fs.rest;
        var rcnt;
        res, rcnt := ReadOn(rbuff, br, left);
        KeptThen(old(fs.rest), rest, fs.rest, secs);
        if res != FR_OK { return; }
        PieceAdded(before, rbuff[..], content, from, br, rcnt);
        RestStays(old(rbuff[..]), before, rbuff[..], br, rcnt);
        left, br := left - rcnt, br + rcnt;
      }
    }

    // ----- f_write -----

    lemma SecsApart()
      requires Placed()
      ensures Distinct(secs)
    {
      hide Secs;
      if chain != [] {
        ChainDistinct(fs.fat, chain);
      }
      SecsAreDistinct(fs.database, fs.csize, chain);
    }

    /** The chain has got the cluster ncl: its sectors join the file, their old bytes past the end of the file's. */
    ghost method Adopt(ncl: nat, fat0: seq<nat>)
      requires fs.Valid() && Cached() && buf != fs.win && fs.csize > 0
      requires AllClusters(chain) && (chain == [] || IsChain(fat0, chain)) && secs == Secs(fs.database, fs.csize, chain)
      requires IsChain(fs.fat, chain + [ncl]) && Grown(fat0, fs.fat, chain, chain + [ncl])
      requires objsize <= 512 * |secs| && objsize < DWORD
      requires fs.OnFat()
      modifies this`chain, this`secs, this`fsec
      ensures chain == old(chain) + [ncl] && old(secs) <= secs && old(fsec) <= fsec
      ensures AllClusters(chain) && secs == Secs(fs.database, fs.csize, chain)
      ensures objsize <= 512 * |secs| && fs.winsect !in secs
      ensures Cached()
    {
      hide Volume.Valid, Secs, CacheOk, Grown;
      var next := chain + [ncl];
      SecsReal(fs, next);
      SecsPrefix(fs.database, fs.csize, chain, next);
      assert secs <= Secs(fs.database, fs.csize, next);
      ChainDistinct(fs.fat, next);
      SecsAreDistinct(fs.database, fs.csize, next);
      fsec := CacheGrown(fsec, secs, fs.rest, sect, dirty, buf[..], Secs(fs.database, fs.csize, next));
      chain := next;
      secs := Secs(fs.database, fs.csize, next);
    }

    /** No free cluster is known or left. */
    ghost predicate Full()
      reads fs`fat, fs`freeClst
    {
      fs.freeClst == 0 || NoneFree(fs.fat)
    }

    /** create_chain on the file's chain, from cluster at, which is cluster q - 1: follows the chain or grows it by one. */
    method Extend(at: nat, ghost q: nat) returns (clst: nat)
      requires fs.Valid() && Placed() && Cached() && buf != fs.win
      requires q <= |chain| && if q == 0 then at == 0 && chain == [] else at == chain[q - 1]
      modifies this`chain, this`secs, this`fsec, fs`winsect, fs`wflag, fs`raw, fs`fat, fs`freeClst, fs`lastClst, fs`fsiFlag,
               fs.win, fs.disk
      ensures fs.Valid()
      ensures clst < fs.nFatent || (clst == DISK_ERROR && !fs.disk.healthy)
      ensures clst == 1 ==> HoldsOne(fs.fat)
      ensures clst != DISK_ERROR ==> Placed() && Cached()
      ensures clst < 2 ==> chain == old(chain) && secs == old(secs) && fsec == old(fsec) && fs.fat == old(fs.fat) && q == |chain|
      ensures clst == 0 ==> Full()
      ensures 2 <= clst < fs.nFatent ==>
                && q < |chain| && clst == chain[q]
                && |chain| == Max(|old(chain)|, q + 1) && old(chain) <= chain
                && old(secs) <= secs && old(fsec) <= fsec
                && Grown(old(fs.fat), fs.fat, old(chain), chain)
      ensures clst != DISK_ERROR && CountOk(old(fs.freeClst), old(fs.fat)) ==> CountOk(fs.freeClst, fs.fat)
    {
      hide Volume.Valid, Secs, CacheOk, IsChain, FreeCount;
      ghost var fat0 := fs.fat;
      SecsReal(fs, chain);
      if q > 0 { MemberStatus(fs.fat, chain, q - 1); }
      clst := CreateChain(fs, at);
      if clst == DISK_ERROR { return; }
      if clst >= 2 && q == |chain| {
        GrowFacts(fat0, chain, clst, Eoc(fs.fatType));
        Adopt(clst, fat0);
      } else if clst >= 2 {
        GrownNot(fat0, chain);
      }
    }

    /** f_write at a cluster boundary: the next cluster of the chain, allocated if need be; 0 when the disk is full. */
    method WriteCluster(ghost q: nat) returns (res: FResult, full: bool)
      requires fs.Valid() && Rooted() && Placed() && Cached() && buf != fs.win && q <= |chain|
      requires if fptr == 0 then q == 0 else q > 0 && clust == chain[q - 1]
      modifies this`clust, this`sclust, this`chain, this`secs, this`fsec,
               fs`winsect, fs`wflag, fs`raw, fs`fat, fs`freeClst, fs`lastClst, fs`fsiFlag, fs.win, fs.disk
      ensures fs.Valid()
      ensures res == FR_OK || (res == FR_INT_ERR && HoldsOne(fs.fat)) || (res == FR_DISK_ERR && !fs.disk.healthy)
      ensures res == FR_OK ==> Rooted() && Placed() && Cached()
      ensures res == FR_OK && full ==>
                && Full() && q == |chain| && clust == old(clust)
                && chain == old(chain) && secs == old(secs) && fsec == old(fsec) && fs.fat == old(fs.fat)
      ensures res == FR_OK && !full ==>
                && q < |chain| && clust == chain[q] && |chain| == Max(|old(chain)|, q + 1)
                && old(secs) <= secs && old(fsec) <= fsec
                && Grown(old(fs.fat), fs.fat, old(chain), chain)
      ensures res == FR_OK && CountOk(old(fs.freeClst), old(fs.fat)) ==> CountOk(fs.freeClst, fs.fat)
    {
      hide Volume.Valid, Secs, CacheOk, IsChain, Grown, FreeCount, Full;
      GrownNot(fs.fat, chain);
      if chain != [] { MemberStatus(fs.fat, chain, 0); }
      var clst;
      if fptr == 0 {
        clst := sclust;
        if clst == 0 {
          clst := Extend(0, q);
        }
      } else {
        clst := Extend(clust, q);
      }
      if clst == 0 { return FR_OK, true; }
      if clst == 1 { return FR_INT_ERR, false; }
      if clst == DISK_ERROR { return FR_DISK_ERR, false; }
      clust := clst;
      if sclust == 0 { sclust := clst; }
      res, full := FR_OK, false;
    }

    /** Copies the sector the cache shows out of cc sectors just written from s on. */
    method Refill(data: seq<Byte>, s: nat, cc: nat)
      requires |data| == 512 * cc && buf.Length == 512 && sect < DWORD && s < DWORD && s + cc <= DWORD && !dirty
      modifies this`dirty, buf
      ensures !dirty
      ensures buf[..] == if s <= sect < s + cc then data[512 * (sect - s)..512 * (sect - s) + 512] else old(buf[..])
    {
      if Unsigned(sect - s) < cc {
        var d := (sect - s) * 512;
        MemCpy(buf, 0, data[d..d + 512]);
        dirty := false;
      }
    }

    /** Writes cc whole sectors past the cache and refreshes the cache if it shows one of them. */
    method WriteRun(data: seq<Byte>, s: nat, cc: nat, ghost k: nat) returns (ok: bool)
      requires fs.Valid() && Placed() && Cached() && buf != fs.win && !dirty
      requires cc > 0 && |data| == 512 * cc && Contiguous(secs, k, cc) && s == secs[k]
      modifies this`dirty, this`fsec, buf, fs.disk, fs`rest
      ensures fs.Valid()
      ensures |old(fsec)| == |secs| && forall j :: 0 <= j < |old(fsec)| ==> |old(fsec)[j]| == 512
      ensures ok ==> Cached() && fsec == PutSectors(old(fsec), k, cc, data) && KeptOutside(old(fs.rest), fs.rest, secs)
      ensures fs.disk.healthy ==> ok
    {
      hide Volume.Valid, Secs, IsChain, CacheOk, Holds, PutSectors, KeptOutside;
      SecsReal(fs, chain);
      SecsApart();
      WindowAway(k, cc);
      RunInside(secs, k, cc);
      CacheFacts(fsec, secs, fs.rest, sect, dirty, buf[..]);
      ghost var rest0, buf0, fsec0 := fs.rest, buf[..], fsec;
      ok := fs.WriteData(data, s, cc);
      if ok {
        Refill(data, s, cc);
        DirectWritten(fsec0, secs, rest0, sect, buf0, k, cc, data, fs.rest, buf[..]);
        fsec := PutSectors(fsec, k, cc, data);
      }
    }

    /** The direct part of a turn of f_write: the whole sectors of the current cluster that data covers. */
    method WriteSectors(data: seq<Byte>, s: nat, csect: nat, ghost k: nat) returns (ok: bool, wcnt: nat)
      requires fs.Valid() && Placed() && Cached() && buf != fs.win && !dirty
      requires fptr == 512 * k <= objsize && k < |secs| && s == secs[k] && csect == Place(k, fs.csize)
      requires Slot(k, fs.csize) < |chain| && clust == chain[Slot(k, fs.csize)]
      requires |data| >= 512
      modifies this`dirty, this`fsec, buf, fs.disk, fs`rest
      ensures fs.Valid()
      ensures ok ==>
                && Cached() && 0 < wcnt <= |data| && CursorAt(fptr + wcnt)
                && |fsec| == |secs| && fptr + wcnt <= 512 * |secs|
                && BytesOf(fsec, Max(objsize, fptr + wcnt)) == Overwrite(BytesOf(old(fsec), objsize), fptr, data[..wcnt])
                && KeptOutside(old(fs.rest), fs.rest, secs)
      ensures fs.disk.healthy ==> ok
    {
      hide Volume.Valid, Secs, IsChain, CacheOk, Slot, Place, BytesOf, PutSectors, Overwrite, KeptOutside, Contiguous, Placed, Cached, CursorAt;
      CacheSizes();
      PlacedSizes();
      var cc := |data| / 512;
      if csect + cc > fs.csize {
        cc := fs.csize - csect;
      }
      wcnt := 512 * cc;
      RunInCluster(fs.database, fs.csize, chain, k, cc);
      RunInside(secs, k, cc);
      ghost var fsec0 := fsec;
      ok := WriteRun(data[..wcnt], s, cc, k);
      SectorsWritten(fsec0, objsize, k, cc, data[..wcnt]);
      SectorsEnd(k, cc);
    }

    /** Before a partial write at a sector boundary: the cache takes sector k, read in unless k starts at or after the
        end of the file. */
    method PrepareSector(s: nat, ghost k: nat) returns (ok: bool)
      requires fs.Valid() && Placed() && Cached() && buf != fs.win && !dirty
      requires fptr == 512 * k && k < |secs| && s == secs[k]
      modifies this`sect, buf
      ensures fs.Valid()
      ensures ok ==>
                && |fsec| == |secs| && sect == s
                && CacheOk(fsec[k := buf[..]], secs, fs.rest, sect, true, buf[..])
                && (fptr < objsize ==> buf[..] == fsec[k])
      ensures fs.disk.healthy ==> ok
    {
      hide Volume.Valid, Secs, IsChain, CacheOk, Holds;
      SecsReal(fs, chain);
      SecsApart();
      ghost var was := buf[..];
      CacheFacts(fsec, secs, fs.rest, sect, dirty, was);
      ok := true;
      if sect != s {
        if fptr < objsize {
          ok := fs.ReadData(buf, 0, s, 1);
          if !ok { return; }
          assert buf[..] == buf[0..512];
          CleanSector(fsec, secs, fs.rest, sect, was, k);
        }
      } else {
        CacheAt(k);
      }
      CacheTouched(fsec, secs, fs.rest, sect, false, was, k, buf[..]);
      sect := s;
    }

    /** Copies data into the cached sector k, which becomes dirty. */
    method PutPiece(data: seq<Byte>, ghost k: nat)
      requires Placed() && k == fptr / 512 < |secs| && |fsec| == |secs| && sect == secs[k]
      requires CacheOk(fsec[k := buf[..]], secs, fs.rest, sect, true, buf[..])
      requires 0 < |data| && fptr % 512 + |data| <= 512 && fptr <= objsize
      requires fptr % 512 != 0 || fptr < objsize ==> buf[..] == fsec[k]
      requires forall j :: 0 <= j < |fsec| ==> |fsec[j]| == 512
      requires Slot(k, fs.csize) < |chain| && clust == chain[Slot(k, fs.csize)]
      modifies this`dirty, this`fsec, buf
      ensures Cached() && dirty && CursorAt(fptr + |data|)
      ensures |fsec| == |secs| && fptr + |data| <= 512 * |secs|
      ensures BytesOf(fsec, Max(objsize, fptr + |data|)) == Overwrite(BytesOf(old(fsec), objsize), fptr, data)
    {
      hide Secs, IsChain, CacheOk, Slot, BytesOf, Overwrite, Placed, CursorAt;
      PlacedSizes();
      SecsApart();
      CacheFacts(fsec[k := buf[..]], secs, fs.rest, sect, true, buf[..]);
      ghost var was, fsec0 := buf[..], fsec;
      MemCpy(buf, fptr % 512, data);
      dirty := true;
      PatchedPiece(was, fptr % 512, data);
      CacheTouched(fsec[k := was], secs, fs.rest, sect, true, was, k, buf[..]);
      assert fsec[k := was][k := buf[..]] == fsec[k := buf[..]];
      fsec := fsec[k := buf[..]];
      PieceWritten(fsec0, objsize, fptr, data, buf[..]);
      PieceEnd(|data|);
    }

    /** f_write at a sector boundary, up to the choice between direct and cached writing: the cluster is current, the
        cache is clean, and s is the sector of fptr. */
    method WriteBoundary() returns (res: FResult, full: bool, s: nat, csect: nat)
      requires Valid() && fptr % 512 == 0
      modifies this`clust, this`sclust, this`dirty, this`chain, this`secs, this`fsec,
               fs`winsect, fs`wflag, fs`raw, fs`fat, fs`rest, fs`freeClst, fs`lastClst, fs`fsiFlag, fs.win, fs.disk
      ensures fs.Valid()
      ensures res == FR_OK || (res == FR_INT_ERR && HoldsOne(fs.fat)) || (res == FR_DISK_ERR && !fs.disk.healthy)
      ensures res == FR_OK ==>
                && Rooted() && Placed() && Cached()
                && KeptOutside(old(fs.rest), fs.rest, secs)
                && Grown(old(fs.fat), fs.fat, old(chain), chain) && old(fsec) <= fsec
                && (CountOk(old(fs.freeClst), old(fs.fat)) ==> CountOk(fs.freeClst, fs.fat))
      ensures res == FR_OK && full ==> Full() && chain == old(chain) && fsec == old(fsec) && CursorAt(fptr)
      ensures res == FR_OK && !full ==>
                var k := fptr / 512;
                && !dirty && k < |secs| && s == secs[k] && csect == Place(k, fs.csize)
                && Slot(k, fs.csize) < |chain| && clust == chain[Slot(k, fs.csize)]
    {
      hide Volume.Valid, Secs, CacheOk, IsChain, Grown, CountOk, HoldsOne, Full, Slot, Place, KeptOutside;
      ghost var k := fptr / 512;
      ghost var q, r, p := Boundary(fs.csize, chain, k);
      assert fptr > 0 ==> (fptr - 1) / 512 == k - 1;
      GrownNot(fs.fat, chain);
      KeptSelf(fs.rest, secs);
      res, full, s, csect := FR_OK, false, 0, Place(fptr / 512, fs.csize);
      if csect == 0 {
        res, full := WriteCluster(q);
        if res != FR_OK || full { return; }
      }
      SlotInside(k, fs.csize, |chain|);
      KeptSelf(fs.rest, secs);
      var ok := Flush();
      if !ok { return FR_DISK_ERR, false, 0, 0; }
      s := SectorHere(csect, k, q);
    }

    /** The writing part of such a turn: whole sectors, or a piece of the cached one. */
    method WriteHere(data: seq<Byte>, s: nat, csect: nat, ghost k: nat) returns (ok: bool, wcnt: nat)
      requires fs.Valid() && Placed() && Cached() && buf != fs.win && !dirty
      requires fptr % 512 == 0 && fptr / 512 == k && fptr == 512 * k <= objsize && k < |secs| && s == secs[k] && csect == Place(k, fs.csize)
      requires Slot(k, fs.csize) < |chain| && clust == chain[Slot(k, fs.csize)]
      requires |data| > 0
      modifies this`dirty, this`fsec, this`sect, buf, fs.disk, fs`rest
      ensures fs.Valid()
      ensures ok ==>
                && Cached() && 0 < wcnt <= |data| && CursorAt(fptr + wcnt)
                && |fsec| == |secs| && fptr + wcnt <= 512 * |secs|
                && BytesOf(fsec, Max(objsize, fptr + wcnt)) == Overwrite(BytesOf(old(fsec), objsize), fptr, data[..wcnt])
                && KeptOutside(old(fs.rest), fs.rest, secs)
      ensures fs.disk.healthy ==> ok
    {
      hide Volume.Valid, Secs, CacheOk, IsChain, Slot, Place, KeptOutside, BytesOf, Overwrite;
      wcnt := 0;
      CacheFacts(fsec, secs, fs.rest, sect, dirty, buf[..]);
      KeptSelf(fs.rest, secs);
      if |data| / 512 > 0 {
        ok, wcnt := WriteSectors(data, s, csect, k);
      } else {
        ok := PrepareSector(s, k);
        if ok {
          wcnt := |data|;
          assert data[..wcnt] == data;
          PutPiece(data, k);
        }
      }
    }

    /** A turn of f_write's loop that starts at a sector boundary; wcnt == 0 means the disk is full. */
    method WriteAligned(data: seq<Byte>) returns (res: FResult, wcnt: nat)
      requires Valid() && 0 < |data| && fptr + |data| < DWORD && fptr % 512 == 0
      modifies this`clust, this`sclust, this`sect, this`dirty, this`chain, this`secs, this`fsec, buf,
               fs`winsect, fs`wflag, fs`raw, fs`fat, fs`rest, fs`freeClst, fs`lastClst, fs`fsiFlag, fs.win, fs.disk
      ensures fs.Valid()
      ensures res == FR_OK || (res == FR_INT_ERR && HoldsOne(fs.fat)) || (res == FR_DISK_ERR && !fs.disk.healthy)
      ensures res == FR_OK ==>
                && Rooted() && Placed() && Cached() && CursorAt(fptr + wcnt)
                && wcnt <= |data| && fptr + wcnt <= 512 * |secs| && |fsec| == |secs|
                && BytesOf(fsec, Max(objsize, fptr + wcnt)) == Overwrite(old(Content()), fptr, data[..wcnt])
                && KeptOutside(old(fs.rest), fs.rest, secs)
                && Grown(old(fs.fat), fs.fat, old(chain), chain)
                && (CountOk(old(fs.freeClst), old(fs.fat)) ==> CountOk(fs.freeClst, fs.fat))
                && (wcnt == 0 ==> Full())
    {
      hide Volume.Valid, Secs, CacheOk, IsChain, Grown, CountOk, Full, Slot, Place, KeptOutside, BytesOf, Overwrite,
           Rooted, CursorAt, HoldsOne, Placed, Cached;
      ghost var k, rest0, fsec0 := fptr / 512, fs.rest, fsec;
      CacheSizes();
      wcnt := 0;
      var full, s, csect;
      res, full, s, csect := WriteBoundary();
      if res != FR_OK { return; }
      CacheSizes();
      BytesPrefix(fsec0, fsec, objsize);
      if full {
        OverwriteNone(BytesOf(fsec, objsize), fptr);
        return;
      }
      ghost var rest1 := fs.rest;
      var ok;
      ok, wcnt := WriteHere(data, s, csect, k);
      if !ok { return FR_DISK_ERR, 0; }
      KeptThen(rest0, rest1, fs.rest, secs);
    }

    /** The turn inside a sector: the cache shows it, and takes what of data it has room for. */
    method WriteInside(data: seq<Byte>) returns (wcnt: nat)
      requires Valid() && 0 < |data| && fptr + |data| < DWORD && fptr % 512 != 0
      modifies this`dirty, this`fsec, buf
      ensures Cached() && CursorAt(fptr + wcnt) && |fsec| == |secs|
      ensures 0 < wcnt <= |data| && fptr + wcnt <= 512 * |secs|
      ensures BytesOf(fsec, Max(objsize, fptr + wcnt)) == Overwrite(old(Content()), fptr, data[..wcnt])
      ensures KeptOutside(fs.rest, fs.rest, secs) && Grown(fs.fat, fs.fat, chain, chain)
    {
      hide Volume.Valid, Secs, CacheOk, IsChain, Grown, Full, Slot, Place, KeptOutside, BytesOf, Overwrite;
      ghost var k := fptr / 512;
      GrownNot(fs.fat, chain);
      KeptSelf(fs.rest, secs);
      CacheSizes();
      SecsApart();
      CacheAt(k);
      CacheTouched(fsec, secs, fs.rest, sect, dirty, buf[..], k, buf[..]);
      wcnt := 512 - fptr % 512;
      if wcnt > |data| { wcnt := |data|; }
      PutPiece(data[..wcnt], k);
    }

    /** One turn of f_write's loop; wcnt == 0 means the disk is full. */
    method WriteStep(data: seq<Byte>) returns (res: FResult, wcnt: nat)
      requires Valid() && 0 < |data| && fptr + |data| < DWORD
      modifies this`clust, this`sclust, this`sect, this`dirty, this`chain, this`secs, this`fsec, buf,
               fs`winsect, fs`wflag, fs`raw, fs`fat, fs`rest, fs`freeClst, fs`lastClst, fs`fsiFlag, fs.win, fs.disk
      ensures fs.Valid()
      ensures res == FR_OK || (res == FR_INT_ERR && HoldsOne(fs.fat)) || (res == FR_DISK_ERR && !fs.disk.healthy)
      ensures res == FR_OK ==>
                && Rooted() && Placed() && Cached() && CursorAt(fptr + wcnt)
                && wcnt <= |data| && fptr + wcnt <= 512 * |secs| && |fsec| == |secs|
                && BytesOf(fsec, Max(objsize, fptr + wcnt)) == Overwrite(old(Content()), fptr, data[..wcnt])
                && KeptOutside(old(fs.rest), fs.rest, secs)
                && Grown(old(fs.fat), fs.fat, old(chain), chain)
                && (CountOk(old(fs.freeClst), old(fs.fat)) ==> CountOk(fs.freeClst, fs.fat))
                && (wcnt == 0 ==> Full())
    {
      hide Volume.Valid, Secs, CacheOk, IsChain, Grown, CountOk, HoldsOne, Full, Slot, Place, KeptOutside, BytesOf, Overwrite;
      if fptr % 512 == 0 {
        res, wcnt := WriteAligned(data);
      } else {
        wcnt := WriteInside(data);
        res := FR_OK;
      }
    }

    /** The changes of one turn added to those of the turns before. */
    lemma ChangesAdded(fat0: seq<nat>, fat1: seq<nat>, rest0: seq<Sector>, rest1: seq<Sector>,
                       chain0: seq<nat>, chain1: seq<nat>, secs1: seq<nat>)
      requires fs.Valid() && Placed()
      requires AllClusters(chain1) && secs1 == Secs(fs.database, fs.csize, chain1)
      requires chain1 == [] || IsChain(fat1, chain1)
      requires Grown(fat0, fat1, chain0, chain1) && Grown(fat1, fs.fat, chain1, chain)
      requires KeptOutside(rest0, rest1, secs1) && KeptOutside(rest1, fs.rest, secs)
      ensures Grown(fat0, fs.fat, chain0, chain) && KeptOutside(rest0, fs.rest, secs)
    {
      hide Volume.Valid, Secs, IsChain;
      if chain != [] { ChainDistinct(fs.fat, chain); }
      GrownThen(fat0, fat1, fs.fat, chain0, chain1, chain);
      SecsPrefix(fs.database, fs.csize, chain1, chain);
      assert forall s :: s in secs1 ==> s in secs;
    }

    /** A turn of f_write's loop, and what has been written counted. */
    method WriteOn(data: seq<Byte>) returns (res: FResult, wcnt: nat)
      requires Valid() && 0 < |data| && fptr + |data| < DWORD && err == FR_OK
      modifies this`fptr, this`objsize, this`err, this`clust, this`sclust, this`sect, this`dirty,
               this`chain, this`secs, this`fsec, buf,
               fs`winsect, fs`wflag, fs`raw, fs`fat, fs`rest, fs`freeClst, fs`lastClst, fs`fsiFlag, fs.win, fs.disk
      ensures fs.Valid() && res == err
      ensures res == FR_OK || (res == FR_INT_ERR && HoldsOne(fs.fat)) || (res == FR_DISK_ERR && !fs.disk.healthy)
      ensures res == FR_OK ==>
                && Valid() && wcnt <= |data| && fptr == old(fptr) + wcnt && (wcnt == 0 ==> Full())
                && Content() == Overwrite(old(Content()), old(fptr), data[..wcnt])
                && KeptOutside(old(fs.rest), fs.rest, secs)
                && Grown(old(fs.fat), fs.fat, old(chain), chain)
                && (CountOk(old(fs.freeClst), old(fs.fat)) ==> CountOk(fs.freeClst, fs.fat))
    {
      hide Volume.Valid, Secs, CacheOk, IsChain, Grown, CountOk, Full, Slot, KeptOutside, BytesOf, Overwrite, HoldsOne, Rooted, CursorAt, Placed, Cached;
      res, wcnt := WriteStep(data);
      if res != FR_OK {
        err := res;
        return;
      }
      Advance(wcnt);
    }

    /** f_write's loop, for data that fits below 4 GiB. */
    method WriteLoop(data: seq<Byte>) returns (res: FResult, bw: nat)
      requires Valid() && fptr + |data| < DWORD && err == FR_OK
      modifies this`fptr, this`objsize, this`err, this`clust, this`sclust, this`sect, this`dirty,
               this`chain, this`secs, this`fsec, buf,
               fs`winsect, fs`wflag, fs`raw, fs`fat, fs`rest, fs`freeClst, fs`lastClst, fs`fsiFlag, fs.win, fs.disk
      ensures fs.Valid() && bw <= |data| && res == err
      ensures res == FR_OK || (res == FR_INT_ERR && HoldsOne(fs.fat)) || (res == FR_DISK_ERR && !fs.disk.healthy)
      ensures res == FR_OK ==>
                && Valid() && fptr == old(fptr) + bw
                && Content() == Overwrite(old(Content()), old(fptr), data[..bw])
                && (bw < |data| ==> Full())
                && KeptOutside(old(fs.rest), fs.rest, secs)
                && Grown(old(fs.fat), fs.fat, old(chain), chain)
                && (CountOk(old(fs.freeClst), old(fs.fat)) ==> CountOk(fs.freeClst, fs.fat))
    {
      hide Volume.Valid, Secs, CacheOk, IsChain, Grown, CountOk, Full, Slot, KeptOutside, BytesOf, Overwrite, HoldsOne, Rooted, CursorAt, Placed, Cached;
      res, bw := FR_OK, 0;
      ghost var from, content := fptr, Content();
      ghost var fat0, rest0, chain0 := fs.fat, fs.rest, chain;
      KeptSelf(fs.rest, secs);
      GrownNot(fs.fat, chain);
      OverwriteNone(content, fptr);
      while bw < |data|
        invariant Valid() && err == FR_OK && res == FR_OK
        invariant bw <= |data| && fptr == from + bw && |content| == old(objsize)
        invariant Content() == Overwrite(content, from, data[..bw])
        invariant KeptOutside(rest0, fs.rest, secs) && Grown(fat0, fs.fat, chain0, chain)
        invariant CountOk(old(fs.freeClst), fat0) ==> CountOk(fs.freeClst, fs.fat)
      {
        ghost var fat1, rest1, chain1, secs1 := fs.fat, fs.rest, chain, secs;
        PlacedParts();
        var wcnt;
        res, wcnt := WriteOn(data[bw..]);
        if res != FR_OK { break; }
        ChangesAdded(fat0, fat1, rest0, rest1, chain0, chain1, secs1);
        OverwriteTwice(content, from, data[..bw], data[bw..][..wcnt]);
        assert data[..bw] + data[bw..][..wcnt] == data[..bw + wcnt];
        if wcnt == 0 { break; }
        bw := bw + wcnt;
      }
    }

    lemma PlacedParts()
      requires Placed()
      ensures AllClusters(chain) && secs == Secs(fs.database, fs.csize, chain) && (chain == [] || IsChain(fs.fat, chain))
    {
    }

    /** The file pointer behind what was written, and the file as long as that at least. */
    method Advance(wcnt: nat)
      requires fs.Valid() && buf != fs.win && Rooted() && Placed() && Cached() && CursorAt(fptr + wcnt)
      requires fptr + wcnt <= 512 * |secs| && fptr + wcnt < DWORD && |fsec| == |secs| && fptr <= objsize && err == FR_OK
      modifies this`fptr, this`objsize
      ensures Valid() && fptr == old(fptr) + wcnt && objsize == Max(old(objsize), fptr)
      ensures |old(fsec)| == |old(secs)| && Content() == BytesOf(old(fsec), Max(old(objsize), fptr)) && |Content()| == objsize
    {
      hide Volume.Valid, Secs, CacheOk, IsChain, Slot, BytesOf, Rooted;
      CacheFacts(fsec, secs, fs.rest, sect, dirty, buf[..]);
      fptr := fptr + wcnt;
      objsize := if fptr > objsize then fptr else objsize;
    }

    /** f_write: data over the bytes from the file pointer on, cut only at 4 GiB - 1 or by a full disk. */
    method Write(data: seq<Byte>) returns (res: FResult, bw: nat)
      requires Valid() && |data| < DWORD
      modifies this`fptr, this`objsize, this`modified, this`err, this`clust, this`sclust, this`sect, this`dirty,
               this`chain, this`secs, this`fsec, buf,
               fs`winsect, fs`wflag, fs`raw, fs`fat, fs`rest, fs`freeClst, fs`lastClst, fs`fsiFlag, fs.win, fs.disk
      ensures fs.Valid() && bw <= |data| && old(fptr) + bw < DWORD
      ensures res == FR_OK ==>
                && Valid() && fptr == old(fptr) + bw && modified
                && Content() == Overwrite(old(Content()), old(fptr), data[..bw])
                && (bw == |data| || old(fptr) + bw == DWORD - 1 || Full())
                && (bw < |data| && old(fptr) + |data| < DWORD ==> Full())
                && KeptOutside(old(fs.rest), fs.rest, secs)
                && Grown(old(fs.fat), fs.fat, old(chain), chain)
                && (CountOk(old(fs.freeClst), old(fs.fat)) ==> CountOk(fs.freeClst, fs.fat))
      ensures res == FR_OK ==>
                Holding(old(Content()), old(fptr), data[..bw], Content())
      ensures res == FR_OK && CountOk(old(fs.freeClst), old(fs.fat)) && bw < |data| && old(fptr) + bw < DWORD - 1 ==>
                forall c :: 2 <= c < |fs.fat| ==> fs.fat[c] != 0
      ensures old(err) != FR_OK ==> res == old(err) && bw == 0 && unchanged(this) && unchanged(fs) && unchanged(buf)
      ensures old(err) == FR_OK && !writable ==> res == FR_DENIED && bw == 0 && unchanged(this) && unchanged(fs) && unchanged(buf)
      ensures old(err) == FR_OK && writable ==>
                res == err && (res == FR_OK || (res == FR_INT_ERR && HoldsOne(fs.fat)) || (res == FR_DISK_ERR && !fs.disk.healthy))
    {
      hide Volume.Valid, Secs, CacheOk, IsChain, Grown, CountOk, Full, KeptOutside, BytesOf, Overwrite, Holding, HoldsOne, Rooted, CursorAt, Placed, Cached;
      if err != FR_OK { return err, 0; }
      if !writable { return FR_DENIED, 0; }
      var btw: nat := |data|;
      if (fptr + btw) % DWORD < fptr {
        btw := DWORD - 1 - fptr;
      }
      ghost var content, from := Content(), fptr;
      res, bw := WriteLoop(data[..btw]);
      assert data[..btw][..bw] == data[..bw];
      if res == FR_OK {
        modified := true;
        OverwriteHolds(content, from, data[..bw]);
        if Full() && CountOk(fs.freeClst, fs.fat) { FullMeans(); }
      }
    }

    /** With a true or unknown count the disk is full exactly if no cluster is free. */
    lemma FullMeans()
      requires fs.Valid() && CountOk(fs.freeClst, fs.fat)
      ensures Full() <==> forall c :: 2 <= c < |fs.fat| ==> fs.fat[c] != 0
    {
      hide Volume.Valid;
      FreeFromNone(fs.fat, 2);
    }

    /** Where the bytes of the file lie: byte b of sector r of its cluster q is on the device in that place, or in the
        cache if that holds the sector and is dirty. */
    lemma ByteOnDevice(q: nat, r: nat, b: nat) returns (i: nat, s: nat)
      requires Valid() && q < |chain| && r < fs.csize && b < 512 && 512 * (fs.csize * q + r) + b < objsize
      ensures i == 512 * (fs.csize * q + r) + b < |Content()| && chain[q] >= 2 && s == fs.database + fs.csize * (chain[q] - 2) + r
      ensures buf.Length == 512 && s < |fs.rest| && |fs.rest[s]| == 512
      ensures Content()[i] == if dirty && sect == s then buf[b] else fs.rest[s][b]
    {
      hide Volume.Valid;
      i := 512 * (fs.csize * q + r) + b;
      RunAt(fs.database, fs.csize, chain, q, r, 0);
      s := secs[fs.csize * q + r];
      DivUnique(i, 512, fs.csize * q + r, b);
    }

    // ----- f_lseek -----

    /** One step along the chain: from cluster q to cluster q + 1, stretching the chain in write mode. */
    method SeekNext(clst: nat, ghost q: nat) returns (res: FResult, next: nat)
      requires fs.Valid() && Rooted() && Placed() && Cached() && buf != fs.win
      requires q < |chain| && clst == clust == chain[q] && (writable || q + 1 < |chain|)
      modifies this`clust, this`chain, this`secs, this`fsec,
               fs`winsect, fs`wflag, fs`raw, fs`fat, fs`freeClst, fs`lastClst, fs`fsiFlag, fs.win, fs.disk
      ensures fs.Valid()
      ensures res == FR_OK || (res == FR_INT_ERR && HoldsOne(fs.fat)) || (res == FR_DISK_ERR && !fs.disk.healthy)
      ensures res == FR_OK ==>
                && Rooted() && Placed() && Cached() && old(secs) <= secs && old(fsec) <= fsec
                && Grown(old(fs.fat), fs.fat, old(chain), chain)
                && (CountOk(old(fs.freeClst), old(fs.fat)) ==> CountOk(fs.freeClst, fs.fat))
      ensures res == FR_OK && next != 0 ==>
                q + 1 < |chain| && next == clust == chain[q + 1] && |chain| == Max(|old(chain)|, q + 2)
      ensures res == FR_OK && next == 0 ==> Full() && writable && q + 1 == |chain| && clust == old(clust) && chain == old(chain)
    {
      hide Volume.Valid, Secs, CacheOk, IsChain, Grown, CountOk, Full, HoldsOne;
      GrownNot(fs.fat, chain);
      MemberStatus(fs.fat, chain, q);
      if q + 1 < |chain| { MemberStatus(fs.fat, chain, q + 1); }
      SecsReal(fs, chain);
      res := FR_OK;
      if writable {
        next := Extend(clst, q + 1);
        if next == 0 { return; }
      } else {
        next := fs.GetFat(clst);
      }
      if next == DISK_ERROR { return FR_DISK_ERR, next; }
      if next <= 1 || next >= fs.nFatent { return FR_INT_ERR, next; }
      clust := next;
    }

    /** The cluster following loop: from the start of cluster q0, n bytes on. left == 0 means the disk is full. */
    method SeekFollow(n: nat, ghost q0: nat) returns (res: FResult, left: nat, clst: nat, ghost q: nat)
      requires fs.Valid() && Rooted() && Placed() && Cached() && buf != fs.win
      requires q0 < |chain| && clust == chain[q0] && fptr == 512 * Start(fs.csize, q0)
      requires 0 < n && (!writable ==> fptr + n <= objsize)
      modifies this`fptr, this`clust, this`chain, this`secs, this`fsec,
               fs`winsect, fs`wflag, fs`raw, fs`fat, fs`freeClst, fs`lastClst, fs`fsiFlag, fs.win, fs.disk
      ensures fs.Valid()
      ensures res == FR_OK || (res == FR_INT_ERR && HoldsOne(fs.fat)) || (res == FR_DISK_ERR && !fs.disk.healthy)
      ensures res == FR_OK ==>
                && Rooted() && Placed() && Cached() && old(secs) <= secs && old(fsec) <= fsec
                && Grown(old(fs.fat), fs.fat, old(chain), chain)
                && (CountOk(old(fs.freeClst), old(fs.fat)) ==> CountOk(fs.freeClst, fs.fat))
                && fptr == 512 * Start(fs.csize, q) && |chain| == Max(|old(chain)|, if left == 0 then q else q + 1) && q >= q0
      ensures res == FR_OK && left > 0 ==>
                && q < |chain| && clst == clust == chain[q] && left <= 512 * fs.csize
                && fptr + left == old(fptr) + n
      ensures res == FR_OK && left == 0 ==>
                writable && Full() && 0 < q == |chain| && clust == chain[q - 1] && fptr < old(fptr) + n
    {
      hide Volume.Valid, Secs, CacheOk, IsChain, Grown, CountOk, Full, HoldsOne, Start, Rooted;
      GrownNot(fs.fat, chain);
      var bcs := fs.csize * 512;
      res, left, clst, q := FR_OK, n, clust, q0;
      ghost var fat0, chain0 := fs.fat, chain;
      while left > bcs
        invariant res == FR_OK && fs.Valid() && Rooted() && Placed() && Cached()
        invariant old(secs) <= secs && old(fsec) <= fsec && Grown(fat0, fs.fat, chain0, chain)
        invariant CountOk(old(fs.freeClst), fat0) ==> CountOk(fs.freeClst, fs.fat)
        invariant q < |chain| && clst == clust == chain[q] && fptr == 512 * Start(fs.csize, q)
        invariant |chain| == Max(|chain0|, q + 1) && q >= q0
        invariant left > 0 && fptr + left == old(fptr) + n
        decreases left
      {
        left, fptr := left - bcs, fptr + bcs;
        StartNext(fs.csize, q);
        if !writable {
          StartInside(fs.csize, q + 1, |chain|);
        }
        ghost var fat1, chain1 := fs.fat, chain;
        res, clst := SeekNext(clst, q);
        if res != FR_OK { return; }
        ChainGrowing(fat0, fat1, chain0, chain1);
        q := q + 1;
        if clst == 0 {
          left := 0;
          break;
        }
      }
    }

    lemma ChainGrowing(fat0: seq<nat>, fat1: seq<nat>, chain0: seq<nat>, chain1: seq<nat>)
      requires Placed() && (chain1 == [] || IsChain(fat1, chain1))
      requires Grown(fat0, fat1, chain0, chain1) && Grown(fat1, fs.fat, chain1, chain)
      ensures Grown(fat0, fs.fat, chain0, chain)
    {
      hide Secs, IsChain;
      if chain != [] { ChainDistinct(fs.fat, chain); }
      GrownThen(fat0, fat1, fs.fat, chain0, chain1, chain);
    }

    /** The number of clusters n bytes fill. */
    function ClustersFor(n: nat): nat
      requires fs.csize > 0
    {
      if n == 0 then 0 else Slot((n - 1) / 512, fs.csize) + 1
    }

    /** Where a seek to ofs > 0 starts: at the current cluster if that is not past the target, else at the first one,
        which a write-mode seek on an empty chain allocates; 0 when the disk is full. */
    method SeekStart(ofs: nat) returns (res: FResult, clst: nat, ghost q: nat)
      requires Valid() && 0 < ofs && (!writable ==> ofs <= objsize)
      modifies this`fptr, this`clust, this`sclust, this`chain, this`secs, this`fsec,
               fs`winsect, fs`wflag, fs`raw, fs`fat, fs`freeClst, fs`lastClst, fs`fsiFlag, fs.win, fs.disk
      ensures fs.Valid()
      ensures res == FR_OK || (res == FR_INT_ERR && HoldsOne(fs.fat)) || (res == FR_DISK_ERR && !fs.disk.healthy)
      ensures res == FR_OK ==>
                && Rooted() && Placed() && Cached() && old(secs) <= secs && old(fsec) <= fsec
                && Grown(old(fs.fat), fs.fat, old(chain), chain)
                && (CountOk(old(fs.freeClst), old(fs.fat)) ==> CountOk(fs.freeClst, fs.fat))
                && fptr < ofs
      ensures res == FR_OK && clst == 0 ==> Full() && writable && fptr == 0 && chain == old(chain) == []
      ensures res == FR_OK && clst != 0 ==>
                q < |chain| && clst == clust == chain[q] && fptr == 512 * Start(fs.csize, q) && |chain| == Max(|old(chain)|, q + 1)
    {
      hide Volume.Valid, Secs, CacheOk, IsChain, Grown, CountOk, Full, HoldsOne, Start, Slot;
      GrownNot(fs.fat, chain);
      if chain != [] { MemberStatus(fs.fat, chain, 0); }
      res, q := FR_OK, 0;
      StartNext(fs.csize, 0);
      var bcs := fs.csize * 512;
      var ifptr := fptr;
      fptr := 0;
      if ifptr > 0 && (ofs - 1) / bcs >= (ifptr - 1) / bcs {
        q := Slot((ifptr - 1) / 512, fs.csize);
        ClusterOfByte(fs.csize, ifptr - 1, ofs - 1);
        fptr := ifptr - 1 - (ifptr - 1) % bcs;
        clst := clust;
      } else {
        clst := sclust;
        if clst == 0 {
          clst := Extend(0, 0);
          if clst == 1 { return FR_INT_ERR, clst, q; }
          if clst == DISK_ERROR { return FR_DISK_ERR, clst, q; }
          sclust := clst;
        }
        clust := clst;
      }
    }

    /** The last step of a seek: left bytes into cluster q, or at the end of the chain. */
    method SeekLand(clst: nat, ghost q: nat, left: nat) returns (nsect: nat)
      requires fs.Valid() && Placed() && fptr == 512 * Start(fs.csize, q)
      requires if left == 0 then q == |chain| && q > 0 && clust == chain[q - 1]
               else q < |chain| && left <= 512 * fs.csize && clst == clust == chain[q]
      modifies this`fptr
      ensures fptr == old(fptr) + left && 0 < fptr <= 512 * |secs|
      ensures Slot((fptr - 1) / 512, fs.csize) < |chain| && clust == chain[Slot((fptr - 1) / 512, fs.csize)]
      ensures fptr % 512 != 0 ==> fptr / 512 < |secs| && nsect == secs[fptr / 512]
      ensures left > 0 ==> ClustersFor(fptr) == q + 1
    {
      hide Volume.Valid, Secs, IsChain, Start, Slot, ClustersFor;
      nsect := 0;
      SeekEnd(q, left);
      fptr := fptr + left;
      if left % 512 != 0 {
        MemberStatus(fs.fat, chain, q);
        nsect := fs.Clst2Sect(clst); // not 0, since clst is a cluster of the chain
        nsect := nsect + left / 512;
      }
    }

    /** The seek itself, to a place the open mode allows. */
    method SeekTo(ofs: nat) returns (res: FResult, nsect: nat)
      requires Valid() && 0 < ofs && (!writable ==> ofs <= objsize)
      modifies this`fptr, this`clust, this`sclust, this`chain, this`secs, this`fsec,
               fs`winsect, fs`wflag, fs`raw, fs`fat, fs`freeClst, fs`lastClst, fs`fsiFlag, fs.win, fs.disk
      ensures fs.Valid()
      ensures res == FR_OK || (res == FR_INT_ERR && HoldsOne(fs.fat)) || (res == FR_DISK_ERR && !fs.disk.healthy)
      ensures res == FR_OK ==>
                && Rooted() && Placed() && Cached() && old(secs) <= secs && old(fsec) <= fsec
                && Grown(old(fs.fat), fs.fat, old(chain), chain)
                && (CountOk(old(fs.freeClst), old(fs.fat)) ==> CountOk(fs.freeClst, fs.fat))
                && Sought(ofs, old(|chain|)) && fptr <= 512 * |secs|
                && (fptr > 0 ==> Slot((fptr - 1) / 512, fs.csize) < |chain| && clust == chain[Slot((fptr - 1) / 512, fs.csize)])
                && (fptr % 512 != 0 ==> fptr / 512 < |secs| && nsect == secs[fptr / 512])
    {
      hide Volume.Valid, Secs, CacheOk, IsChain, Grown, CountOk, Full, HoldsOne, Start, Rooted, Slot, ClustersFor, Base;
      ghost var fat0, chain0 := fs.fat, chain;
      nsect := 0;
      var clst;
      ghost var q;
      res, clst, q := SeekStart(ofs);
      if res != FR_OK { return; }
      if clst == 0 {
        StartNext(fs.csize, 0);
        return;
      }
      ghost var fat1, chain1 := fs.fat, chain;
      var left;
      res, left, clst, q := SeekFollow(ofs - fptr, q);
      if res != FR_OK { return; }
      ChainGrowing(fat0, fat1, chain0, chain1);
      nsect := SeekLand(clst, q, left);
    }

    /** The cursor is at ofs with just the clusters up to it; or the disk is full and the cursor at the end of the chain. */
    ghost predicate Sought(ofs: nat, clusters: nat)
      requires fs.csize > 0
      reads this`fptr, this`chain, fs`fat, fs`freeClst
    {
      || (fptr == ofs && |chain| == Max(clusters, ClustersFor(ofs)))
      || (writable && fptr < ofs && Full() && |chain| >= clusters && fptr == 512 * Start(fs.csize, |chain|))
    }

    /** Where left bytes into cluster q, or the end of the chain, lie. */
    lemma SeekEnd(q: nat, left: nat)
      requires Placed()
      requires if left == 0 then q == |chain| && q > 0 else q < |chain| && left <= 512 * fs.csize
      ensures 512 * Start(fs.csize, q) + left <= 512 * |secs|
      ensures var p := 512 * Start(fs.csize, q) + left;
              && p > 0 && Slot((p - 1) / 512, fs.csize) == (if left == 0 then q - 1 else q)
              && (p % 512 != 0 ==>
                    && left % 512 != 0 && p / 512 < |secs|
                    && secs[p / 512] == Base(fs.database, fs.csize, chain[q]) + left / 512)
              && p % 512 == left % 512
              && (left > 0 ==> ClustersFor(p) == q + 1)
    {
      hide Secs, IsChain, Base, Slot;
      var c := if left == 0 then q - 1 else q;
      var d := if left == 0 then 512 * fs.csize - 1 else left - 1;
      DivUnique(512 * (Start(fs.csize, q) + left / 512) + left % 512, 512, Start(fs.csize, q) + left / 512, left % 512);
      InCluster(fs.csize, c, d);
      StartNext(fs.csize, c);
      StartFits(fs.csize, c, |chain|);
      assert |secs| == fs.csize * |chain|;
      if left % 512 != 0 {
        RunAt(fs.database, fs.csize, chain, q, left / 512, 0);
      }
    }

    /** The end of a seek: the file may have grown, and off a sector boundary the cache takes the cursor's sector. */
    method SeekFinish(nsect: nat) returns (ok: bool)
      requires fs.Valid() && buf != fs.win && Rooted() && Placed() && Cached() && fptr <= 512 * |secs| && fptr < DWORD
      requires fptr > 0 ==> Slot((fptr - 1) / 512, fs.csize) < |chain| && clust == chain[Slot((fptr - 1) / 512, fs.csize)]
      requires fptr % 512 != 0 ==> fptr / 512 < |secs| && nsect == secs[fptr / 512]
      modifies this`objsize, this`modified, this`dirty, this`sect, buf, fs.disk, fs`rest
      ensures fs.Valid() && (fs.disk.healthy ==> ok)
      ensures objsize == Max(old(objsize), fptr) && (modified <==> old(modified) || objsize != old(objsize))
      ensures ok ==> Valid() && |Content()| == objsize && Content()[..old(objsize)] == old(Content())
                     && KeptOutside(old(fs.rest), fs.rest, secs)
    {
      hide Volume.Valid, Secs, CacheOk, IsChain, KeptOutside, BytesOf, Rooted, Slot;
      KeptSelf(fs.rest, secs);
      CacheFacts(fsec, secs, fs.rest, sect, dirty, buf[..]);
      BytesLonger(fsec, objsize, Max(objsize, fptr));
      ok := true;
      if fptr > objsize {
        objsize := fptr;
        modified := true;
      }
      if fptr % 512 != 0 {
        ok := LoadCache(nsect, fptr / 512);
      }
    }

    /** That is: at the target, or at the end of a chain that cannot grow; and no cluster more than needed was added. */
    lemma SoughtMeans(ofs: nat, clusters: nat)
      requires fs.csize > 0 && Sought(ofs, clusters)
      ensures fptr == ofs || (writable && fptr < ofs && Full() && fptr == 512 * (fs.csize * |chain|))
      ensures clusters <= |chain| && (|chain| > clusters ==> 512 * (fs.csize * (|chain| - 1)) < fptr)
    {
    }

    /** f_lseek: to ofs, clipped to the end of the file in read mode; in write mode the chain is stretched as needed. */
    method Lseek(ofs: nat) returns (res: FResult)
      requires Valid() && ofs < DWORD
      modifies this`fptr, this`objsize, this`modified, this`err, this`clust, this`sclust, this`sect, this`dirty,
               this`chain, this`secs, this`fsec, buf,
               fs`winsect, fs`wflag, fs`raw, fs`fat, fs`rest, fs`freeClst, fs`lastClst, fs`fsiFlag, fs.win, fs.disk
      ensures fs.Valid()
      ensures old(err) != FR_OK ==> res == old(err) && unchanged(this) && unchanged(fs) && unchanged(buf)
      ensures old(err) == FR_OK ==>
                res == err && (res == FR_OK || (res == FR_INT_ERR && HoldsOne(fs.fat)) || (res == FR_DISK_ERR && !fs.disk.healthy))
      ensures res == FR_OK ==>
                && Valid()
                && Sought(if !writable && ofs > old(objsize) then old(objsize) else ofs, old(|chain|))
                && objsize == Max(old(objsize), fptr) && |Content()| == objsize
                && Content()[..old(objsize)] == old(Content())
                && (modified <==> old(modified) || objsize != old(objsize))
                && KeptOutside(old(fs.rest), fs.rest, secs)
                && Grown(old(fs.fat), fs.fat, old(chain), chain)
                && (CountOk(old(fs.freeClst), old(fs.fat)) ==> CountOk(fs.freeClst, fs.fat))
    {
      hide Volume.Valid, Secs, CacheOk, IsChain, Grown, CountOk, Full, KeptOutside, BytesOf, HoldsOne, Rooted, Start, Slot, Placed, Cached, CursorAt;
      if err != FR_OK { return err; }
      var at := ofs;
      if at > objsize && !writable { at := objsize; }
      ghost var fsec0 := fsec;
      CacheSizes();
      GrownNot(fs.fat, chain);
      res := FR_OK;
      var nsect := 0;
      if at > 0 {
        res, nsect := SeekTo(at);
        if res != FR_OK {
          err := res;
          return;
        }
      } else {
        fptr := 0;
      }
      CacheSizes();
      BytesPrefix(fsec0, fsec, objsize);
      var ok := SeekFinish(nsect);
      if !ok {
        res, err := FR_DISK_ERR, FR_DISK_ERR;
      }
    }
  }
}
