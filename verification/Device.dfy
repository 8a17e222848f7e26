/** The storage device behind disk_read and disk_write: an array of sectors whose requests may fail. */
module Device {
  import opened Bytes

  /** The FRESULT codes the modelled functions return. */
  datatype FResult = FR_OK | FR_DISK_ERR | FR_INT_ERR | FR_DENIED | FR_NOT_ENOUGH_CORE

  /** get_fat's and create_chain's in-band mark for a failed request. */
  const DISK_ERROR: nat := 0xFFFF_FFFF

  /** Equal everywhere but in the sectors lo..hi. */
  ghost predicate SameOutside(a: seq<Sector>, b: seq<Sector>, lo: nat, hi: nat) {
    |a| == |b| && forall s :: 0 <= s < |a| && !(lo <= s < hi) ==> a[s] == b[s]
  }

  /** The bytes outside lo..hi are the same. */
  ghost predicate SameAround(a: seq<Byte>, b: seq<Byte>, lo: nat, hi: nat) {
    |a| == |b| && forall i :: 0 <= i < |a| && !(lo <= i < hi) ==> a[i] == b[i]
  }

  /** bytes[at..at + 512 * n] are the n sectors from lba. */
  ghost predicate Holds(bytes: seq<Byte>, at: nat, sectors: seq<Sector>, lba: nat, n: nat)
    requires at + 512 * n <= |bytes| && lba + n <= |sectors|
    requires forall s :: 0 <= s < |sectors| ==> |sectors[s]| == 512
  {
    forall i :: at <= i < at + 512 * n ==> bytes[i] == sectors[lba + (i - at) / 512][(i - at) % 512]
  }

  class Disk {
    var sectors: seq<Sector>

    /** A healthy device fails no request inside its sectors. */
    const healthy: bool

    /** A sector that can never be written, if it is one of the device's. */
    const dead: nat

    ghost predicate Valid()
      reads this
    {
      && |sectors| < DWORD
      && (healthy ==> dead >= |sectors|)
      && forall s :: 0 <= s < |sectors| ==> |sectors[s]| == 512
    }

    constructor (image: seq<Sector>, healthy: bool, dead: nat)
      requires |image| < DWORD && (healthy ==> dead >= |image|)
      requires forall s :: 0 <= s < |image| ==> |image[s]| == 512
      ensures Valid() && sectors == image && this.healthy == healthy && this.dead == dead
    {
      sectors := image;
      this.healthy := healthy;
      this.dead := dead;
    }

    /** Copies n sectors to buf[at..]; after a failure the target bytes may be anything. */
    method Read(buf: array<Byte>, at: nat, lba: nat, n: nat) returns (ok: bool)
      requires Valid()
      requires at + 512 * n <= buf.Length
      modifies buf
      ensures ok ==> lba + n <= |sectors| && Holds(buf[..], at, sectors, lba, n)
      ensures SameAround(old(buf[..]), buf[..], at, at + 512 * n)
      ensures ok && n == 1 ==> buf[at..at + 512] == sectors[lba]
      ensures healthy && lba + n <= |sectors| ==> ok
    {
      var fault: bool := *;
      ok := lba + n <= |sectors| && (healthy || !fault);
      if ok {
        forall i | at <= i < at + 512 * n {
          buf[i] := sectors[lba + (i - at) / 512][(i - at) % 512];
        }
      }
    }

    /** Stores src into n sectors; a failure may spoil those sectors but no other. */
    method Write(src: seq<Byte>, lba: nat, n: nat) returns (ok: bool)
      requires Valid()
      requires |src| == 512 * n
      modifies this
      ensures Valid()
      ensures SameOutside(old(sectors), sectors, lba, lba + n)
      ensures ok ==> lba + n <= |sectors| && Holds(src, 0, sectors, lba, n)
      ensures ok && n == 1 ==> sectors == old(sectors)[lba := src]
      ensures healthy && lba + n <= |sectors| ==> ok
      ensures lba <= dead < lba + n ==> !ok
    {
      var fault: bool := *;
      ok := lba + n <= |sectors| && (healthy || !fault) && !(lba <= dead < lba + n);
      if ok {
        sectors := seq(|sectors|, s requires 0 <= s < |sectors| reads this =>
          if lba <= s < lba + n then src[512 * (s - lba)..512 * (s - lba) + 512] else sectors[s]);
        if n == 1 {
          assert src[0..512] == src;
          assert sectors == old(sectors)[lba := src];
        }
      }
    }
  }
}
