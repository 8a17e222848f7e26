/** Where the sectors and bytes of a cluster chain lie. */
module FileLayout {
  import opened Bytes
  import opened FatChain

  /** The cluster sizes in sectors that a boot sector may give. */
  predicate IsClusterSize(n: nat) {
    n == 1 || n == 2 || n == 4 || n == 8 || n == 16 || n == 32 || n == 64 || n == 128
  }

  /** The last byte of whole sectors, and of a piece of one. */
  lemma LastSector(k: nat, cc: nat)
    requires cc > 0
    ensures (512 * k + 512 * cc - 1) / 512 == k + cc - 1 && (512 * k + 512 * cc) % 512 == 0
  {
    DivUnique(512 * k + 512 * cc, 512, k + cc, 0);
    DivUnique(512 * k + 512 * cc - 1, 512, k + cc - 1, 511);
  }

  lemma SectorBefore(p: nat)
    requires p % 512 != 0
    ensures (p - 1) / 512 == p / 512
  {
    assert p == 512 * (p / 512) + p % 512;
    DivUnique(p - 1, 512, p / 512, p % 512 - 1);
  }

  lemma PieceSector(p: nat, n: nat)
    requires 0 < n <= 512 - p % 512
    ensures (p + n - 1) / 512 == p / 512
  {
    assert p == 512 * (p / 512) + p % 512;
    DivUnique(p + n - 1, 512, p / 512, p % 512 + n - 1);
  }

  lemma DivBelow(k: nat, n: nat, m: nat)
    requires n > 0 && k < n * m
    ensures k / n < m
  {
    if m < k / n {
      MulStep(n, m, k / n);
    }
  }

  /** The step before k stays in k's block of n unless k starts it. */
  lemma DivBefore(k: nat, n: nat)
    requires n > 0 && k > 0
    ensures (k - 1) / n == if k % n == 0 then k / n - 1 else k / n
  {
    if k % n == 0 {
      assert k == n * (k / n) && k / n > 0;
      assert k - 1 == n * (k / n - 1) + (n - 1);
      DivUnique(k - 1, n, k / n - 1, n - 1);
    } else {
      DivUnique(k - 1, n, k / n, k % n - 1);
    }
  }

  /** The cluster, counted along the chain, of sector k of a file. */
  function Slot(k: nat, csize: nat): nat
    requires csize > 0
  {
    k / csize
  }

  /** The place of sector k of a file in its cluster. */
  function Place(k: nat, csize: nat): (r: nat)
    requires csize > 0
    ensures r < csize
  {
    k % csize
  }

  /** clst2sect for a cluster in range. */
  function Base(database: nat, csize: nat, c: nat): (r: nat)
    requires c >= 2
    ensures r >= database
  {
    database + csize * (c - 2)
  }

  lemma BaseApart(database: nat, csize: nat, c: nat, i: nat, d: nat, j: nat)
    requires c >= 2 && d >= 2 && i < csize && j < csize
    requires Base(database, csize, c) + i == Base(database, csize, d) + j
    ensures c == d && i == j
  {
    if c < d {
      MulStep(csize, c - 2, d - 2);
    } else if d < c {
      MulStep(csize, d - 2, c - 2);
    }
  }

  ghost predicate AllClusters(chain: seq<nat>) {
    forall q :: 0 <= q < |chain| ==> chain[q] >= 2
  }

  /** The sectors of a chain in file order. */
  ghost function Secs(database: nat, csize: nat, chain: seq<nat>): (secs: seq<nat>)
    requires csize > 0 && AllClusters(chain)
    ensures |secs| == csize * |chain|
  {
    seq(csize * |chain|, k requires 0 <= k < csize * |chain| =>
      DivBelow(k, csize, |chain|); Base(database, csize, chain[k / csize]) + k % csize)
  }

  lemma SecAt(database: nat, csize: nat, chain: seq<nat>, k: nat)
    requires csize > 0 && AllClusters(chain) && k < csize * |chain|
    ensures Slot(k, csize) < |chain|
    ensures Secs(database, csize, chain)[k] == Base(database, csize, chain[Slot(k, csize)]) + Place(k, csize)
  {
    DivBelow(k, csize, |chain|);
  }

  /** SecAt without division: k is sector r of cluster q. */
  lemma SecSplit(database: nat, csize: nat, chain: seq<nat>, k: nat) returns (q: nat, r: nat)
    requires csize > 0 && AllClusters(chain) && k < csize * |chain|
    ensures q < |chain| && r < csize && k == csize * q + r
    ensures Secs(database, csize, chain)[k] == Base(database, csize, chain[q]) + r
  {
    SecAt(database, csize, chain, k);
    q, r := k / csize, k % csize;
  }

  lemma DistinctAt(s: seq<nat>, i: nat, j: nat)
    requires Distinct(s) && i < |s| && j < |s| && s[i] == s[j]
    ensures i == j
  {
  }

  lemma SecsDistinct(database: nat, csize: nat, chain: seq<nat>, i: nat, j: nat)
    requires csize > 0 && AllClusters(chain) && Distinct(chain)
    requires i < csize * |chain| && j < csize * |chain|
    requires Secs(database, csize, chain)[i] == Secs(database, csize, chain)[j]
    ensures i == j
  {
    hide Secs, Distinct;
    var p, a := SecSplit(database, csize, chain, i);
    var q, b := SecSplit(database, csize, chain, j);
    BaseApart(database, csize, chain[p], a, chain[q], b);
    DistinctAt(chain, p, q);
  }

  /** Two chains with no cluster in common have no sector in common. */
  lemma SecsDisjoint(database: nat, csize: nat, s: seq<nat>, t: seq<nat>, i: nat, j: nat)
    requires csize > 0 && AllClusters(s) && AllClusters(t) && Disjoint(s, t)
    requires i < csize * |s| && j < csize * |t|
    ensures Secs(database, csize, s)[i] != Secs(database, csize, t)[j]
  {
    hide Secs;
    var p, a := SecSplit(database, csize, s, i);
    var q, b := SecSplit(database, csize, t, j);
    assert s[p] in s && s[p] != t[q];
    if Secs(database, csize, s)[i] == Secs(database, csize, t)[j] {
      BaseApart(database, csize, s[p], a, t[q], b);
    }
  }

  /** Growing a chain appends its sectors. */
  lemma SecsPrefix(database: nat, csize: nat, s: seq<nat>, t: seq<nat>)
    requires csize > 0 && AllClusters(t) && s <= t
    ensures AllClusters(s) && csize * |s| <= csize * |t|
    ensures Secs(database, csize, s) == Secs(database, csize, t)[..csize * |s|]
  {
    assert csize * |s| <= csize * |t|;
    forall k | 0 <= k < csize * |s|
      ensures Secs(database, csize, s)[k] == Secs(database, csize, t)[k]
    {
      SecAt(database, csize, s, k);
      SecAt(database, csize, t, k);
    }
  }

  lemma SecsInside(database: nat, csize: nat, chain: seq<nat>, n: nat, k: nat)
    requires csize > 0 && AllClusters(chain) && (forall q :: 0 <= q < |chain| ==> chain[q] < n)
    requires k < csize * |chain|
    ensures n > 2 && database <= Secs(database, csize, chain)[k] < database + csize * (n - 2)
  {
    SecAt(database, csize, chain, k);
    MulStep(csize, chain[k / csize] - 2, n - 2);
  }

  /** Sectors k..k + cc of the file are consecutive sectors of the device. */
  ghost predicate Contiguous(secs: seq<nat>, k: nat, cc: nat) {
    k + cc <= |secs| && forall i :: k <= i < k + cc ==> secs[i] == secs[k] + (i - k)
  }

  lemma RunAt(database: nat, csize: nat, chain: seq<nat>, q: nat, r: nat, j: nat)
    requires csize > 0 && AllClusters(chain) && q < |chain| && r + j < csize
    ensures csize * q + r + j < csize * |chain| && (csize * q + r + j) / csize == q
    ensures Secs(database, csize, chain)[csize * q + r + j] == Base(database, csize, chain[q]) + r + j
  {
    MulStep(csize, q, |chain|);
    DivUnique(csize * q + r + j, csize, q, r + j);
    SecAt(database, csize, chain, csize * q + r + j);
  }

  /** From sector k on, a run that stays in k's cluster is contiguous on the device. */
  lemma RunInCluster(database: nat, csize: nat, chain: seq<nat>, k: nat, cc: nat)
    requires csize > 0 && AllClusters(chain) && k < csize * |chain|
    requires cc >= 1 && Place(k, csize) + cc <= csize
    ensures Slot(k + cc - 1, csize) == Slot(k, csize)
    ensures Contiguous(Secs(database, csize, chain), k, cc)
  {
    hide Secs, Base;
    var q, r := k / csize, k % csize;
    DivBelow(k, csize, |chain|);
    assert k == csize * q + r;
    RunAt(database, csize, chain, q, r, cc - 1);
    RunAt(database, csize, chain, q, r, 0);
    forall i | k <= i < k + cc
      ensures i < csize * |chain| && Secs(database, csize, chain)[i] == Secs(database, csize, chain)[k] + (i - k)
    {
      RunAt(database, csize, chain, q, r, i - k);
    }
  }

  /** The bytes of a file: its first size bytes in its sectors. */
  ghost function BytesOf(fsec: seq<Sector>, size: nat): (c: seq<Byte>)
    requires size <= 512 * |fsec|
    requires forall k :: 0 <= k < |fsec| ==> |fsec[k]| == 512
    ensures |c| == size
    ensures forall i :: 0 <= i < size ==> c[i] == fsec[i / 512][i % 512]
  {
    seq(size, i requires 0 <= i < size => fsec[i / 512][i % 512])
  }

  /** A piece inside one sector. */
  lemma PartBytes(fsec: seq<Sector>, size: nat, p: nat, n: nat)
    requires size <= 512 * |fsec| && p % 512 + n <= 512 && p + n <= size && n > 0
    requires forall k :: 0 <= k < |fsec| ==> |fsec[k]| == 512
    ensures p / 512 < |fsec| && BytesOf(fsec, size)[p..p + n] == fsec[p / 512][p % 512..p % 512 + n]
  {
    forall i | p <= i < p + n
      ensures i / 512 == p / 512 && i % 512 == p % 512 + (i - p)
    {
    }
  }

  /** content with data written over it from at on, longer if data reaches past its end. */
  ghost function Overwrite(content: seq<Byte>, at: nat, data: seq<Byte>): (r: seq<Byte>)
    requires at <= |content|
    ensures |r| == if at + |data| <= |content| then |content| else at + |data|
  {
    content[..at] + data + if at + |data| <= |content| then content[at + |data|..] else []
  }

  /** b is a but for data from at on, byte by byte. */
  ghost predicate Holding(a: seq<Byte>, at: nat, data: seq<Byte>, b: seq<Byte>) {
    && |b| == (if |a| < at + |data| then at + |data| else |a|)
    && (forall i :: 0 <= i < |data| ==> b[at + i] == data[i])
    && (forall i :: 0 <= i < |a| && !(at <= i < at + |data|) ==> b[i] == a[i])
  }

  lemma OverwriteHolds(content: seq<Byte>, at: nat, data: seq<Byte>)
    requires at <= |content|
    ensures Holding(content, at, data, Overwrite(content, at, data))
  {
  }

  lemma OverwriteNone(content: seq<Byte>, at: nat)
    requires at <= |content|
    ensures Overwrite(content, at, []) == content
  {
  }

  lemma OverwriteTwice(content: seq<Byte>, at: nat, d: seq<Byte>, e: seq<Byte>)
    requires at <= |content|
    ensures Overwrite(Overwrite(content, at, d), at + |d|, e) == Overwrite(content, at, d + e)
  {
  }

  /** Where the sector boundary before sector k lies in a chain: in cluster q, r sectors in, after cluster p;
      at the end of the chain q is one past its last cluster. */
  lemma Boundary(csize: nat, chain: seq<nat>, k: nat) returns (q: nat, r: nat, p: nat)
    requires csize > 0 && k <= csize * |chain|
    ensures q == Slot(k, csize) <= |chain| && r == Place(k, csize)
    ensures q == |chain| <==> k == csize * |chain|
    ensures q == |chain| ==> r == 0
    ensures k > 0 ==> p == Slot(k - 1, csize) < |chain| && p == if r == 0 then q - 1 else q
    ensures k == 0 ==> q == 0 && r == 0
  {
    q, r, p := k / csize, k % csize, 0;
    if k == csize * |chain| {
      DivUnique(k, csize, |chain|, 0);
    } else {
      DivBelow(k, csize, |chain|);
    }
    if k > 0 {
      DivBefore(k, csize);
      DivBelow(k - 1, csize, |chain|);
      p := (k - 1) / csize;
    }
  }

  lemma SlotInside(k: nat, csize: nat, m: nat)
    requires csize > 0 && Slot(k, csize) < m
    ensures k < csize * m
  {
    assert k == csize * (k / csize) + k % csize;
    MulStep(csize, k / csize, m);
  }

  lemma BytesPrefix(fsec: seq<Sector>, fsec': seq<Sector>, size: nat)
    requires size <= 512 * |fsec| && fsec <= fsec'
    requires forall j :: 0 <= j < |fsec'| ==> |fsec'[j]| == 512
    ensures (forall j :: 0 <= j < |fsec| ==> |fsec[j]| == 512) && BytesOf(fsec', size) == BytesOf(fsec, size)
  {
    assert forall j :: 0 <= j < |fsec| ==> fsec[j] == fsec'[j];
  }

  lemma SecsAreDistinct(database: nat, csize: nat, chain: seq<nat>)
    requires csize > 0 && AllClusters(chain) && Distinct(chain)
    ensures Distinct(Secs(database, csize, chain))
  {
    hide Secs;
    var secs := Secs(database, csize, chain);
    forall i, j | 0 <= i < j < |secs|
      ensures secs[i] != secs[j]
    {
      if secs[i] == secs[j] {
        SecsDistinct(database, csize, chain, i, j);
      }
    }
  }

  function Max(a: nat, b: nat): nat { if a < b then b else a }

  /** A piece written into sector k: the sector's other bytes are kept wherever they are file bytes. */
  lemma PieceWritten(fsec: seq<Sector>, size: nat, p: nat, data: seq<Byte>, sector: Sector)
    requires p <= size <= 512 * |fsec| && 0 < |data| && p % 512 + |data| <= 512 && p / 512 < |fsec|
    requires forall k :: 0 <= k < |fsec| ==> |fsec[k]| == 512
    requires |sector| == 512 && sector[p % 512..p % 512 + |data|] == data
    requires p % 512 != 0 || p < size ==>
               forall j :: 0 <= j < 512 && !(p % 512 <= j < p % 512 + |data|) ==> sector[j] == fsec[p / 512][j]
    ensures BytesOf(fsec[p / 512 := sector], Max(size, p + |data|)) == Overwrite(BytesOf(fsec, size), p, data)
  {
    var k := p / 512;
    var b, o := BytesOf(fsec[k := sector], Max(size, p + |data|)), Overwrite(BytesOf(fsec, size), p, data);
    forall i | 0 <= i < |b|
      ensures b[i] == o[i]
    {
      if p <= i < p + |data| {
        assert i / 512 == k && i % 512 == p % 512 + (i - p);
        assert sector[i % 512] == data[i - p];
      } else {
        assert i / 512 == k ==> i % 512 == p % 512 + (i - p);
      }
    }
  }

  /** The sectors of a file with those from k on replaced by data. */
  ghost function PutSectors(fsec: seq<Sector>, k: nat, cc: nat, data: seq<Byte>): (r: seq<Sector>)
    requires |data| == 512 * cc && k + cc <= |fsec|
    requires forall j :: 0 <= j < |fsec| ==> |fsec[j]| == 512
    ensures |r| == |fsec| && forall j :: 0 <= j < |r| ==> |r[j]| == 512
  {
    seq(|fsec|, j requires 0 <= j < |fsec| =>
      if k <= j < k + cc then data[512 * (j - k)..512 * (j - k) + 512] else fsec[j])
  }

  lemma SectorsWritten(fsec: seq<Sector>, size: nat, k: nat, cc: nat, data: seq<Byte>)
    requires 512 * k <= size <= 512 * |fsec| && |data| == 512 * cc && k + cc <= |fsec|
    requires forall j :: 0 <= j < |fsec| ==> |fsec[j]| == 512
    ensures BytesOf(PutSectors(fsec, k, cc, data), Max(size, 512 * (k + cc))) == Overwrite(BytesOf(fsec, size), 512 * k, data)
  {
    var n := PutSectors(fsec, k, cc, data);
    var b, o := BytesOf(n, Max(size, 512 * (k + cc))), Overwrite(BytesOf(fsec, size), 512 * k, data);
    forall i | 0 <= i < |b|
      ensures b[i] == o[i]
    {
      var j := i / 512;
      if k <= j < k + cc {
        assert n[j] == data[512 * (j - k)..512 * (j - k) + 512];
        assert n[j][i % 512] == data[i - 512 * k];
      }
    }
  }

  /** Byte offsets to sectors to clusters in two steps or one. */
  lemma DivDiv(x: nat, csize: nat)
    requires csize > 0
    ensures 512 * csize > 0 && x / (512 * csize) == Slot(x / 512, csize)
  {
    var q, r := x / 512 / csize, x / 512 % csize;
    assert x / 512 == csize * q + r;
    assert x == 512 * (csize * q) + (512 * r + x % 512);
    assert (512 * csize) * q == 512 * (csize * q);
    DivUnique(x, 512 * csize, q, 512 * r + x % 512);
  }

  /** The first sector of cluster q of a file. */
  function Start(csize: nat, q: nat): nat {
    csize * q
  }

  lemma StartNext(csize: nat, q: nat)
    ensures Start(csize, 0) == 0 && Start(csize, q + 1) == Start(csize, q) + csize
  {
  }

  /** The start of the cluster of byte i; a byte j not before that cluster is not before its start. */
  lemma ClusterOfByte(csize: nat, i: nat, j: nat)
    requires csize > 0 && j / (csize * 512) >= i / (csize * 512)
    ensures i - i % (csize * 512) == 512 * Start(csize, Slot(i / 512, csize)) <= j
  {
    DivDiv(i, csize);
    Floor(i, csize * 512);
    Floor(j, csize * 512);
    var q := i / (csize * 512);
    if q < j / (csize * 512) {
      MulStep(csize * 512, q, j / (csize * 512));
    }
    assert (csize * 512) * q == 512 * (csize * q);
  }

  lemma Floor(i: nat, n: nat)
    requires n > 0
    ensures i - i % n == n * (i / n) <= i
  {
  }

  /** A byte d bytes into cluster q of a file. */
  lemma InCluster(csize: nat, q: nat, d: nat)
    requires csize > 0 && d < 512 * csize
    ensures (512 * Start(csize, q) + d) / 512 == Start(csize, q) + d / 512
    ensures Slot(Start(csize, q) + d / 512, csize) == q
  {
    DivUnique(csize * q + d / 512, csize, q, d / 512);
  }

  /** A place before the end of the file is in one of its clusters. */
  lemma StartInside(csize: nat, q: nat, m: nat)
    requires Start(csize, q) < csize * m
    ensures q < m
  {
    if m < q {
      MulStep(csize, m, q);
    }
  }

  lemma StartFits(csize: nat, q: nat, m: nat)
    requires q < m
    ensures Start(csize, q) + csize <= csize * m
  {
    MulStep(csize, q, m);
  }

  /** A longer file keeps its first bytes. */
  lemma BytesLonger(fsec: seq<Sector>, size: nat, more: nat)
    requires size <= more <= 512 * |fsec|
    requires forall k :: 0 <= k < |fsec| ==> |fsec[k]| == 512
    ensures BytesOf(fsec, more)[..size] == BytesOf(fsec, size)
  {
  }
}
