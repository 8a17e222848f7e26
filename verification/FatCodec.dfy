/** The three FAT entry encodings over the raw bytes of one FAT (get_fat and put_fat without the window). */
module FatCodec {
  import opened Bytes

  datatype FatType = FAT12 | FAT16 | FAT32

  /** One more than the largest value an entry can hold. */
  function Modulus(t: FatType): nat {
    match t
    case FAT12 => 0x1000
    case FAT16 => 0x1_0000
    case FAT32 => 0x1000_0000
  }

  const MAX_FAT12: nat := 0xFF5
  const MAX_FAT16: nat := 0xFFF5
  const MAX_FAT32: nat := 0x0FFF_FFF5

  /** A volume of n clusters is of this sub-type. */
  predicate IsSubType(t: FatType, n: int) {
    match t
    case FAT12 => 0 < n <= MAX_FAT12
    case FAT16 => MAX_FAT12 < n <= MAX_FAT16
    case FAT32 => MAX_FAT16 < n <= MAX_FAT32
  }

  /** What 0xFFFFFFFF reads back as: the end-of-chain mark create_chain and remove_chain write. */
  function Eoc(t: FatType): nat { Modulus(t) - 1 }

  lemma EocCut(t: FatType)
    ensures 0xFFFF_FFFF % Modulus(t) == Eoc(t)
  {
  }

  lemma CutSmall(t: FatType, v: nat)
    requires v < Modulus(t)
    ensures v % Modulus(t) == v
  {
  }

  function EntryOfs(t: FatType, c: nat): nat {
    match t
    case FAT12 => c + c / 2
    case FAT16 => 2 * c
    case FAT32 => 4 * c
  }

  function EntryLen(t: FatType): nat { if t == FAT32 then 4 else 2 }

  predicate Fits(t: FatType, b: seq<Byte>, c: nat) {
    EntryOfs(t, c) + EntryLen(t) <= |b|
  }

  function Entry(t: FatType, b: seq<Byte>, c: nat): (v: nat)
    requires Fits(t, b, c)
    ensures v < Modulus(t)
  {
    match t
    case FAT12 =>
      var wc := LdWord(b, c + c / 2);
      if c % 2 == 1 then wc / 16 else wc % 0x1000
    case FAT16 => LdWord(b, 2 * c)
    case FAT32 => LdDword(b, 4 * c) % 0x1000_0000
  }

  /** Two FAT12 entries are the little-endian number in three bytes. */
  lemma EntryPair(b: seq<Byte>, c: nat)
    requires 3 * c + 2 < |b|
    ensures Entry(FAT12, b, 2 * c) + 0x1000 * Entry(FAT12, b, 2 * c + 1)
            == b[3 * c] as int + 0x100 * (b[3 * c + 1] as int) + 0x1_0000 * (b[3 * c + 2] as int)
  {
    assert 2 * c + 2 * c / 2 == 3 * c && 2 * c + 1 + (2 * c + 1) / 2 == 3 * c + 1;
    Nibbles(b[3 * c], b[3 * c + 1]);
    Nibbles(b[3 * c + 1], b[3 * c + 2]);
  }

  /** A FAT16 entry is the number in two bytes, a FAT32 entry that in four bytes without the top four bits. */
  lemma EntryBytes(b: seq<Byte>, c: nat)
    ensures 2 * c + 1 < |b| ==> Entry(FAT16, b, c) == b[2 * c] as int + 0x100 * (b[2 * c + 1] as int)
    ensures 4 * c + 3 < |b| ==>
      Entry(FAT32, b, c) == b[4 * c] as int + 0x100 * (b[4 * c + 1] as int) + 0x1_0000 * (b[4 * c + 2] as int)
                            + 0x100_0000 * (b[4 * c + 3] as int % 16)
  {
    if 4 * c + 3 < |b| {
      TopNibble(b[4 * c] as int + 0x100 * (b[4 * c + 1] as int) + 0x1_0000 * (b[4 * c + 2] as int), b[4 * c + 3]);
    }
  }

  lemma TopNibble(low: nat, top: Byte)
    requires low < 0x100_0000
    ensures (low + 0x100_0000 * (top as int)) % 0x1000_0000 == low + 0x100_0000 * (top as int % 16)
  {
    assert top == 16 * (top / 16) + top % 16;
    DivUnique(low + 0x100_0000 * (top as int), 0x1000_0000, top / 16, low + 0x100_0000 * (top as int % 16));
  }

  /** The new first byte of a FAT12 entry: an odd entry shares it with its lower neighbour. */
  function FirstByte12(p: Byte, c: nat, val: nat): Byte {
    if c % 2 == 1 then p % 16 + val % 16 * 16 else val % 256
  }

  /** The new second byte: an even entry shares it with its upper neighbour. */
  function SecondByte12(p: Byte, c: nat, val: nat): Byte {
    if c % 2 == 1 then val / 16 % 256 else p / 16 * 16 + val / 256 % 16
  }

  /** The new double word of a FAT32 entry: the upper four bits stay. */
  function NewDword(was: nat, val: nat): nat {
    val % 0x1000_0000 + was / 0x1000_0000 * 0x1000_0000
  }

  /** The first of the two read-modify-write steps of a FAT12 update. */
  function SetFirst12(b: seq<Byte>, c: nat, val: nat): (r: seq<Byte>)
    requires Fits(FAT12, b, c)
    ensures |r| == |b|
  {
    b[c + c / 2 := FirstByte12(b[c + c / 2], c, val)]
  }

  function SetEntry(t: FatType, b: seq<Byte>, c: nat, val: nat): (r: seq<Byte>)
    requires Fits(t, b, c)
    ensures |r| == |b|
  {
    match t
    case FAT12 =>
      var b1 := SetFirst12(b, c, val);
      b1[c + c / 2 + 1 := SecondByte12(b1[c + c / 2 + 1], c, val)]
    case FAT16 => StWord(b, 2 * c, val)
    case FAT32 => StDword(b, 4 * c, NewDword(LdDword(b, 4 * c), val))
  }

  lemma NibbleSplit(val: nat, low: nat)
    requires low < 16
    ensures (low + val % 16 * 16 + 256 * (val / 16 % 256)) / 16 == val % 0x1000
    ensures (val % 256 + 256 * (low * 16 + val / 256 % 16)) % 0x1000 == val % 0x1000
  {
    var h, a := val / 16, val % 16;
    assert val == 16 * h + a && h == 256 * (h / 256) + h % 256;
    DivUnique(val, 0x1000, h / 256, 16 * (h % 256) + a);
    DivUnique(low + a * 16 + 256 * (h % 256), 16, a + 16 * (h % 256), low);
    var c, b := val / 256, val % 256;
    assert val == 256 * c + b && c == 16 * (c / 16) + c % 16;
    DivUnique(val, 0x1000, c / 16, 256 * (c % 16) + b);
    DivUnique(b + 256 * (low * 16 + c % 16), 0x1000, low, b + 256 * (c % 16));
  }

  lemma EntryAfterSet12(b: seq<Byte>, c: nat, val: nat)
    requires Fits(FAT12, b, c)
    ensures Entry(FAT12, SetEntry(FAT12, b, c, val), c) == val % 0x1000
  {
    var o := c + c / 2;
    if c % 2 == 1 {
      NibbleSplit(val, b[o] % 16);
    } else {
      NibbleSplit(val, b[o + 1] / 16);
    }
  }

  lemma EntryAfterSet32(b: seq<Byte>, c: nat, val: nat)
    requires Fits(FAT32, b, c)
    ensures Entry(FAT32, SetEntry(FAT32, b, c, val), c) == val % 0x1000_0000
  {
    hide LdDword, StDword, NewDword;
    var was := LdDword(b, 4 * c);
    DwordBound(b, 4 * c);
    NewDwordLow(was, val);
    DwordRoundTrip(b, 4 * c, NewDword(was, val));
  }

  lemma DwordBound(b: seq<Byte>, k: nat)
    requires k + 3 < |b|
    ensures LdDword(b, k) < DWORD
  {
  }

  lemma NewDwordLow(was: nat, val: nat)
    requires was < DWORD
    ensures NewDword(was, val) < DWORD && NewDword(was, val) % 0x1000_0000 == val % 0x1000_0000
  {
    var q, r := was / 0x1000_0000, val % 0x1000_0000;
    assert was == 0x1000_0000 * q + was % 0x1000_0000;
    DivUnique(r + q * 0x1000_0000, 0x1000_0000, q, r);
  }

  /** put_fat then get_fat on the same cluster gives the value cut to the entry width. */
  lemma EntryAfterSet(t: FatType, b: seq<Byte>, c: nat, val: nat)
    requires Fits(t, b, c)
    ensures Entry(t, SetEntry(t, b, c, val), c) == val % Modulus(t)
  {
    match t
    case FAT12 => EntryAfterSet12(b, c, val);
    case FAT16 => WordRoundTrip(b, 2 * c, val);
    case FAT32 =>
      EntryAfterSet32(b, c, val);
  }

  lemma LowNibble(p: Byte, c: nat, val: nat)
    requires c % 2 == 1
    ensures FirstByte12(p, c, val) % 16 == p % 16
  {
  }

  lemma HighNibble(p: Byte, c: nat, val: nat)
    requires c % 2 == 0
    ensures SecondByte12(p, c, val) / 16 == p / 16
  {
  }

  /** An even entry needs only the low nibble of its second byte, an odd one only the high nibble of its first. */
  lemma Nibbles(x: Byte, y: Byte)
    ensures (x + 256 * (y as int)) % 0x1000 == x + 256 * (y % 16)
    ensures (x + 256 * (y as int)) / 16 == x / 16 + 16 * (y as int)
  {
  }

  lemma EntryElsewhere12(b: seq<Byte>, c: nat, d: nat, val: nat)
    requires Fits(FAT12, b, c) && Fits(FAT12, b, d) && c != d
    ensures Entry(FAT12, SetEntry(FAT12, b, c, val), d) == Entry(FAT12, b, d)
  {
    hide FirstByte12, SecondByte12;
    var o, e := c + c / 2, d + d / 2;
    var r := SetEntry(FAT12, b, c, val);
    Nibbles(b[e], b[e + 1]);
    Nibbles(r[e], r[e + 1]);
    if d + 1 == c && c % 2 == 1 {
      LowNibble(b[o], c, val);
      assert o == e + 1 && r[e] == b[e] && r[o] % 16 == b[o] % 16;
    } else if d == c + 1 && c % 2 == 0 {
      HighNibble(b[o + 1], c, val);
      assert e == o + 1 && r[e + 1] == b[e + 1] && r[e] / 16 == b[e] / 16;
    } else {
      assert r[e] == b[e] && r[e + 1] == b[e + 1];
    }
  }

  /** Every other entry keeps its value: neighbours that share a byte with a FAT12 entry included. */
  lemma EntryElsewhere(t: FatType, b: seq<Byte>, c: nat, d: nat, val: nat)
    requires Fits(t, b, c) && Fits(t, b, d) && c != d
    ensures Entry(t, SetEntry(t, b, c, val), d) == Entry(t, b, d)
  {
    hide NewDword;
    if t == FAT12 {
      EntryElsewhere12(b, c, d, val);
    }
  }

  /** The upper four bits of a FAT32 entry are reserved and survive an update. */
  lemma ReservedBitsKept(b: seq<Byte>, c: nat, val: nat)
    requires Fits(FAT32, b, c)
    ensures SetEntry(FAT32, b, c, val)[4 * c + 3] / 16 == b[4 * c + 3] / 16
  {
    var was := LdDword(b, 4 * c);
    var v := NewDword(was, val);
    assert v / 0x1000_0000 == was / 0x1000_0000 == b[4 * c + 3] / 16;
    assert SetEntry(FAT32, b, c, val)[4 * c + 3] == v / 0x1_0000 / 256 % 256 by {
      hide NewDword, LdDword;
    }
    TopByte(v);
  }

  lemma TopByte(v: nat)
    requires v < DWORD
    ensures v / 0x1_0000 / 256 % 256 / 16 == v / 0x1000_0000
  {
  }
}
