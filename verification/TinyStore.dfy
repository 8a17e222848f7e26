/** The store of tinylisp (lisp2.c): atom names growing up and pairs growing down in one array of cells. */
module TinyStore {
  import opened Bytes

  /** A Lisp expression: the eight bytes of a NaN-boxed double, lowest first. */
  type Boxed = x: seq<Byte> | |x| == 8 witness [0, 0, 0, 0, 0, 0, 0, 0]

  const N: nat := 1024
  const ATOM: nat := 0x7ff8
  const PRIM: nat := 0x7ff9
  const CONS: nat := 0x7ffa
  const CLOS: nat := 0x7ffb
  const NIL: nat := 0x7ffc

  /** T(x): the top sixteen bits. */
  function Tag(x: Boxed): nat {
    x[6] as int + 256 * (x[7] as int)
  }

  /** ord(x): the low thirty-two bits. */
  function Ord(x: Boxed): nat {
    LdDword(x, 0)
  }

  /** box(t, i). */
  function Box(t: nat, i: nat): (x: Boxed)
    requires t < 0x1_0000 && i < DWORD
    ensures Tag(x) == t && Ord(x) == i && x[4] == x[5] == 0
  {
    var x := [i % 256, i / 256 % 256, i / 0x1_0000 % 256, i / 0x1_0000 / 256 % 256, 0, 0, t % 256, t / 256];
    BoxedBack(x, i);
    x
  }

  /** The tag is in the two top bytes of the double, the ordinal in the four low ones. */
  lemma BoxBytes(t: nat, i: nat)
    requires t < 0x1_0000 && i < DWORD
    ensures var x := Box(t, i);
      && 0x100 * (x[7] as int) + x[6] == t && x[5] == x[4] == 0
      && 0x100_0000 * (x[3] as int) + 0x1_0000 * (x[2] as int) + 0x100 * (x[1] as int) + x[0] == i
  {
  }

  lemma BoxedBack(x: seq<Byte>, i: nat)
    requires |x| == 8 && i < DWORD
    requires x[0] == i % 256 && x[1] == i / 256 % 256 && x[2] == i / 0x1_0000 % 256 && x[3] == i / 0x1_0000 / 256 % 256
    ensures LdDword(x, 0) == i
  {
    var z := StDword(x, 0, i);
    DwordRoundTrip(x, 0, i);
    assert z == x;
  }

  /** The NaN with no sign and no payload, which many processors give for 0 / 0, is the atom at 0. */
  predicate IsNan(x: Boxed) {
    Tag(x) == ATOM && Ord(x) == 0 && x[4] == x[5] == 0
  }

  /** Whether car and cdr follow x. */
  predicate IsRef(x: Boxed) {
    Tag(x) == CONS || Tag(x) == CLOS
  }

  // ----- cells as values -----

  /** The number of primitives. */
  const PRIMS: nat := 20

  /** x refers to a pair of cells at or above lo, if to any, and to a primitive there is, if to any. */
  ghost predicate Good(x: Boxed, lo: nat) {
    && (IsRef(x) ==> lo <= Ord(x) && Ord(x) + 1 < N)
    && (Tag(x) == PRIM ==> Ord(x) < PRIMS)
  }

  /** Every cell of the stack refers strictly above itself. */
  ghost predicate Heap(c: seq<Boxed>, sp: nat) {
    |c| == N && sp <= N && forall i :: sp <= i < N ==> Good(c[i], i + 1)
  }

  /** What an expression is, whatever its place in the store. */
  datatype Sexp = Pair(closure: bool, car: Sexp, cdr: Sexp) | Leaf(bits: Boxed)

  /** The tree a value stands for; it is finite because references lead upwards only. */
  ghost function Tree(c: seq<Boxed>, sp: nat, x: Boxed): Sexp
    requires Heap(c, sp) && Good(x, sp)
    decreases if IsRef(x) then N - Ord(x) else 0
  {
    if IsRef(x) then
      var car, cdr := c[Ord(x) + 1], c[Ord(x)];
      assert Good(car, Ord(x) + 2) && Good(cdr, Ord(x) + 1);
      Pair(Tag(x) == CLOS, Tree(c, sp, car), Tree(c, sp, cdr))
    else Leaf(x)
  }

  /** Cells below lo do not matter to a value that refers to lo or above. */
  lemma {:induction false} TreeFrame(c: seq<Boxed>, sp: nat, c': seq<Boxed>, sp': nat, lo: nat, x: Boxed)
    requires Heap(c, sp) && Heap(c', sp') && sp <= lo && sp' <= lo <= N && c[lo..] == c'[lo..] && Good(x, lo)
    ensures Tree(c', sp', x) == Tree(c, sp, x)
    decreases if IsRef(x) then N - Ord(x) else 0
  {
    if IsRef(x) {
      var o := Ord(x);
      assert c[lo..][o - lo] == c'[lo..][o - lo] && c[lo..][o + 1 - lo] == c'[lo..][o + 1 - lo];
      assert Good(c[o], o + 1) && Good(c[o + 1], o + 2);
      TreeFrame(c, sp, c', sp', lo, c[o + 1]);
      TreeFrame(c, sp, c', sp', lo, c[o]);
    }
  }

  /** The same for any values, of use where it is known that the store is in order. */
  ghost function Stood(c: seq<Boxed>, sp: nat, x: Boxed): Sexp {
    if Heap(c, sp) && Good(x, sp) then Tree(c, sp, x) else Leaf(x)
  }

  lemma StoodFrame(c: seq<Boxed>, sp: nat, c': seq<Boxed>, sp': nat, x: Boxed)
    requires Heap(c, sp) && Heap(c', sp') && sp' <= sp && c[sp..] == c'[sp..] && Good(x, sp)
    ensures Good(x, sp') && Stood(c', sp', x) == Stood(c, sp, x)
  {
    TreeFrame(c, sp, c', sp', sp, x);
  }

  lemma StoodPlain(c: seq<Boxed>, sp: nat, x: Boxed)
    requires !IsRef(x)
    ensures Stood(c, sp, x) == Leaf(x)
  {
  }

  // ----- atom names -----

  /** Byte k of the array. */
  function ByteAt(c: seq<Boxed>, k: nat): Byte
    requires k < 8 * |c|
  {
    c[k / 8][k % 8]
  }

  predicate IsName(s: seq<Byte>) {
    forall i :: 0 <= i < |s| ==> s[i] != 0
  }

  /** Where name j starts. */
  ghost function StartOf(names: seq<seq<Byte>>, j: nat): nat
    requires j <= |names|
  {
    if j == 0 then 0 else StartOf(names, j - 1) + |names[j - 1]| + 1
  }

  ghost predicate NameAt(c: seq<Boxed>, at: nat, s: seq<Byte>) {
    at + |s| < 8 * |c| && (forall k :: at <= k < at + |s| ==> ByteAt(c, k) == s[k - at]) && ByteAt(c, at + |s|) == 0
  }

  /** The bytes below hp are the names, each ended by a zero, and no name is there twice. */
  ghost predicate Named(c: seq<Boxed>, hp: nat, names: seq<seq<Byte>>) {
    && hp == StartOf(names, |names|) && hp <= 8 * |c|
    && (forall j :: 0 <= j < |names| ==> IsName(names[j]) && NameAt(c, StartOf(names, j), names[j]))
    && (forall i, j :: 0 <= i < j < |names| ==> names[i] != names[j])
  }

  lemma {:induction false} StartPrefix(a: seq<seq<Byte>>, b: seq<seq<Byte>>, j: nat)
    requires j <= |a| && a <= b
    ensures StartOf(b, j) == StartOf(a, j)
  {
    if j > 0 {
      StartPrefix(a, b, j - 1);
    }
  }

  lemma {:induction false} StartGrows(names: seq<seq<Byte>>, i: nat, j: nat)
    requires i < j <= |names|
    ensures StartOf(names, i) + |names[i]| + 1 <= StartOf(names, j)
    decreases j
  {
    if i < j - 1 {
      StartGrows(names, i, j - 1);
    }
  }

  /** Names lie below hp, so a change at or above hp leaves them alone. */
  lemma NamedFrame(c: seq<Boxed>, c': seq<Boxed>, hp: nat, names: seq<seq<Byte>>)
    requires Named(c, hp, names) && |c'| == |c| && forall k :: 0 <= k < hp ==> ByteAt(c', k) == ByteAt(c, k)
    ensures Named(c', hp, names)
  {
    hide NameAt, StartOf, IsName;
    forall j | 0 <= j < |names|
      ensures IsName(names[j]) && NameAt(c', StartOf(names, j), names[j])
    {
      StartGrows(names, j, |names|);
      NameKept(c, c', StartOf(names, j), names[j]);
    }
  }

  lemma NameKept(c: seq<Boxed>, c': seq<Boxed>, at: nat, s: seq<Byte>)
    requires NameAt(c, at, s) && |c'| == |c| && forall k :: 0 <= k <= at + |s| ==> ByteAt(c', k) == ByteAt(c, k)
    ensures NameAt(c', at, s)
  {
  }

  /** A name written at the end. */
  lemma NamedMore(c: seq<Boxed>, hp: nat, names: seq<seq<Byte>>, s: seq<Byte>)
    requires Named(c, hp, names) && IsName(s) && NameAt(c, hp, s) && forall j :: 0 <= j < |names| ==> names[j] != s
    ensures Named(c, hp + |s| + 1, names + [s])
  {
    hide StartOf, NameAt, IsName;
    var all := names + [s];
    StartPrefix(names, all, |names|);
    StartStep(all, |names|);
    assert StartOf(all, |all|) == hp + |s| + 1 by {
      assert |all| == |names| + 1;
    }
    forall j | 0 <= j < |all|
      ensures IsName(all[j]) && NameAt(c, StartOf(all, j), all[j])
    {
      if j < |names| {
        StartPrefix(names, all, j);
      }
    }
    NameFits(c, hp, s);
  }

  lemma NameFits(c: seq<Boxed>, at: nat, s: seq<Byte>)
    requires NameAt(c, at, s)
    ensures at + |s| < 8 * |c|
  {
  }

  lemma StartStep(names: seq<seq<Byte>>, j: nat)
    requires j < |names|
    ensures StartOf(names, j + 1) == StartOf(names, j) + |names[j]| + 1
  {
  }

  /** Two strings that lie at the same place and end there are the same. */
  lemma SameName(c: seq<Boxed>, at: nat, s: seq<Byte>, t: seq<Byte>)
    requires IsName(s) && IsName(t) && NameAt(c, at, s) && NameAt(c, at, t)
    ensures s == t
  {
    ShorterName(c, at, s, t);
    ShorterName(c, at, t, s);
  }

  lemma NotZero(c: seq<Boxed>, at: nat, t: seq<Byte>)
    requires IsName(t) && NameAt(c, at, t)
    ensures forall k :: at <= k < at + |t| ==> ByteAt(c, k) != 0
  {
  }

  lemma ShorterName(c: seq<Boxed>, at: nat, s: seq<Byte>, t: seq<Byte>)
    requires IsName(s) && IsName(t) && NameAt(c, at, s) && NameAt(c, at, t)
    ensures |s| >= |t| && s[..|t|] == t
  {
    NotZero(c, at, t);
    assert ByteAt(c, at + |s|) == 0;
    forall i | 0 <= i < |t|
      ensures s[i] == t[i]
    {
      assert ByteAt(c, at + i) == s[at + i - at];
    }
  }

  /** Different names have different places, and the same name has one. */
  lemma AtomsDiffer(names: seq<seq<Byte>>, i: nat, j: nat)
    requires i < |names| && j < |names|
    requires forall a, b :: 0 <= a < b < |names| ==> names[a] != names[b]
    ensures StartOf(names, i) == StartOf(names, j) <==> names[i] == names[j]
  {
    if i < j {
      StartGrows(names, i, j);
    } else if j < i {
      StartGrows(names, j, i);
    }
  }

  /** An atom is the place where a name starts. */
  ghost predicate Atomic(x: Boxed, names: seq<seq<Byte>>) {
    Tag(x) == ATOM ==> exists j :: 0 <= j < |names| && Ord(x) == StartOf(names, j)
  }

  /** Every atom on the stack is the place of a name. */
  ghost predicate AllAtomic(c: seq<Boxed>, sp: nat, names: seq<seq<Byte>>) {
    forall i :: sp <= i < |c| ==> Atomic(c[i], names)
  }

  /** There is an atom at 0 if there is any. */
  lemma NanAtomic(a: Boxed, x: Boxed, names: seq<seq<Byte>>)
    requires Tag(a) == ATOM && Atomic(a, names) && IsNan(x)
    ensures Atomic(x, names)
  {
    hide Ord;
    assert StartOf(names, 0) == 0;
  }

  lemma NotAtom(x: Boxed, names: seq<seq<Byte>>)
    requires Tag(x) != ATOM
    ensures Atomic(x, names)
  {
  }

  lemma AtomicMore(x: Boxed, names: seq<seq<Byte>>, more: seq<seq<Byte>>)
    requires Atomic(x, names) && names <= more
    ensures Atomic(x, more)
  {
    hide StartOf;
    if Tag(x) == ATOM {
      var j :| 0 <= j < |names| && Ord(x) == StartOf(names, j);
      StartPrefix(names, more, j);
    }
  }

  lemma AllAtomicMore(c: seq<Boxed>, c': seq<Boxed>, sp: nat, names: seq<seq<Byte>>, more: seq<seq<Byte>>)
    requires AllAtomic(c, sp, names) && names <= more && sp <= |c| == |c'| && c'[sp..] == c[sp..]
    ensures AllAtomic(c', sp, more)
  {
    hide Atomic;
    forall i | sp <= i < |c'| ensures Atomic(c'[i], more) {
      assert c'[i] == c'[sp..][i - sp] == c[i];
      AtomicMore(c[i], names, more);
    }
  }

  /** The atom of a name. */
  ghost predicate AtomOf(names: seq<seq<Byte>>, s: seq<Byte>, x: Boxed) {
    Tag(x) == ATOM && exists j :: 0 <= j < |names| && names[j] == s && Ord(x) == StartOf(names, j)
  }

  lemma AtomOfMore(names: seq<seq<Byte>>, more: seq<seq<Byte>>, s: seq<Byte>, x: Boxed)
    requires AtomOf(names, s, x) && names <= more
    ensures AtomOf(more, s, x)
  {
    hide StartOf;
    var j :| 0 <= j < |names| && names[j] == s && Ord(x) == StartOf(names, j);
    StartPrefix(names, more, j);
  }

  /** The global environment lisp starts with: #t, and the first n primitives under their names. */
  ghost predicate Initial(names: seq<seq<Byte>>, prims: seq<seq<Byte>>, n: nat, tru: Boxed, nil: Boxed, e: Sexp)
    requires n <= |prims| <= PRIMS
  {
    if n == 0 then e == Pair(false, Pair(false, Leaf(tru), Leaf(tru)), Leaf(nil))
    else
      && e.Pair? && !e.closure && e.car.Pair? && !e.car.closure && e.car.car.Leaf?
      && AtomOf(names, prims[n - 1], e.car.car.bits) && e.car.cdr == Leaf(Box(PRIM, n - 1))
      && Initial(names, prims, n - 1, tru, nil, e.cdr)
  }

  lemma {:induction false} InitialMore(names: seq<seq<Byte>>, more: seq<seq<Byte>>, prims: seq<seq<Byte>>, n: nat, tru: Boxed, nil: Boxed, e: Sexp)
    requires n <= |prims| <= PRIMS && Initial(names, prims, n, tru, nil, e) && names <= more
    ensures Initial(more, prims, n, tru, nil, e)
  {
    if n > 0 {
      AtomOfMore(names, more, prims[n - 1], e.car.car.bits);
      InitialMore(names, more, prims, n - 1, tru, nil, e.cdr);
    }
  }

  lemma InitialNext(names: seq<seq<Byte>>, prims: seq<seq<Byte>>, n: nat, tru: Boxed, nil: Boxed, v: Boxed, e: Sexp)
    requires n < |prims| <= PRIMS && Initial(names, prims, n, tru, nil, e) && AtomOf(names, prims[n], v)
    ensures Initial(names, prims, n + 1, tru, nil, Pair(false, Pair(false, Leaf(v), Leaf(Box(PRIM, n))), e))
  {
  }

  // ----- the store -----

  const ERR_NAME: seq<Byte> := [0x45, 0x52, 0x52]
  const TRUE_NAME: seq<Byte> := [0x23, 0x74]

  /** Since the state of c, sp and names, pairs and names have only been added. */
  ghost predicate Later(c: seq<Boxed>, sp: nat, names: seq<seq<Byte>>, c': seq<Boxed>, sp': nat, names': seq<seq<Byte>>) {
    |c| == |c'| == N && sp' <= sp <= N && c'[sp..] == c[sp..] && names <= names'
  }

  class Store {
    const cell: array<Boxed>

    /** What the floating-point unit makes of two operands for primitive k, and of a comparison. */
    const fpu: (nat, Boxed, Boxed) -> Boxed
    const less: (Boxed, Boxed) -> bool

    var hp: nat
    var sp: nat
    var nil: Boxed
    var tru: Boxed
    var err: Boxed
    var env: Boxed

    /** The atom names, in the order of their places. */
    ghost var names: seq<seq<Byte>>

    /** hp <= sp << 3, references lead strictly upwards, names are interned, and every atom is the place of one. */
    ghost predicate Sound()
      reads this`hp, this`sp, this`names, cell
      ensures Sound() ==> cell.Length == N && hp <= 8 * sp <= 8 * N
    {
      && cell.Length == N && hp <= 8 * sp <= 8 * N
      && Heap(cell[..], sp) && Named(cell[..], hp, names) && AllAtomic(cell[..], sp, names)
    }

    /** The constants are set up; some names are there, so the stack cannot run out before it meets them. */
    ghost predicate Valid()
      reads this, cell
      ensures Valid() ==> Sound() && sp >= 2
    {
      && Sound() && hp >= 9
      && Tag(nil) == NIL && Tag(tru) == ATOM && Tag(err) == ATOM && Tag(env) == CONS && Good(env, sp)
      && Atomic(tru, names) && Atomic(err, names)
    }

    /** The state before the first name and the first pair. */
    constructor (fpu: (nat, Boxed, Boxed) -> Boxed, less: (Boxed, Boxed) -> bool)
      ensures Sound() && hp == 0 && sp == N && names == [] && fresh(cell)
    {
      hide Box, Tag, Ord;
      cell := new Boxed[N](_ => Box(NIL, 0));
      this.fpu, this.less := fpu, less;
      hp, sp, names := 0, N, [];
      nil, tru, err, env := Box(NIL, 0), Box(NIL, 0), Box(NIL, 0), Box(NIL, 0);
      new;
      assert StartOf([], 0) == 0;
    }

    /** The length of the name at i. */
    method StrLen(i: nat, ghost j: nat) returns (n: nat)
      requires Sound() && j < |names| && i == StartOf(names, j)
      ensures n == |names[j]|
    {
      hide Heap, StartOf;
      n := 0;
      NameFits(cell[..], i, names[j]);
      while cell[(i + n) / 8][(i + n) % 8] != 0
        invariant n <= |names[j]|
        decreases |names[j]| - n
      {
        assert ByteAt(cell[..], i + n) != 0;
        n := n + 1;
      }
      assert ByteAt(cell[..], i + n) == 0;
      NotZero(cell[..], i, names[j]);
    }

    /** strcmp: whether the name at i is s. */
    method StrEq(i: nat, s: seq<Byte>, ghost j: nat) returns (eq: bool)
      requires Sound() && j < |names| && i == StartOf(names, j) && IsName(s)
      ensures eq <==> names[j] == s
    {
      hide Heap, StartOf;
      var n := StrLen(i, j);
      eq := n == |s|;
      var k := 0;
      while eq && k < n
        invariant 0 <= k <= n && n == |names[j]| && (eq ==> n == |s| && names[j][..k] == s[..k])
        invariant !eq ==> names[j] != s
      {
        NameByte(cell[..], i, names[j], k);
        eq := cell[(i + k) / 8][(i + k) % 8] == s[k];
        k := k + 1;
      }
    }

    lemma NameByte(c: seq<Boxed>, at: nat, s: seq<Byte>, k: nat)
      requires NameAt(c, at, s) && k < |s|
      ensures ByteAt(c, at + k) == s[k]
    {
      assert s[at + k - at] == s[k];
    }

    method PutByte(at: nat, b: Byte)
      requires cell.Length == N && at < 8 * sp <= 8 * N
      modifies cell
      ensures ByteAt(cell[..], at) == b && forall i :: 0 <= i < 8 * N && i != at ==> ByteAt(cell[..], i) == ByteAt(old(cell[..]), i)
      ensures forall i :: sp <= i < N ==> cell[i] == old(cell[i])
    {
      cell[at / 8] := cell[at / 8][at % 8 := b];
    }

    /** strcpy to the end of the names. */
    method StrCpy(s: seq<Byte>)
      requires Sound() && hp + |s| < 8 * sp && IsName(s)
      modifies cell
      ensures Sound() && Heap(cell[..], sp) && Named(cell[..], hp, names)
      ensures NameAt(cell[..], hp, s) && cell[sp..] == old(cell[sp..])
    {
      hide Named, Heap, AllAtomic, ByteAt;
      var k := 0;
      while k <= |s|
        invariant 0 <= k <= |s| + 1
        invariant forall i :: sp <= i < N ==> cell[i] == old(cell[i])
        invariant forall i :: 0 <= i < hp ==> ByteAt(cell[..], i) == ByteAt(old(cell[..]), i)
        invariant forall i :: hp <= i < hp + k && i < hp + |s| ==> ByteAt(cell[..], i) == s[i - hp]
        invariant k > |s| ==> ByteAt(cell[..], hp + |s|) == 0
      {
        PutByte(hp + k, if k < |s| then s[k] else 0);
        k := k + 1;
      }
      NamedFrame(old(cell[..]), cell[..], hp, names);
      HeapFrame(old(cell[..]), cell[..], sp);
      assert cell[..][sp..] == old(cell[..])[sp..];
      AllAtomicMore(old(cell[..]), cell[..], sp, names, names);
    }

    lemma HeapFrame(c: seq<Boxed>, c': seq<Boxed>, lo: nat)
      requires Heap(c, lo) && |c'| == N && forall i :: lo <= i < N ==> c'[i] == c[i]
      ensures Heap(c', lo)
    {
    }

    /** The search of atom: the place of the name, or hp. */
    method FindName(s: seq<Byte>) returns (i: nat, ghost j: nat)
      requires Sound() && IsName(s)
      ensures j <= |names| && i == StartOf(names, j) <= hp && (i == hp <==> j == |names|)
      ensures if j < |names| then names[j] == s else s !in names
    {
      hide Heap, Named, StartOf, NameAt;
      i, j := 0, 0;
      StartsAtZero();
      while i < hp
        invariant 0 <= j <= |names| && i == StartOf(names, j) <= hp && (i == hp <==> j == |names|)
        invariant forall k :: 0 <= k < j ==> names[k] != s
        decreases |names| - j
      {
        var eq := StrEq(i, s, j);
        if eq { return; }
        var n := StrLen(i, j);
        NextName(j);
        i, j := i + n + 1, j + 1;
      }
    }

    /** The new name at hp. */
    method AddName(s: seq<Byte>)
      requires Sound() && IsName(s) && s !in names && hp + |s| + 1 <= 8 * sp
      modifies this`hp, this`names, cell
      ensures Sound() && hp == old(hp) + |s| + 1 && names == old(names) + [s]
      ensures StartOf(names, |old(names)|) == old(hp)
      ensures cell[sp..] == old(cell[sp..])
    {
      hide Heap, NameAt, Named, StartOf, AllAtomic;
      StrCpy(s);
      AllAtomicMore(cell[..], cell[..], sp, names, names + [s]);
      NamedMore(cell[..], hp, names, s);
      StartPrefix(names, names + [s], |names|);
      EndOfNames();
      hp := hp + |s| + 1;
      names := names + [s];
    }

    lemma EndOfNames()
      requires Sound()
      ensures hp == StartOf(names, |names|)
    {
    }

    /** atom: the place of the name, at the end if it is new; the run ends when it does not fit below the stack.
        (The copy that goes before the check is not modelled when the run ends.) */
    method Atom(s: seq<Byte>) returns (ok: bool, x: Boxed)
      requires Sound() && IsName(s)
      modifies this`hp, this`names, cell
      ensures ok ==> Sound() && hp >= old(hp)
                     && Later(old(cell[..]), old(sp), old(names), cell[..], sp, names)
                     && Tag(x) == ATOM && Atomic(x, names) && AtomOf(names, s, x) && x[4] == x[5] == 0
                     && (if s in old(names) then names == old(names) && hp == old(hp)
                         else names == old(names) + [s] && hp == old(hp) + |s| + 1)
      ensures !ok ==> s !in old(names) && old(hp) + |s| + 1 > 8 * sp
    {
      hide Sound, StartOf;
      SoundParts();
      var i;
      ghost var j;
      i, j := FindName(s);
      ok := true;
      x := Box(ATOM, i);
      if i == hp {
        if hp + |s| + 1 > 8 * sp { return false, x; }
        AddName(s);
      }
    }

    lemma SoundParts()
      requires Sound()
      ensures cell.Length == N && hp <= 8 * sp <= 8 * N && Heap(cell[..], sp) && Named(cell[..], hp, names)
    {
    }

    lemma StartsAtZero()
      requires Sound()
      ensures StartOf(names, 0) == 0 && (0 < hp <==> |names| > 0)
    {
      if |names| > 0 { StartGrows(names, 0, |names|); }
    }

    lemma NextName(j: nat)
      requires Sound() && j < |names|
      ensures StartOf(names, j + 1) == StartOf(names, j) + |names[j]| + 1 <= hp
      ensures StartOf(names, j + 1) == hp <==> j + 1 == |names|
    {
      if j + 1 < |names| { StartGrows(names, j + 1, |names|); }
    }

    // ----- pairs -----

    /** cons: the new pair lies below everything it refers to; the run ends when it meets the names. */
    method Cons(x: Boxed, y: Boxed) returns (ok: bool, p: Boxed)
      requires Sound() && sp >= 2 && Good(x, sp) && Good(y, sp) && Atomic(x, names) && Atomic(y, names)
      modifies this`sp, cell
      ensures ok ==> Sound() && Tag(p) == CONS && Ord(p) == sp == old(sp) - 2 && Good(p, sp)
                     && Later(old(cell[..]), old(sp), old(names), cell[..], sp, names)
                     && cell[sp + 1] == x && cell[sp] == y
      ensures !ok <==> hp > 8 * (old(sp) - 2)
    {
      hide Named, Heap, Atomic, StartOf;
      ghost var c, sp0 := cell[..], sp;
      sp := sp - 1;
      cell[sp] := x;
      sp := sp - 1;
      cell[sp] := y;
      p := Box(CONS, sp);
      ok := true;
      if hp > 8 * sp { return false, p; }
      assert forall i :: sp0 <= i < N ==> cell[i] == c[i];
      HeapMore(c, sp0, cell[..], x, y);
      assert forall k :: 0 <= k < hp ==> ByteAt(cell[..], k) == ByteAt(c, k);
      NamedFrame(c, cell[..], hp, names);
    }

    lemma HeapMore(c: seq<Boxed>, sp0: nat, c': seq<Boxed>, x: Boxed, y: Boxed)
      requires Heap(c, sp0) && sp0 >= 2 && Good(x, sp0) && Good(y, sp0)
      requires |c'| == N && (forall i :: sp0 <= i < N ==> c'[i] == c[i]) && c'[sp0 - 1] == x && c'[sp0 - 2] == y
      ensures Heap(c', sp0 - 2)
    {
    }

    /** What a pair just made stands for. */
    lemma ConsTree(c: seq<Boxed>, sp0: nat, x: Boxed, y: Boxed, p: Boxed)
      requires Sound() && Heap(c, sp0) && Good(x, sp0) && Good(y, sp0)
      requires sp <= sp0 <= N && cell[sp0..] == c[sp0..] && IsRef(p) && Good(p, sp)
      requires cell[Ord(p) + 1] == x && cell[Ord(p)] == y
      ensures Tree(cell[..], sp, p) == Pair(Tag(p) == CLOS, Tree(c, sp0, x), Tree(c, sp0, y))
    {
      TreeFrame(c, sp0, cell[..], sp, sp0, x);
      TreeFrame(c, sp0, cell[..], sp, sp0, y);
    }

    /** car. */
    function Car(p: Boxed): (x: Boxed)
      requires Valid() && Good(p, sp)
      reads this, cell
      ensures x == if IsRef(p) then cell[Ord(p) + 1] else err
      ensures Good(x, sp) && Atomic(x, names)
    {
      hide Sound, Atomic, Tag, Ord;
      PartsGood(p);
      if IsRef(p) then cell[Ord(p) + 1] else err
    }

    /** cdr. */
    function Cdr(p: Boxed): (x: Boxed)
      requires Valid() && Good(p, sp)
      reads this, cell
      ensures x == if IsRef(p) then cell[Ord(p)] else err
      ensures Good(x, sp) && Atomic(x, names)
    {
      hide Sound, Atomic, Tag, Ord;
      PartsGood(p);
      if IsRef(p) then cell[Ord(p)] else err
    }

    /** The parts of a pair may be used, as may the error atom. */
    lemma PartsGood(p: Boxed)
      requires Valid() && Good(p, sp)
      ensures Good(err, sp) && Atomic(err, names)
      ensures IsRef(p) ==> Ord(p) + 1 < N == cell.Length && Good(cell[Ord(p)], sp) && Good(cell[Ord(p) + 1], sp)
      ensures IsRef(p) ==> Atomic(cell[Ord(p)], names) && Atomic(cell[Ord(p) + 1], names)
    {
      hide Named, Atomic, Tag, Ord;
      assert IsRef(p) ==> Good(cell[..][Ord(p) + 1], Ord(p) + 2) && Atomic(cell[..][Ord(p) + 1], names);
      assert IsRef(p) ==> Good(cell[..][Ord(p)], Ord(p) + 1) && Atomic(cell[..][Ord(p)], names);
    }

    /** gc: the stack is cut back to the global environment, and every cell that it reaches is kept as it is. */
    method Gc()
      requires Valid()
      modifies this`sp
      ensures Valid() && sp == Ord(env) >= old(sp)
      ensures Heap(old(cell[..]), old(sp)) && Good(env, old(sp))
      ensures Tree(cell[..], sp, env) == Tree(old(cell[..]), old(sp), env)
    {
      hide Named, Atomic;
      sp := Ord(env);
      TreeFrame(cell[..], old(sp), cell[..], sp, sp, env);
    }

    /** cons of what stood for two trees. */
    lemma ConsStood(c: seq<Boxed>, sp0: nat, x: Boxed, y: Boxed, p: Boxed)
      requires Sound() && Heap(c, sp0) && Good(x, sp0) && Good(y, sp0)
      requires sp <= sp0 <= N && cell[sp0..] == c[sp0..] && Tag(p) == CONS && Good(p, sp)
      requires Ord(p) + 1 < N && cell[Ord(p) + 1] == x && cell[Ord(p)] == y
      ensures Stood(cell[..], sp, p) == Pair(false, Stood(c, sp0, x), Stood(c, sp0, y))
    {
      ConsTree(c, sp0, x, y, p);
    }

    /** One turn of the start-up loop: the global environment with primitive i under its name. */
    method AddPrimitive(name: seq<Byte>, i: nat) returns (ok: bool, ghost v: Boxed)
      requires Sound() && sp >= 4 && IsName(name) && i < PRIMS && Good(env, sp) && Tag(env) == CONS
      modifies this`hp, this`sp, this`names, this`env, cell
      ensures ok ==> Sound() && Tag(env) == CONS && Good(env, sp) && sp == old(sp) - 4
      ensures ok ==> if name in old(names) then hp == old(hp) else hp == old(hp) + |name| + 1
      ensures ok ==> old(names) <= names && AtomOf(names, name, v)
                     && Stood(cell[..], sp, env) ==
                        Pair(false, Pair(false, Leaf(v), Leaf(Box(PRIM, i))), old(Stood(cell[..], sp, env)))
    {
      hide Named, Heap, Sound, Atomic, Box, Tag, Ord, Stood, StartOf;
      var x, p;
      ghost var c0, sp0 := cell[..], sp;
      SoundParts();
      ok, x := Atom(name);
      v := x;
      if !ok { return; }
      ghost var c1 := cell[..];
      SoundParts();
      StoodFrame(c0, sp0, c1, sp0, env);
      var prim := Box(PRIM, i);
      NotAtom(prim, names);
      NotAtom(env, names);
      StoodPlain(c1, sp0, x);
      StoodPlain(c1, sp0, prim);
      ok, p := Cons(x, prim);
      if !ok { return; }
      ghost var c2, sp2 := cell[..], sp;
      SoundParts();
      StoodFrame(c1, sp0, c2, sp2, env);
      ConsStood(c1, sp0, x, prim, p);
      NotAtom(p, names);
      ghost var e := env;
      ok, env := Cons(p, env);
      if ok { ConsStood(c2, sp2, p, e, env); }
    }

    /** The constants, and the environment with #t. */
    method StartConstants() returns (ok: bool)
      requires Sound() && hp == 0 && sp == N && names == []
      modifies this, cell
      ensures ok ==> Sound() && sp == N - 4 && Tag(env) == CONS && Good(env, sp) && hp >= 7 && names == [ERR_NAME, TRUE_NAME]
                     && Tag(nil) == NIL && AtomOf(names, TRUE_NAME, tru) && AtomOf(names, ERR_NAME, err) && IsNan(err)
                     && Stood(cell[..], sp, env) == Pair(false, Pair(false, Leaf(tru), Leaf(tru)), Leaf(nil))
    {
      hide Named, Heap, Sound, Box, Tag, Ord, Atomic, Stood, StartOf, IsNan;
      nil := Box(NIL, 0);
      ok, err := Atom(ERR_NAME);
      if !ok { return; }
      FirstAtom(ERR_NAME, err);
      ghost var names0 := names;
      ok, tru := Atom(TRUE_NAME);
      if !ok { return; }
      AtomOfMore(names0, names, ERR_NAME, err);
      NotAtom(nil, names);
      var p;
      ghost var c1, sp1 := cell[..], sp;
      SoundParts();
      StoodPlain(c1, sp1, tru);
      ok, p := Cons(tru, tru);
      if !ok { return; }
      ConsStood(c1, sp1, tru, tru, p);
      NotAtom(p, names);
      ghost var c2, sp2 := cell[..], sp;
      SoundParts();
      StoodPlain(c2, sp2, nil);
      ok, env := Cons(p, nil);
      if ok { ConsStood(c2, sp2, p, nil, env); }
    }

    lemma FirstAtom(s: seq<Byte>, x: Boxed)
      requires names == [s] && AtomOf(names, s, x) && x[4] == x[5] == 0
      ensures IsNan(x)
    {
      hide Ord;
      var j :| 0 <= j < |names| && names[j] == s && Ord(x) == StartOf(names, j);
      assert StartOf(names, 0) == 0;
    }

    lemma AtomicOf(s: seq<Byte>, x: Boxed)
      requires AtomOf(names, s, x)
      ensures Atomic(x, names)
    {
    }

    /** How lisp starts: the constants, and the global environment with #t and the primitives. */
    method Start(prims: seq<seq<Byte>>) returns (ok: bool)
      requires Sound() && hp == 0 && sp == N && names == []
      requires |prims| == PRIMS && (forall i :: 0 <= i < PRIMS ==> IsName(prims[i]))
      requires prims[0] != ERR_NAME && prims[0] != TRUE_NAME && prims[0] != []
      modifies this, cell
      ensures ok ==> Valid() && AtomOf(names, TRUE_NAME, tru) && AtomOf(names, ERR_NAME, err) && IsNan(err)
      ensures ok ==> Initial(names, prims, PRIMS, tru, nil, Stood(cell[..], sp, env))
    {
      hide Named, Heap, Sound, Box, Tag, Ord, Atomic, AtomOf, Stood, IsNan;
      ok := StartConstants();
      if !ok { return; }
      var i := 0;
      while i < PRIMS
        invariant 0 <= i <= PRIMS && Sound() && sp == N - 4 - 4 * i && Tag(env) == CONS && Good(env, sp)
        invariant hp >= if i == 0 then 7 else 9
        invariant i == 0 ==> names == [ERR_NAME, TRUE_NAME]
        invariant Tag(nil) == NIL && AtomOf(names, TRUE_NAME, tru) && AtomOf(names, ERR_NAME, err) && IsNan(err)
        invariant Initial(names, prims, i, tru, nil, Stood(cell[..], sp, env))
      {
        ghost var names0, e, v := names, Stood(cell[..], sp, env), nil;
        ok, v := AddPrimitive(prims[i], i);
        if !ok { return; }
        AtomOfMore(names0, names, TRUE_NAME, tru);
        AtomOfMore(names0, names, ERR_NAME, err);
        InitialMore(names0, names, prims, i, tru, nil, e);
        InitialNext(names, prims, i, tru, nil, v, e);
        i := i + 1;
      }
      SpRoom();
      AtomicOf(TRUE_NAME, tru);
      AtomicOf(ERR_NAME, err);
      AtomTag(TRUE_NAME, tru);
      AtomTag(ERR_NAME, err);
    }

    lemma AtomTag(s: seq<Byte>, x: Boxed)
      requires AtomOf(names, s, x)
      ensures Tag(x) == ATOM
    {
    }

    lemma SpRoom()
      requires Sound()
      ensures hp <= 8 * sp <= 8 * N
    {
    }
  }
}
