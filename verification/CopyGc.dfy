/** The copying garbage collector of the lkbasic Lisp (lisp1.c): Cheney's algorithm over two semi-spaces. */
module CopyGc {

  const MEMORY_SIZE: nat := 4096

  /** offsetof(Obj, value): the type and size fields. */
  const HEADER: nat := 8

  /** A Lisp object; references are addresses. TFUNCTION and TMACRO have one layout. Moved is the tombstone an object leaves behind. */
  datatype Object =
    | Int(size: nat, value: int)
    | Cell(size: nat, car: nat, cdr: nat)
    | Symbol(size: nat, name: string)
    | Primitive(size: nat, fn: nat)
    | Function(size: nat, macro: bool, params: nat, body: nat, env: nat)
    | Env(size: nat, vars: nat, up: nat)
    | Moved(size: nat, moved: nat)

  /** The bytes the fields of an object take, with references of word bytes. */
  function Extent(o: Object, word: nat): nat {
    HEADER + match o
    case Int(_, _) => 4
    case Cell(_, _, _) => 2 * word
    case Symbol(_, name) => |name| + 1
    case Primitive(_, _) => word
    case Function(_, _, _, _, _) => 3 * word
    case Env(_, _, _) => 2 * word
    case Moved(_, _) => word
  }

  /** There is room for the fields of the object, and for the tombstone that may take its place. */
  predicate Fits(o: Object, word: nat) {
    HEADER + word <= o.size && Extent(o, word) <= o.size
  }

  function Refs(o: Object): seq<nat> {
    match o
    case Cell(_, car, cdr) => [car, cdr]
    case Function(_, _, params, body, env) => [params, body, env]
    case Env(_, vars, up) => [vars, up]
    case _ => []
  }

  /** The object with its references put through the forwarding map f. */
  function Mapped(o: Object, f: map<nat, nat>): Object {
    match o
    case Cell(s, car, cdr) => Cell(s, To(f, car), To(f, cdr))
    case Function(s, macro, params, body, env) => Function(s, macro, To(f, params), To(f, body), To(f, env))
    case Env(s, vars, up) => Env(s, To(f, vars), To(f, up))
    case _ => o
  }

  /** Where the object at address a is found after the collection: addresses outside the old space stay. */
  function To(f: map<nat, nat>, a: nat): nat {
    if a in f then f[a] else a
  }

  predicate InSpace(base: nat, a: nat) {
    base <= a < base + MEMORY_SIZE
  }

  datatype Roots = Roots(symbols: nat, frames: seq<seq<nat>>)

  ghost predicate IsRoot(r: Roots, a: nat) {
    a == r.symbols || exists i, j :: 0 <= i < |r.frames| && 0 <= j < |r.frames[i]| && r.frames[i][j] == a
  }

  /** p leads from a root through references of objects of m to its last object. */
  ghost predicate IsPath(m: map<nat, Object>, r: Roots, p: seq<nat>) {
    && |p| > 0 && IsRoot(r, p[0])
    && (forall i :: 0 <= i < |p| ==> p[i] in m)
    && (forall i :: 0 <= i < |p| - 1 ==> p[i + 1] in Refs(m[p[i]]))
  }

  ghost predicate Reachable(m: map<nat, Object>, r: Roots, a: nat) {
    exists p :: IsPath(m, r, p) && p[|p| - 1] == a
  }

  lemma ReachRoot(m: map<nat, Object>, r: Roots, a: nat)
    requires IsRoot(r, a) && a in m
    ensures Reachable(m, r, a)
  {
    assert IsPath(m, r, [a]);
  }

  lemma ReachRef(m: map<nat, Object>, r: Roots, a: nat, b: nat)
    requires Reachable(m, r, a) && a in m && b in Refs(m[a]) && b in m
    ensures Reachable(m, r, b)
  {
    var p :| IsPath(m, r, p) && p[|p| - 1] == a;
    assert IsPath(m, r, p + [b]);
  }

  /** A set of objects that holds the roots and what its members refer to holds all reachable objects. */
  lemma {:induction false} ClosedHoldsPath(m: map<nat, Object>, r: Roots, s: set<nat>, p: seq<nat>)
    requires forall a :: IsRoot(r, a) && a in m ==> a in s
    requires forall a, b :: a in s && a in m && b in Refs(m[a]) && b in m ==> b in s
    requires IsPath(m, r, p)
    ensures p[|p| - 1] in s
    decreases |p|
  {
    if |p| > 1 {
      var q := p[..|p| - 1];
      assert IsPath(m, r, q);
      ClosedHoldsPath(m, r, s, q);
      assert p[|p| - 1] in Refs(m[q[|q| - 1]]);
    }
  }

  // ----- sizes -----

  /** The bytes the objects at s take. */
  ghost function Sum(m: map<nat, Object>, s: seq<nat>): nat
    requires forall i :: 0 <= i < |s| ==> s[i] in m
  {
    if s == [] then 0 else Sum(m, s[..|s| - 1]) + m[s[|s| - 1]].size
  }

  lemma {:induction false} SumSplit(m: map<nat, Object>, s: seq<nat>, k: nat)
    requires k < |s| && forall i :: 0 <= i < |s| ==> s[i] in m
    ensures Sum(m, s) == Sum(m, s[..k] + s[k + 1..]) + m[s[k]].size
    decreases |s|
  {
    var rest := s[..k] + s[k + 1..];
    if k == |s| - 1 {
      assert rest == s[..|s| - 1];
    } else {
      var t := s[..|s| - 1];
      SumSplit(m, t, k);
      assert rest[..|rest| - 1] == t[..k] + t[k + 1..];
    }
  }

  ghost predicate Distinct(s: seq<nat>) {
    forall i, j :: 0 <= i < j < |s| ==> s[i] != s[j]
  }

  /** Distinct objects among those of t take no more bytes than all of t. */
  lemma {:induction false} SumWithin(m: map<nat, Object>, s: seq<nat>, t: seq<nat>)
    requires forall i :: 0 <= i < |t| ==> t[i] in m
    requires Distinct(s) && forall i :: 0 <= i < |s| ==> s[i] in t
    ensures (forall i :: 0 <= i < |s| ==> s[i] in m) && Sum(m, s) <= Sum(m, t) && |s| <= |t|
    decreases |t|
  {
    if t != [] {
      var x, t' := t[|t| - 1], t[..|t| - 1];
      forall a | a in t && a != x
        ensures a in t'
      {
        var i :| 0 <= i < |t| && t[i] == a;
        assert t'[i] == a;
      }
      if k :| 0 <= k < |s| && s[k] == x {
        var rest := s[..k] + s[k + 1..];
        forall i | 0 <= i < |rest|
          ensures rest[i] != x && rest[i] in t'
        {
          assert rest[i] == s[if i < k then i else i + 1];
        }
        SumWithin(m, rest, t');
        SumSplit(m, s, k);
      } else {
        SumWithin(m, s, t');
      }
    }
  }

  /** The objects of m lie one after the other from base on, in this order, and end at end. */
  ghost predicate Tiled(m: map<nat, Object>, base: nat, order: seq<nat>, end: nat) {
    && (forall i :: 0 <= i < |order| ==> order[i] in m && m[order[i]].size > 0)
    && (forall a :: a in m ==> a in order)
    && (forall i :: 0 <= i < |order| ==> order[i] == base + Sum(m, order[..i]))
    && end == base + Sum(m, order)
  }

  lemma {:induction false} SumGrows(m: map<nat, Object>, s: seq<nat>, i: nat, j: nat)
    requires i < j <= |s| && forall k :: 0 <= k < |s| ==> s[k] in m && m[s[k]].size > 0
    ensures Sum(m, s[..i]) + m[s[i]].size <= Sum(m, s[..j])
    decreases j
  {
    assert s[..j][..j - 1] == s[..j - 1];
    if i < j - 1 {
      SumGrows(m, s, i, j - 1);
    }
  }

  /** Tiled objects are distinct, disjoint and inside base..end. */
  lemma TiledApart(m: map<nat, Object>, base: nat, order: seq<nat>, end: nat)
    requires Tiled(m, base, order, end)
    ensures Distinct(order)
    ensures forall i, j :: 0 <= i < j < |order| ==> order[i] + m[order[i]].size <= order[j]
    ensures forall a :: a in m ==> base <= a && a + m[a].size <= end
  {
    forall i, j | 0 <= i < j < |order|
      ensures order[i] + m[order[i]].size <= order[j]
    {
      SumGrows(m, order, i, j);
    }
    forall a | a in m
      ensures base <= a && a + m[a].size <= end
    {
      var i :| 0 <= i < |order| && order[i] == a;
      SumGrows(m, order, i, |order|);
      assert order[..|order|] == order;
    }
  }

  lemma InOrder(m: map<nat, Object>, base: nat, order: seq<nat>, end: nat)
    requires Tiled(m, base, order, end)
    ensures forall a :: a in m ==> a + m[a].size <= end
    ensures forall a, b :: a in m && b in m && a < b ==> a + m[a].size <= b
  {
    hide Sum;
    TiledApart(m, base, order, end);
    forall a, b | a in m && b in m && a < b
      ensures a + m[a].size <= b
    {
      var i :| 0 <= i < |order| && order[i] == a;
      var j :| 0 <= j < |order| && order[j] == b;
      assert i < j || j < i;
    }
  }

  lemma TombstoneExtent(size: nat, word: nat)
    ensures Extent(Moved(size, 0), word) == HEADER + word
  {
  }

  /** A new object at the end keeps the tiling. */
  lemma TiledMore(m: map<nat, Object>, base: nat, order: seq<nat>, end: nat, o: Object)
    requires Tiled(m, base, order, end) && o.size > 0
    ensures end !in m && Tiled(m[end := o], base, order + [end], end + o.size)
  {
    hide Sum;
    TiledApart(m, base, order, end);
    var m', order' := m[end := o], order + [end];
    assert forall i :: 0 <= i < |order| ==> order[i] != end;
    forall i | 0 <= i < |order|
      ensures order'[i] == base + Sum(m', order'[..i])
    {
      assert order'[..i] == order[..i];
      SumSame(m, m', order[..i]);
    }
    assert order'[..|order|] == order;
    SumSame(m, m', order);
    SumOne(m', order, end);
  }

  lemma SumOne(m: map<nat, Object>, s: seq<nat>, x: nat)
    requires x in m && forall i :: 0 <= i < |s| ==> s[i] in m
    ensures Sum(m, s + [x]) == Sum(m, s) + m[x].size
  {
    assert (s + [x])[..|s|] == s;
  }

  lemma {:induction false} SumSame(m: map<nat, Object>, m': map<nat, Object>, s: seq<nat>)
    requires forall i :: 0 <= i < |s| ==> s[i] in m && s[i] in m' && m'[s[i]].size == m[s[i]].size
    ensures Sum(m', s) == Sum(m, s)
    decreases |s|
  {
    if s != [] {
      SumSame(m, m', s[..|s| - 1]);
    }
  }

  // ----- the state of a collection -----

  /** References into the space at base are to objects. */
  ghost predicate Closed(m: map<nat, Object>, base: nat) {
    forall a, b :: a in m && b in Refs(m[a]) && InSpace(base, b) ==> b in m
  }

  ghost predicate RootsClosed(m: map<nat, Object>, base: nat, r: Roots) {
    forall a :: IsRoot(r, a) && InSpace(base, a) ==> a in m
  }

  /** The heap as the program sees it. */
  ghost predicate WellFormed(m: map<nat, Object>, base: nat, order: seq<nat>, used: nat) {
    && Tiled(m, base, order, base + used) && used <= MEMORY_SIZE
    && (forall a :: a in m ==> !m[a].Moved?)
    && Closed(m, base)
  }

  /** The heap and the roots when a collection starts. */
  datatype Start = Start(objs: map<nat, Object>, base: nat, order: seq<nat>, used: nat, roots: Roots)

  ghost predicate Started(s: Start) {
    && WellFormed(s.objs, s.base, s.order, s.used)
    && RootsClosed(s.objs, s.base, s.roots)
  }

  lemma StartedSpace(s: Start)
    requires Started(s)
    ensures forall a :: a in s.objs ==> InSpace(s.base, a)
  {
    TiledApart(s.objs, s.base, s.order, s.base + s.used);
  }

  /** The to-space is a copy of it, and that copy is complete: all references are forwarded. */
  ghost predicate Forwarded(base: nat, o: Object, copy: Object, fwd: map<nat, nat>) {
    copy == Mapped(o, fwd) && forall r :: r in Refs(o) && InSpace(base, r) ==> r in fwd
  }

  /** The map fwd sends the copied objects orig, in this order, to the addresses order, and only reachable ones. */
  ghost predicate Copied(s: Start, order: seq<nat>, orig: seq<nat>, fwd: map<nat, nat>) {
    && |orig| == |order| && Distinct(orig)
    && (forall i :: 0 <= i < |orig| ==> orig[i] in s.objs && orig[i] in fwd && fwd[orig[i]] == order[i])
    && (forall a :: a in fwd ==> a in orig)
    && (forall a :: a in fwd ==> Reachable(s.objs, s.roots, a))
  }

  /** Copied objects have left a tombstone, the others are untouched. */
  ghost predicate Tombs(s: Start, from: map<nat, Object>, fwd: map<nat, nat>) {
    && from.Keys == s.objs.Keys
    && forall a :: a in s.objs ==> from[a] == if a in fwd then Moved(s.objs[a].size, fwd[a]) else s.objs[a]
  }

  /** The first b copies have been scanned, those from g on not yet. */
  ghost predicate Scanned(s: Start, objs: map<nat, Object>, order: seq<nat>, orig: seq<nat>, fwd: map<nat, nat>, b: nat, g: nat)
    requires Copied(s, order, orig, fwd) && forall i :: 0 <= i < |order| ==> order[i] in objs
  {
    && b <= g <= b + 1 && g <= |order|
    && (forall i :: 0 <= i < b ==> Forwarded(s.base, s.objs[orig[i]], objs[order[i]], fwd))
    && (forall i :: g <= i < |order| ==> objs[order[i]] == s.objs[orig[i]])
    && (forall i :: 0 <= i < |order| ==> objs[order[i]].size == s.objs[orig[i]].size)
  }

  lemma ForwardedStays(base: nat, o: Object, copy: Object, fwd: map<nat, nat>, a: nat, n: nat)
    requires Forwarded(base, o, copy, fwd) && a !in fwd && InSpace(base, a)
    ensures Forwarded(base, o, copy, fwd[a := n])
  {
    forall r | r in Refs(o)
      ensures To(fwd[a := n], r) == To(fwd, r)
    {
    }
  }

  /** Copying one more object keeps the scanned ones scanned. */
  lemma ScannedMore(s: Start, objs: map<nat, Object>, order: seq<nat>, orig: seq<nat>, fwd: map<nat, nat>, b: nat, g: nat,
                    a: nat, end: nat)
    requires Started(s) && Copied(s, order, orig, fwd) && forall i :: 0 <= i < |order| ==> order[i] in objs
    requires Scanned(s, objs, order, orig, fwd, b, g)
    requires a in s.objs && a !in fwd && Reachable(s.objs, s.roots, a) && end !in objs
    ensures Copied(s, order + [end], orig + [a], fwd[a := end])
    ensures Scanned(s, objs[end := s.objs[a]], order + [end], orig + [a], fwd[a := end], b, g)
  {
    hide Reachable, Forwarded, Closed, Tiled;
    StartedSpace(s);
    forall i | 0 <= i < |orig|
      ensures orig[i] != a && order[i] != end
    {
    }
    forall i | 0 <= i < b
      ensures Forwarded(s.base, s.objs[orig[i]], objs[order[i]], fwd[a := end])
    {
      ForwardedStays(s.base, s.objs[orig[i]], objs[order[i]], fwd, a, end);
    }
  }

  /** The copies take as many bytes as their originals, so there is room for one more. */
  lemma RoomForCopy(s: Start, objs: map<nat, Object>, order: seq<nat>, orig: seq<nat>, fwd: map<nat, nat>, b: nat, g: nat, a: nat)
    requires Started(s) && Copied(s, order, orig, fwd) && forall i :: 0 <= i < |order| ==> order[i] in objs
    requires Scanned(s, objs, order, orig, fwd, b, g)
    requires a in s.objs && a !in fwd
    ensures s.objs[a].size > 0 && Sum(objs, order) + s.objs[a].size <= s.used && |order| < |s.order|
  {
    hide Sum, Forwarded, Reachable, Closed;
    SumAcross(objs, order, s.objs, orig);
    TiledApart(s.objs, s.base, s.order, s.base + s.used);
    assert forall i :: 0 <= i < |orig| ==> orig[i] != a;
    SumWithin(s.objs, orig + [a], s.order);
    SumOne(s.objs, orig, a);
  }

  lemma {:induction false} SumAcross(m: map<nat, Object>, s: seq<nat>, n: map<nat, Object>, t: seq<nat>)
    requires |s| == |t| && forall i :: 0 <= i < |s| ==> s[i] in m && t[i] in n && m[s[i]].size == n[t[i]].size
    ensures Sum(m, s) == Sum(n, t)
    decreases |s|
  {
    if s != [] {
      SumAcross(m, s[..|s| - 1], n, t[..|t| - 1]);
    }
  }

  lemma TiledUpdate(m: map<nat, Object>, base: nat, order: seq<nat>, end: nat, a: nat, o: Object)
    requires Tiled(m, base, order, end) && a in m && o.size == m[a].size
    ensures Tiled(m[a := o], base, order, end)
  {
    hide Sum;
    var m' := m[a := o];
    forall i | 0 <= i < |order|
      ensures Sum(m', order[..i]) == Sum(m, order[..i])
    {
      SumSame(m, m', order[..i]);
    }
    SumSame(m, m', order);
  }

  /** The object after the k-th, or the end. */
  lemma TiledNext(m: map<nat, Object>, base: nat, order: seq<nat>, end: nat, k: nat)
    requires Tiled(m, base, order, end) && k < |order|
    ensures order[k] < end
    ensures order[k] + m[order[k]].size == if k + 1 < |order| then order[k + 1] else end
  {
    hide Sum;
    TiledApart(m, base, order, end);
    assert order[..k + 1] == order[..k] + [order[k]];
    SumOne(m, order[..k], order[k]);
    if k + 1 == |order| {
      assert order[..k + 1] == order;
    }
  }

  ghost predicate Apart(a: nat, b: nat) {
    a + MEMORY_SIZE <= b || b + MEMORY_SIZE <= a
  }

  /** The slots before slot j of frame i have been forwarded, the others are as they were. */
  ghost predicate FramesDone(s: Start, frames: seq<seq<nat>>, fwd: map<nat, nat>, i: nat, j: nat) {
    && |frames| == |s.roots.frames|
    && (forall k :: 0 <= k < |frames| ==> |frames[k]| == |s.roots.frames[k]|)
    && (forall k, l :: 0 <= k < |frames| && 0 <= l < |frames[k]| ==>
          if k < i || (k == i && l < j)
          then ForwardedRef(s.base, s.roots.frames[k][l], frames[k][l], fwd)
          else frames[k][l] == s.roots.frames[k][l])
  }

  ghost predicate ForwardedRef(base: nat, a: nat, copy: nat, fwd: map<nat, nat>) {
    copy == To(fwd, a) && (InSpace(base, a) ==> a in fwd)
  }

  /** The heap m1 with roots r1 is the part of the heap m0 that the roots r0 reach, moved by f: nothing reachable is
      lost, shared or split, and nothing else is kept. */
  ghost predicate Isomorphic(m0: map<nat, Object>, r0: Roots, m1: map<nat, Object>, r1: Roots, f: map<nat, nat>) {
    && (forall a :: a in f <==> Reachable(m0, r0, a))
    && (forall a, b :: a in f && b in f && f[a] == f[b] ==> a == b)
    && m1.Keys == f.Values
    && (forall a :: a in f ==> a in m0 && f[a] in m1 && m1[f[a]] == Mapped(m0[a], f))
    && r1.symbols == To(f, r0.symbols)
    && |r1.frames| == |r0.frames|
    && (forall i :: 0 <= i < |r1.frames| ==> |r1.frames[i]| == |r0.frames[i]|)
    && (forall i, j :: 0 <= i < |r1.frames| && 0 <= j < |r1.frames[i]| ==> r1.frames[i][j] == To(f, r0.frames[i][j]))
  }

  /** What the copies are, field by field: the same kind, size and content, and each reference moved in its own place. */
  lemma FieldsMoved(m0: map<nat, Object>, r0: Roots, m1: map<nat, Object>, r1: Roots, f: map<nat, nat>)
    requires Isomorphic(m0, r0, m1, r1, f)
    ensures forall a :: a in f ==> a in m0 && f[a] in m1 && m1[f[a]].size == m0[a].size
    ensures forall a :: a in f && m0[a].Int? ==> m1[f[a]].Int? && m1[f[a]].value == m0[a].value
    ensures forall a :: a in f && m0[a].Symbol? ==> m1[f[a]].Symbol? && m1[f[a]].name == m0[a].name
    ensures forall a :: a in f && m0[a].Primitive? ==> m1[f[a]].Primitive? && m1[f[a]].fn == m0[a].fn
    ensures forall a :: a in f && m0[a].Cell? ==>
      m1[f[a]].Cell? && m1[f[a]].car == To(f, m0[a].car) && m1[f[a]].cdr == To(f, m0[a].cdr)
    ensures forall a :: a in f && m0[a].Function? ==>
      && m1[f[a]].Function? && m1[f[a]].macro == m0[a].macro && m1[f[a]].params == To(f, m0[a].params)
      && m1[f[a]].body == To(f, m0[a].body) && m1[f[a]].env == To(f, m0[a].env)
    ensures forall a :: a in f && m0[a].Env? ==>
      m1[f[a]].Env? && m1[f[a]].vars == To(f, m0[a].vars) && m1[f[a]].up == To(f, m0[a].up)
  {
  }

  /** Nothing is left behind: what a kept object or a root refers to in the old space has been moved. */
  lemma NothingDangles(m0: map<nat, Object>, r0: Roots, m1: map<nat, Object>, r1: Roots, f: map<nat, nat>, base: nat)
    requires Isomorphic(m0, r0, m1, r1, f) && Closed(m0, base) && RootsClosed(m0, base, r0)
    ensures InSpace(base, r0.symbols) ==> r0.symbols in f
    ensures forall i, j :: 0 <= i < |r0.frames| && 0 <= j < |r0.frames[i]| && InSpace(base, r0.frames[i][j]) ==> r0.frames[i][j] in f
    ensures forall a :: a in f && m0[a].Cell? ==>
      (InSpace(base, m0[a].car) ==> m0[a].car in f) && (InSpace(base, m0[a].cdr) ==> m0[a].cdr in f)
    ensures forall a :: a in f && m0[a].Function? ==>
      && (InSpace(base, m0[a].params) ==> m0[a].params in f) && (InSpace(base, m0[a].body) ==> m0[a].body in f)
      && (InSpace(base, m0[a].env) ==> m0[a].env in f)
    ensures forall a :: a in f && m0[a].Env? ==>
      (InSpace(base, m0[a].vars) ==> m0[a].vars in f) && (InSpace(base, m0[a].up) ==> m0[a].up in f)
  {
    hide Reachable;
    forall a, r | a in f && r in Refs(m0[a]) && InSpace(base, r)
      ensures r in f
    {
      ReachRef(m0, r0, a, r);
    }
    forall r | IsRoot(r0, r) && InSpace(base, r)
      ensures r in f
    {
      ReachRoot(m0, r0, r);
    }
    FieldsAreRefs();
    assert IsRoot(r0, r0.symbols);
    forall i, j | 0 <= i < |r0.frames| && 0 <= j < |r0.frames[i]|
      ensures IsRoot(r0, r0.frames[i][j])
    {
    }
  }

  lemma FieldsAreRefs()
    ensures forall o: Object :: o.Cell? ==> o.car in Refs(o) && o.cdr in Refs(o)
    ensures forall o: Object :: o.Function? ==> o.params in Refs(o) && o.body in Refs(o) && o.env in Refs(o)
    ensures forall o: Object :: o.Env? ==> o.vars in Refs(o) && o.up in Refs(o)
    ensures forall o: Object, r :: r in Refs(o) ==>
      || (o.Cell? && (r == o.car || r == o.cdr)) || (o.Function? && (r == o.params || r == o.body || r == o.env))
      || (o.Env? && (r == o.vars || r == o.up))
  {
  }

  /** Nothing is kept without need: what is reached is a root, or a reference of something reached. */
  lemma ReachedFrom(m: map<nat, Object>, r: Roots, a: nat)
    requires Reachable(m, r, a)
    ensures a in m && (IsRoot(r, a) || exists b :: b in m && Reachable(m, r, b) && a in Refs(m[b]))
  {
    var p :| IsPath(m, r, p) && p[|p| - 1] == a;
    if |p| > 1 {
      var q := p[..|p| - 1];
      assert IsPath(m, r, q) && q[|q| - 1] == p[|p| - 2];
      assert Reachable(m, r, p[|p| - 2]);
    }
  }

  /** A kind with references has room for each of them. */
  lemma RoomForFields(o: Object, word: nat)
    ensures o.Cell? || o.Function? || o.Env? ==> Extent(o, word) == HEADER + |Refs(o)| * word
    ensures o.Primitive? || o.Moved? ==> Extent(o, word) == HEADER + word
    ensures o.Int? ==> Extent(o, word) == HEADER + 4
    ensures o.Symbol? ==> Extent(o, word) == HEADER + |o.name| + 1
  {
  }

  /** Nothing refers into the space at base: it has just been obtained. */
  ghost predicate Unused(m: map<nat, Object>, r: Roots, base: nat) {
    && (forall a, b :: a in m && b in Refs(m[a]) ==> !InSpace(base, b))
    && (forall a :: IsRoot(r, a) ==> !InSpace(base, a))
  }

  ghost predicate Aligned(m: map<nat, Object>, word: nat)
    requires word > 0
  {
    forall a :: a in m ==> a % word == 0 && m[a].size % word == 0 && Fits(m[a], word)
  }

  lemma ModAdd(a: nat, b: nat, w: nat)
    requires w == 4 || w == 8
    requires a % w == 0 && b % w == 0
    ensures (a + b) % w == 0
  {
  }

  lemma {:induction false} SumAligned(m: map<nat, Object>, s: seq<nat>, w: nat)
    requires w == 4 || w == 8
    requires forall i :: 0 <= i < |s| ==> s[i] in m && m[s[i]].size % w == 0
    ensures Sum(m, s) % w == 0
    decreases |s|
  {
    if s != [] {
      SumAligned(m, s[..|s| - 1], w);
      ModAdd(Sum(m, s[..|s| - 1]), m[s[|s| - 1]].size, w);
    }
  }

  lemma TiledAligned(m: map<nat, Object>, base: nat, order: seq<nat>, end: nat, w: nat)
    requires w == 4 || w == 8
    requires Tiled(m, base, order, end) && base % w == 0 && forall a :: a in m ==> m[a].size % w == 0 && Fits(m[a], w)
    ensures Aligned(m, w) && end % w == 0
  {
    hide Sum;
    forall i | 0 <= i < |order|
      ensures order[i] % w == 0
    {
      SumAligned(m, order[..i], w);
      ModAdd(base, Sum(m, order[..i]), w);
    }
    SumAligned(m, order, w);
    ModAdd(base, Sum(m, order), w);
  }

  /** The finished copies and their originals. */
  ghost predicate Finished(s: Start, objs: map<nat, Object>, order: seq<nat>, orig: seq<nat>, fwd: map<nat, nat>) {
    && Copied(s, order, orig, fwd) && (forall i :: 0 <= i < |order| ==> order[i] in objs)
    && (forall a :: a in objs ==> a in order)
    && Scanned(s, objs, order, orig, fwd, |order|, |order|)
  }

  lemma OriginalOnly(s: Start, order: seq<nat>, orig: seq<nat>, fwd: map<nat, nat>, k: nat)
    requires Copied(s, order, orig, fwd) && k < |order| && Distinct(order)
    ensures k < |orig| && orig[k] in s.objs && orig[k] in fwd && fwd[orig[k]] == order[k]
    ensures forall a :: a in fwd && fwd[a] == order[k] ==> a == orig[k]
  {
    hide Reachable;
    forall a | a in fwd && fwd[a] == order[k] ensures a == orig[k] {
      var i :| 0 <= i < |orig| && orig[i] == a;
      assert order[i] == order[k];
    }
  }

  lemma TiledIn(m: map<nat, Object>, base: nat, order: seq<nat>, end: nat)
    requires Tiled(m, base, order, end)
    ensures forall i :: 0 <= i < |order| ==> order[i] in m
  {
    hide Sum;
  }

  lemma ScannedNext(s: Start, objs: map<nat, Object>, order: seq<nat>, orig: seq<nat>, fwd: map<nat, nat>, k: nat)
    requires Copied(s, order, orig, fwd) && forall i :: 0 <= i < |order| ==> order[i] in objs
    requires Scanned(s, objs, order, orig, fwd, k, k) && k < |order|
    ensures Scanned(s, objs, order, orig, fwd, k, k + 1)
    ensures |orig| == |order| && orig[k] in s.objs && objs[order[k]] == s.objs[orig[k]]
  {
    hide Forwarded, Reachable, Distinct;
  }

  lemma NoTombs(s: Start, a: nat)
    requires Started(s) && a in s.objs
    ensures !s.objs[a].Moved?
  {
    hide Tiled, Closed, RootsClosed;
  }

  lemma CopyOf(s: Start, objs: map<nat, Object>, order: seq<nat>, orig: seq<nat>, fwd: map<nat, nat>, a: nat)
    requires Finished(s, objs, order, orig, fwd) && a in fwd
    ensures a in s.objs && fwd[a] in objs && Forwarded(s.base, s.objs[a], objs[fwd[a]], fwd)
    ensures Reachable(s.objs, s.roots, a)
    ensures exists i :: 0 <= i < |order| && order[i] == fwd[a] && i < |orig| && orig[i] == a
  {
    hide Reachable, Forwarded;
    var i :| 0 <= i < |orig| && orig[i] == a;
    assert order[i] == fwd[a];
  }

  lemma ForwardedFits(base: nat, o: Object, copy: Object, fwd: map<nat, nat>, word: nat)
    requires Forwarded(base, o, copy, fwd) && Fits(o, word)
    ensures Fits(copy, word)
  {
  }

  lemma CopyAt(s: Start, objs: map<nat, Object>, order: seq<nat>, orig: seq<nat>, fwd: map<nat, nat>, b: nat) returns (a: nat)
    requires Finished(s, objs, order, orig, fwd) && b in objs
    ensures a in fwd && fwd[a] == b && a in s.objs && Forwarded(s.base, s.objs[a], objs[b], fwd)
    ensures objs[b].size == s.objs[a].size
  {
    hide Reachable, Forwarded;
    var i :| 0 <= i < |order| && order[i] == b;
    a := orig[i];
  }

  /** A reference of a copy is what a reference of the original has become. */
  lemma CopyRef(base: nat, o: Object, copy: Object, fwd: map<nat, nat>, b: nat) returns (r: nat)
    requires Forwarded(base, o, copy, fwd) && b in Refs(copy)
    ensures r in Refs(o) && b == To(fwd, r)
  {
    r :| r in Refs(o) && b == To(fwd, r);
  }

  /** References and roots of a finished copy lead to copies or out of both spaces. */
  lemma CopyClosed(s: Start, objs: map<nat, Object>, base: nat, order: seq<nat>, orig: seq<nat>, fwd: map<nat, nat>)
    requires Started(s) && Unused(s.objs, s.roots, base)
    requires Finished(s, objs, order, orig, fwd)
    ensures Closed(objs, base) && forall a :: a in objs ==> !objs[a].Moved?
  {
    hide Reachable, Finished, Forwarded, Closed, Tiled;
    forall b | b in objs
      ensures !objs[b].Moved?
    {
      var a := CopyAt(s, objs, order, orig, fwd, b);
      MappedKind(s.base, s.objs[a], objs[b], fwd);
    }
    forall b, c | b in objs && c in Refs(objs[b]) && InSpace(base, c)
      ensures c in objs
    {
      var a := CopyAt(s, objs, order, orig, fwd, b);
      var r := CopyRef(s.base, s.objs[a], objs[b], fwd, c);
      if r in fwd {
        CopyOf(s, objs, order, orig, fwd, r);
      }
    }
    assert Closed(objs, base) by { ClosedIntro(objs, base); }
  }

  lemma ClosedIntro(m: map<nat, Object>, base: nat)
    requires forall a, b :: a in m && b in Refs(m[a]) && InSpace(base, b) ==> b in m
    ensures Closed(m, base)
  {
  }

  lemma MappedKind(base: nat, o: Object, copy: Object, fwd: map<nat, nat>)
    requires Forwarded(base, o, copy, fwd)
    ensures copy.Moved? <==> o.Moved?
  {
  }

  /** Every reachable object has been copied. */
  lemma AllCopied(s: Start, objs: map<nat, Object>, order: seq<nat>, orig: seq<nat>, fwd: map<nat, nat>, a: nat)
    requires Started(s) && Finished(s, objs, order, orig, fwd)
    requires forall r :: IsRoot(s.roots, r) && InSpace(s.base, r) ==> r in fwd
    requires Reachable(s.objs, s.roots, a)
    ensures a in fwd
  {
    hide Finished, Forwarded, Started, IsRoot;
    StartedSpace(s);
    var p :| IsPath(s.objs, s.roots, p) && p[|p| - 1] == a;
    forall x, y | x in fwd.Keys && x in s.objs && y in Refs(s.objs[x]) && y in s.objs
      ensures y in fwd.Keys
    {
      CopyOf(s, objs, order, orig, fwd, x);
      ForwardedRefs(s.base, s.objs[x], objs[fwd[x]], fwd, y);
    }
    ClosedHoldsPath(s.objs, s.roots, fwd.Keys, p);
  }

  lemma ForwardedRefs(base: nat, o: Object, copy: Object, fwd: map<nat, nat>, r: nat)
    requires Forwarded(base, o, copy, fwd) && r in Refs(o) && InSpace(base, r)
    ensures r in fwd
  {
  }

  /** What has been forwarded stays where it is. */
  ghost predicate Kept(f0: map<nat, nat>, f1: map<nat, nat>) {
    forall a :: a in f0 ==> a in f1 && f1[a] == f0[a]
  }

  /** roundup. */
  function RoundUp(v: nat, w: nat): nat
    requires w > 0
  {
    (v + w - 1) / w * w
  }

  lemma RoundedUp(v: nat, w: nat)
    requires w == 4 || w == 8
    ensures v <= RoundUp(v, w) < v + w && RoundUp(v, w) % w == 0
  {
  }

  datatype Tag = TINT | TCELL | TSYMBOL | TPRIMITIVE | TFUNCTION | TMACRO | TENV

  /** The bytes of content the constructors ask for, at least. */
  function Needs(tag: Tag, word: nat): nat {
    match tag
    case TINT => 4
    case TCELL => 2 * word
    case TSYMBOL => 1
    case TPRIMITIVE => word
    case TFUNCTION => 3 * word
    case TMACRO => 3 * word
    case TENV => 2 * word
  }

  /** What alloc rounds to leaves room for a tombstone exactly if any content is asked for at all. */
  lemma TombstoneRoom(size: nat, w: nat)
    requires w == 4 || w == 8
    ensures HEADER + w <= RoundUp(RoundUp(size, w) + HEADER, w) <==> size > 0
  {
    RoundedUp(size, w);
    RoundedUp(RoundUp(size, w) + HEADER, w);
    if size > 0 {
      AtLeastOne(RoundUp(size, w), w);
    }
  }

  lemma AtLeastOne(v: nat, w: nat)
    requires w > 0 && v > 0 && v % w == 0
    ensures v >= w
  {
  }

  /** An object whose content has not been set; its references are taken to be null. */
  function Blank(tag: Tag, size: nat): (o: Object)
    ensures o.size == size && !o.Moved? && forall r :: r in Refs(o) ==> r == 0
    ensures (o.Int? <==> tag == TINT) && (o.Cell? <==> tag == TCELL) && (o.Symbol? <==> tag == TSYMBOL)
    ensures (o.Primitive? <==> tag == TPRIMITIVE) && (o.Env? <==> tag == TENV) && (o.Function? && o.macro <==> tag == TMACRO)
  {
    match tag
    case TINT => Int(size, 0)
    case TCELL => Cell(size, 0, 0)
    case TSYMBOL => Symbol(size, "")
    case TPRIMITIVE => Primitive(size, 0)
    case TFUNCTION => Function(size, false, 0, 0, 0)
    case TMACRO => Function(size, true, 0, 0, 0)
    case TENV => Env(size, 0, 0)
  }

  lemma BlankFits(tag: Tag, total: nat, size: nat, word: nat)
    requires HEADER + word <= total && HEADER + size <= total && size >= Needs(tag, word)
    ensures Fits(Blank(tag, total), word)
  {
  }

  lemma ClosedMore(m: map<nat, Object>, base: nat, a: nat, o: Object)
    requires Closed(m, base) && a !in m && forall r :: r in Refs(o) && InSpace(base, r) ==> r in m
    ensures Closed(m[a := o], base)
  {
    var m' := m[a := o];
    forall x, r | x in m' && r in Refs(m'[x]) && InSpace(base, r)
      ensures r in m'
    {
      if x != a {
        assert r in Refs(m[x]);
      }
    }
  }

  lemma ClosedSet(m: map<nat, Object>, base: nat, a: nat, o: Object)
    requires Closed(m, base) && a in m && forall r :: r in Refs(o) && InSpace(base, r) ==> r in m
    ensures Closed(m[a := o], base)
  {
    var m' := m[a := o];
    forall x, r | x in m' && r in Refs(m'[x]) && InSpace(base, r)
      ensures r in m'
    {
      if x != a {
        assert r in Refs(m[x]);
      }
    }
  }

  /** An Obj **: the place of a root. */
  datatype Slot = Slot(frame: nat, index: nat)

  /** How the heap and the roots have changed: not at all, or by a collection that moved objects by f. */
  ghost predicate Change(collected: bool, f: map<nat, nat>, m0: map<nat, Object>, r0: Roots, m1: map<nat, Object>, r1: Roots) {
    if collected then Isomorphic(m0, r0, m1, r1, f) else f == map[] && m1 == m0 && r1 == r0
  }

  /** A space that was unused before is so after, if it is not the one objects have been moved to. */
  lemma StillUnused(collected: bool, f: map<nat, nat>, m0: map<nat, Object>, r0: Roots, m1: map<nat, Object>, r1: Roots,
                    base: nat, space: nat)
    requires Change(collected, f, m0, r0, m1, r1) && Unused(m0, r0, space)
    requires collected ==> Apart(base, space) && forall a :: a in m1 ==> InSpace(base, a)
    ensures Unused(m1, r1, space)
  {
    hide Reachable, Refs, IsRoot, Mapped, InSpace, Apart;
    if collected {
      forall a, r | a in f && r in Refs(Mapped(m0[a], f))
        ensures !InSpace(space, r)
      {
        MovedRef(f, m0[a], r, base, space);
      }
      forall c | IsRoot(r1, c)
        ensures !InSpace(space, c)
      {
        MovedRoot(f, r0, r1, c, base, space);
      }
    }
  }

  lemma MovedRef(f: map<nat, nat>, o: Object, r: nat, base: nat, space: nat)
    requires r in Refs(Mapped(o, f)) && (forall b :: b in Refs(o) ==> !InSpace(space, b))
    requires Apart(base, space) && forall a :: a in f ==> InSpace(base, f[a])
    ensures !InSpace(space, r)
  {
    var b :| b in Refs(o) && r == To(f, b);
  }

  lemma MovedRoot(f: map<nat, nat>, r0: Roots, r1: Roots, c: nat, base: nat, space: nat)
    requires IsRoot(r1, c) && (forall b :: IsRoot(r0, b) ==> !InSpace(space, b))
    requires r1.symbols == To(f, r0.symbols) && |r1.frames| == |r0.frames|
    requires forall i :: 0 <= i < |r1.frames| ==> |r1.frames[i]| == |r0.frames[i]|
    requires forall i, j :: 0 <= i < |r1.frames| && 0 <= j < |r1.frames[i]| ==> r1.frames[i][j] == To(f, r0.frames[i][j])
    requires Apart(base, space) && forall a :: a in f ==> InSpace(base, f[a])
    ensures !InSpace(space, c)
  {
    if c == r1.symbols {
      assert IsRoot(r0, r0.symbols);
    } else {
      var i, j :| 0 <= i < |r1.frames| && 0 <= j < |r1.frames[i]| && r1.frames[i][j] == c;
      assert IsRoot(r0, r0.frames[i][j]);
    }
  }

  class Lisp {
    /** sizeof(void *). */
    const word: nat
    const alwaysGc: bool

    /** The current semi-space, its objects by address, and the bytes in use. */
    var memory: nat
    var objs: map<nat, Object>
    var memNused: nat

    /** The other semi-space during a collection. */
    var fromSpace: nat
    var fromObjs: map<nat, Object>
    var scan1: nat
    var scan2: nat
    var gcRunning: bool

    /** The list of symbols, and the root frames on the C stack, innermost first. */
    var symbols: nat
    var frames: seq<seq<nat>>

    /** The addresses of the objects in the current space in the order they lie there. */
    ghost var order: seq<nat>

    /** During a collection: the originals of the copies, and where each has gone. */
    ghost var orig: seq<nat>
    ghost var fwd: map<nat, nat>

    ghost function RootSet(): Roots
      reads this`symbols, this`frames
    {
      Roots(symbols, frames)
    }

    ghost predicate Collecting(s: Start, b: nat, g: nat)
      reads this`memory, this`objs, this`fromSpace, this`fromObjs, this`scan2, this`order, this`orig, this`fwd
    {
      && Started(s) && fromSpace == s.base && Apart(memory, fromSpace)
      && Tiled(objs, memory, order, scan2) && scan2 <= memory + s.used
      && Copied(s, order, orig, fwd) && Tombs(s, fromObjs, fwd)
      && Scanned(s, objs, order, orig, fwd, b, g)
    }

    /** The copies made before are still there and have not moved. */
    ghost predicate Extends(objs0: map<nat, Object>, order0: seq<nat>, fwd0: map<nat, nat>)
      reads this`objs, this`order, this`fwd
    {
      && order0 <= order
      && (forall a :: a in objs0 ==> a in objs && objs[a] == objs0[a])
      && Kept(fwd0, fwd)
    }

    /** forward: the new address of an object, which is copied if it is still in the old space. */
    method Forward(obj: nat, ghost s: Start, ghost b: nat, ghost g: nat) returns (r: nat)
      requires Collecting(s, b, g)
      requires InSpace(s.base, obj) ==> obj in s.objs && Reachable(s.objs, s.roots, obj)
      modifies this`objs, this`fromObjs, this`scan2, this`order, this`orig, this`fwd
      ensures Collecting(s, b, g)
      ensures ForwardedRef(s.base, obj, r, fwd)
      ensures Extends(old(objs), old(order), old(fwd))
    {
      hide Reachable, Tiled, Scanned, Copied, Started, Tombs, Kept;
      CopiedFacts(s);
      KeptMore(fwd, obj, scan2);
      if InSpace(s.base, obj) { Tombed(s, obj); }
      if obj < fromSpace || fromSpace + MEMORY_SIZE <= obj {
        return obj;
      }
      if fromObjs[obj].Moved? {
        return fromObjs[obj].moved;
      }
      var newloc := scan2;
      ghost var o := fromObjs[obj];
      MoreCopies(s, b, g, obj);
      TombsMore(s, fromObjs, fwd, obj, newloc);
      objs := objs[newloc := fromObjs[obj]];
      scan2 := scan2 + fromObjs[obj].size;
      fromObjs := fromObjs[obj := Moved(fromObjs[obj].size, newloc)];
      order, orig, fwd := order + [newloc], orig + [obj], fwd[obj := newloc];
      r := newloc;
    }

    /** What the old space holds at the object. */
    lemma Tombed(s: Start, a: nat)
      requires Tombs(s, fromObjs, fwd) && a in s.objs
      ensures a in fromObjs && fromObjs[a] == if a in fwd then Moved(s.objs[a].size, fwd[a]) else s.objs[a]
    {
    }

    lemma KeptMore(f: map<nat, nat>, a: nat, b: nat)
      ensures Kept(f, f)
      ensures a !in f ==> Kept(f, f[a := b])
    {
    }

    lemma TombsMore(s: Start, from: map<nat, Object>, f: map<nat, nat>, a: nat, b: nat)
      requires Tombs(s, from, f) && a in s.objs
      ensures Tombs(s, from[a := Moved(s.objs[a].size, b)], f[a := b])
    {
    }

    lemma CopiedFacts(s: Start)
      requires Started(s) && Copied(s, order, orig, fwd)
      ensures forall a :: a in fwd ==> a in s.objs
      ensures forall a :: a in s.objs ==> InSpace(s.base, a) && !s.objs[a].Moved?
    {
      StartedSpace(s);
    }

    lemma MoreCopies(s: Start, b: nat, g: nat, a: nat)
      requires Collecting(s, b, g) && a in s.objs && a !in fwd && Reachable(s.objs, s.roots, a)
      ensures var end := scan2;
              && end !in objs && end + s.objs[a].size <= memory + s.used
              && Tiled(objs[end := s.objs[a]], memory, order + [end], end + s.objs[a].size)
              && Copied(s, order + [end], orig + [a], fwd[a := end])
              && Scanned(s, objs[end := s.objs[a]], order + [end], orig + [a], fwd[a := end], b, g)
    {
      hide Reachable, Sum;
      RoomForCopy(s, objs, order, orig, fwd, b, g, a);
      TiledMore(objs, memory, order, scan2, s.objs[a]);
      ScannedMore(s, objs, order, orig, fwd, b, g, a, scan2);
    }

    lemma RefKept(base: nat, a: nat, copy: nat, fwd0: map<nat, nat>)
      requires Kept(fwd0, fwd) && ForwardedRef(base, a, copy, fwd0)
      requires forall x :: x in fwd ==> InSpace(base, x)
      ensures ForwardedRef(base, a, copy, fwd)
    {
    }

    lemma FramesKept(s: Start, frames0: seq<seq<nat>>, i: nat, j: nat, fwd0: map<nat, nat>)
      requires Kept(fwd0, fwd) && FramesDone(s, frames0, fwd0, i, j)
      requires forall x :: x in fwd ==> InSpace(s.base, x)
      ensures FramesDone(s, frames0, fwd, i, j)
    {
      hide ForwardedRef, Kept;
      forall k, l | 0 <= k < |frames0| && 0 <= l < |frames0[k]| && (k < i || (k == i && l < j))
        ensures ForwardedRef(s.base, s.roots.frames[k][l], frames0[k][l], fwd)
      {
        RefKept(s.base, s.roots.frames[k][l], frames0[k][l], fwd0);
      }
    }

    lemma KeysInSpace(s: Start, b: nat, g: nat)
      requires Collecting(s, b, g)
      ensures forall x :: x in fwd ==> InSpace(s.base, x)
    {
      CopiedFacts(s);
    }

    lemma RootReach(s: Start, a: nat)
      requires Started(s) && IsRoot(s.roots, a) && InSpace(s.base, a)
      ensures a in s.objs && Reachable(s.objs, s.roots, a)
    {
      ReachRoot(s.objs, s.roots, a);
    }

    /** One root slot. */
    method ForwardSlot(i: nat, j: nat, ghost s: Start)
      requires Collecting(s, 0, 0) && ForwardedRef(s.base, s.roots.symbols, symbols, fwd) && s.base > 0
      requires i < |frames| && FramesDone(s, frames, fwd, i, j) && j < |frames[i]|
      modifies this`objs, this`fromObjs, this`scan2, this`order, this`orig, this`fwd, this`frames
      ensures Collecting(s, 0, 0) && ForwardedRef(s.base, s.roots.symbols, symbols, fwd)
      ensures FramesDone(s, frames, fwd, i, j + 1)
    {
      hide Collecting, Started, ForwardedRef, Kept;
      ghost var fwd0 := fwd;
      ghost var a := s.roots.frames[i][j];
      SlotReach(s, 0, 0, i, j);
      if frames[i][j] != 0 {
        var r := Forward(frames[i][j], s, 0, 0);
        KeysInSpace(s, 0, 0);
        FramesKept(s, frames, i, j, fwd0);
        RefKept(s.base, s.roots.symbols, symbols, fwd0);
        frames := frames[i := frames[i][j := r]];
      }
    }

    lemma SlotReach(s: Start, b: nat, g: nat, i: nat, j: nat)
      requires Collecting(s, b, g) && i < |s.roots.frames| && j < |s.roots.frames[i]|
      ensures InSpace(s.base, s.roots.frames[i][j]) ==>
                s.roots.frames[i][j] in s.objs && Reachable(s.objs, s.roots, s.roots.frames[i][j])
      ensures s.base > 0 ==> ForwardedRef(s.base, 0, 0, fwd)
    {
      CopiedFacts(s);
      assert IsRoot(s.roots, s.roots.frames[i][j]);
      if InSpace(s.base, s.roots.frames[i][j]) {
        RootReach(s, s.roots.frames[i][j]);
      }
    }

    /** forward_root_objects. */
    method ForwardRoots(ghost s: Start)
      requires Collecting(s, 0, 0) && s.roots == RootSet() && s.base > 0
      modifies this`objs, this`fromObjs, this`scan2, this`order, this`orig, this`fwd, this`symbols, this`frames
      ensures Collecting(s, 0, 0)
      ensures ForwardedRef(s.base, s.roots.symbols, symbols, fwd)
      ensures FramesDone(s, frames, fwd, |frames|, 0)
    {
      hide Collecting, Extends, Started, ForwardedRef, Reachable;
      SymbolsReach(s, 0, 0);
      symbols := Forward(symbols, s, 0, 0);
      var i := 0;
      while i < |frames|
        invariant Collecting(s, 0, 0) && ForwardedRef(s.base, s.roots.symbols, symbols, fwd)
        invariant i <= |frames| && FramesDone(s, frames, fwd, i, 0)
      {
        var j := 0;
        while j < |frames[i]|
          invariant Collecting(s, 0, 0) && ForwardedRef(s.base, s.roots.symbols, symbols, fwd)
          invariant i < |frames| && j <= |frames[i]| && FramesDone(s, frames, fwd, i, j)
          invariant |frames| == |s.roots.frames|
          decreases |s.roots.frames[i]| - j
        {
          ForwardSlot(i, j, s);
          j := j + 1;
        }
        i := i + 1;
      }
    }

    lemma SymbolsReach(s: Start, b: nat, g: nat)
      requires Collecting(s, b, g)
      ensures InSpace(s.base, s.roots.symbols) ==> s.roots.symbols in s.objs && Reachable(s.objs, s.roots, s.roots.symbols)
    {
      if InSpace(s.base, s.roots.symbols) {
        RootReach(s, s.roots.symbols);
      }
    }

    // ----- the scan -----

    /** The k-th copy, which is being scanned: its references are those of its original, forwarded up to the n-th. */
    ghost predicate Scanning(s: Start, k: nat, o: Object)
      reads this`memory, this`objs, this`fromSpace, this`fromObjs, this`scan1, this`scan2, this`order, this`orig, this`fwd
    {
      && Collecting(s, k, k + 1) && k < |order| && scan1 == order[k] && scan1 in objs && o == s.objs[orig[k]]
    }

    /** A reference of the object being scanned may be forwarded. */
    lemma RefReach(s: Start, k: nat, o: Object, r: nat)
      requires Scanning(s, k, o) && r in Refs(o)
      ensures InSpace(s.base, r) ==> r in s.objs && Reachable(s.objs, s.roots, r)
    {
      hide Reachable, Tiled;
      if InSpace(s.base, r) {
        assert orig[k] in s.objs && orig[k] in fwd;
        ReachRef(s.objs, s.roots, orig[k], r);
      }
    }

    /** Forwards one reference of the object being scanned; the object itself is not yet changed. */
    method ForwardRef(r: nat, ghost s: Start, ghost k: nat, ghost o: Object) returns (to: nat)
      requires Scanning(s, k, o) && r in Refs(o)
      modifies this`objs, this`fromObjs, this`scan2, this`order, this`orig, this`fwd
      ensures Scanning(s, k, o) && objs[scan1] == old(objs)[scan1]
      ensures ForwardedRef(s.base, r, to, fwd)
      ensures Kept(old(fwd), fwd)
      ensures forall a, c :: ForwardedRef(s.base, a, c, old(fwd)) ==> ForwardedRef(s.base, a, c, fwd)
    {
      hide Collecting, ForwardedRef, Reachable;
      ghost var fwd0 := fwd;
      RefReach(s, k, o, r);
      OriginalAt(s, k);
      to := Forward(r, s, k, k + 1);
      OriginalAt(s, k);
      KeysInSpace(s, k, k + 1);
      forall a, c | ForwardedRef(s.base, a, c, fwd0)
        ensures ForwardedRef(s.base, a, c, fwd)
      {
        RefKept(s.base, a, c, fwd0);
      }
    }

    /** The k-th copy's original is the one that was sent to its address. */
    lemma OriginalAt(s: Start, k: nat)
      requires Collecting(s, k, k + 1) && k < |order|
      ensures k < |orig| && orig[k] in s.objs && orig[k] in fwd && fwd[orig[k]] == order[k]
      ensures forall a :: a in fwd && fwd[a] == order[k] ==> a == orig[k]
    {
      hide Sum, Started, Tombs, Scanned, Reachable, Tiled;
      TiledApart(objs, memory, order, scan2);
      OriginalOnly(s, order, orig, fwd, k);
    }

    /** Overwrites the object being scanned. */
    method SetScanned(o': Object, ghost s: Start, ghost k: nat, ghost o: Object)
      requires Scanning(s, k, o) && o'.size == objs[scan1].size
      modifies this`objs
      ensures Scanning(s, k, o) && objs[scan1] == o'
    {
      hide Tiled, Started, Copied, Tombs;
      TiledUpdate(objs, memory, order, scan2, scan1, o');
      OrderApart(s, k);
      objs := objs[scan1 := o'];
    }

    lemma OrderApart(s: Start, k: nat)
      requires Collecting(s, k, k + 1) && k < |order|
      ensures forall i :: 0 <= i < |order| && i != k ==> order[i] != order[k]
      ensures forall i :: 0 <= i < |order| ==> order[i] in objs
    {
      TiledApart(objs, memory, order, scan2);
    }

    lemma ScanStarts(s: Start, k: nat)
      requires Collecting(s, k, k) && k < |order|
      ensures Collecting(s, k, k + 1) && k < |orig| && orig[k] in s.objs && order[k] in objs && objs[order[k]] == s.objs[orig[k]]
      ensures !s.objs[orig[k]].Moved?
    {
      hide Tombs, Closed, Reachable, Tiled, Started, Copied, WellFormed;
      TiledIn(objs, memory, order, scan2);
      ScannedNext(s, objs, order, orig, fwd, k);
      NoTombs(s, orig[k]);
    }

    lemma ScanEnds(s: Start, k: nat, o: Object)
      requires Scanning(s, k, o) && Forwarded(s.base, o, objs[scan1], fwd)
      ensures Collecting(s, k + 1, k + 1)
    {
      hide Started, Tombs, Reachable, Forwarded;
    }

    /** One turn of the scan loop: the references of the object at scan1 are forwarded in place. */
    method ScanObject(ghost s: Start, ghost k: nat)
      requires Collecting(s, k, k) && k < |order| && scan1 == order[k]
      modifies this`objs, this`fromObjs, this`scan2, this`order, this`orig, this`fwd
      ensures Collecting(s, k + 1, k + 1) && k < |order| && scan1 == order[k] && Kept(old(fwd), fwd)
    {
      hide Collecting;
      ScanStarts(s, k);
      ghost var o := s.objs[orig[k]];
      match objs[scan1] {
        case Int(_, _) =>
        case Symbol(_, _) =>
        case Primitive(_, _) =>
        case Cell(_, car, cdr) =>
          var r := ForwardRef(car, s, k, o);
          SetScanned(objs[scan1].(car := r), s, k, o);
          r := ForwardRef(objs[scan1].cdr, s, k, o);
          SetScanned(objs[scan1].(cdr := r), s, k, o);
        case Function(_, _, params, body, env) =>
          var r := ForwardRef(params, s, k, o);
          SetScanned(objs[scan1].(params := r), s, k, o);
          r := ForwardRef(objs[scan1].body, s, k, o);
          SetScanned(objs[scan1].(body := r), s, k, o);
          r := ForwardRef(objs[scan1].env, s, k, o);
          SetScanned(objs[scan1].(env := r), s, k, o);
        case Env(_, vars, up) =>
          var r := ForwardRef(vars, s, k, o);
          SetScanned(objs[scan1].(vars := r), s, k, o);
          r := ForwardRef(objs[scan1].up, s, k, o);
          SetScanned(objs[scan1].(up := r), s, k, o);
      }
      ScanEnds(s, k, o);
    }

    // ----- the collection -----

    ghost predicate Valid()
      reads this`memory, this`objs, this`memNused, this`symbols, this`frames, this`order, this`gcRunning
      ensures Valid() ==> word == 4 || word == 8
    {
      && (word == 4 || word == 8) && memory > 0 && memory % word == 0 && memNused % word == 0
      && WellFormed(objs, memory, order, memNused) && Aligned(objs, word)
      && RootsClosed(objs, memory, RootSet())
      && !gcRunning
    }

    /** A space alloc_semispace may return. */
    ghost predicate NewSpace(space: nat)
      reads this`memory, this`objs, this`symbols, this`frames
      requires word > 0
    {
      space > 0 && space % word == 0 && Apart(space, memory) && Unused(objs, RootSet(), space)
    }

    /** Where the k-th copy and the one after it lie. */
    lemma ScanPlace(s: Start, b: nat, k: nat)
      requires Collecting(s, b, b)
      ensures b <= |order| <= |s.order| && memory <= scan2
      ensures k < |order| ==>
                && order[k] in objs && order[k] < scan2
                && order[k] + objs[order[k]].size == (if k + 1 < |order| then order[k + 1] else scan2)
      ensures if |order| > 0 then order[0] == memory else scan2 == memory
    {
      hide Sum, Started, Copied, Tombs, Scanned;
      CopiesBounded(s, b);
      if k < |order| {
        TiledNext(objs, memory, order, scan2, k);
      }
      FirstPlace(objs, memory, order, scan2);
    }

    lemma FirstPlace(m: map<nat, Object>, base: nat, order: seq<nat>, end: nat)
      requires Tiled(m, base, order, end)
      ensures base <= end && if |order| > 0 then order[0] == base else end == base
    {
      assert |order| > 0 ==> order[..0] == [];
    }

    lemma CopiesBounded(s: Start, b: nat)
      requires Collecting(s, b, b)
      ensures b <= |order| <= |s.order|
    {
      hide Sum, Tombs, Reachable, Closed;
      assert forall i :: 0 <= i < |orig| ==> orig[i] in s.order;
      SumWithin(s.objs, orig, s.order);
    }

    lemma CollectingNow(s: Start, b: nat, g: nat)
      requires Started(s) && fromSpace == s.base && Apart(memory, fromSpace)
      requires Tiled(objs, memory, order, scan2) && scan2 <= memory + s.used
      requires Copied(s, order, orig, fwd) && Tombs(s, fromObjs, fwd)
      requires Scanned(s, objs, order, orig, fwd, b, g)
      ensures Collecting(s, b, g)
    {
    }

    lemma StartCollecting(s: Start, space: nat)
      requires Started(s) && Apart(space, s.base)
      ensures Tiled(map[], space, [], space) && Copied(s, [], [], map[]) && Tombs(s, s.objs, map[])
      ensures Scanned(s, map[], [], [], map[], 0, 0)
    {
    }

    /** What the collection has done, once the scan has caught up. */
    lemma Collected(s: Start, w: nat)
      requires Collecting(s, |order|, |order|) && Unused(s.objs, s.roots, memory)
      requires ForwardedRef(s.base, s.roots.symbols, symbols, fwd) && FramesDone(s, frames, fwd, |frames|, 0)
      requires (w == 4 || w == 8) && memory % w == 0 && Aligned(s.objs, w)
      ensures Isomorphic(s.objs, s.roots, objs, RootSet(), fwd)
      ensures WellFormed(objs, memory, order, scan2 - memory) && RootsClosed(objs, memory, RootSet())
      ensures Aligned(objs, w) && (scan2 - memory) % w == 0
      ensures Distinct(orig) && (forall a :: a in orig ==> a in fwd) && (forall a :: a in fwd ==> a in orig)
      ensures (forall i :: 0 <= i < |orig| ==> orig[i] in s.objs) && scan2 - memory == Sum(s.objs, orig) <= s.used
    {
      hide Sum, Reachable, Tombs, IsRoot, Tiled, Finished, Forwarded, Unused, Closed, Scanned, Aligned, Started;
      IsFinished(s);
      CopyClosed(s, objs, memory, order, orig, fwd);
      CollectedSizes(s, w);
      CollectedRoots(s);
      CollectedCopies(s);
      UsedIsNat(s);
    }

    lemma UsedIsNat(s: Start)
      requires Collecting(s, |order|, |order|)
      ensures memory <= scan2 && scan2 - memory <= s.used <= MEMORY_SIZE
      ensures Tiled(objs, memory, order, memory + (scan2 - memory))
    {
    }

    lemma IsFinished(s: Start)
      requires Collecting(s, |order|, |order|)
      ensures Finished(s, objs, order, orig, fwd)
    {
      hide Sum, Reachable, Forwarded;
    }

    lemma CollectedSizes(s: Start, w: nat)
      requires Collecting(s, |order|, |order|) && (w == 4 || w == 8) && memory % w == 0 && Aligned(s.objs, w)
      ensures Aligned(objs, w) && (scan2 - memory) % w == 0
      ensures (forall i :: 0 <= i < |orig| ==> orig[i] in s.objs) && scan2 - memory == Sum(s.objs, orig)
    {
      hide Sum, Reachable, Tombs, Started, Forwarded, Finished;
      IsFinished(s);
      SumAcross(objs, order, s.objs, orig);
      SizesAligned(s, w);
      TiledAligned(objs, memory, order, scan2, w);
      EndAligned(memory, Sum(objs, order), w);
    }

    lemma EndAligned(a: nat, b: nat, w: nat)
      requires (w == 4 || w == 8) && a % w == 0 && (a + b) % w == 0
      ensures b % w == 0
    {
    }

    lemma SizesAligned(s: Start, w: nat)
      requires Finished(s, objs, order, orig, fwd) && w > 0 && Aligned(s.objs, w)
      ensures forall b :: b in objs ==> objs[b].size % w == 0 && Fits(objs[b], w)
    {
      hide Finished, Forwarded, Fits;
      forall b | b in objs
        ensures objs[b].size % w == 0 && Fits(objs[b], w)
      {
        var a := CopyAt(s, objs, order, orig, fwd, b);
        assert Fits(s.objs[a], w);
        ForwardedFits(s.base, s.objs[a], objs[b], fwd, w);
      }
    }

    lemma CollectedRoots(s: Start)
      requires Collecting(s, |order|, |order|) && Unused(s.objs, s.roots, memory)
      requires ForwardedRef(s.base, s.roots.symbols, symbols, fwd) && FramesDone(s, frames, fwd, |frames|, 0)
      ensures RootsClosed(objs, memory, RootSet())
      ensures forall r :: IsRoot(s.roots, r) && InSpace(s.base, r) ==> r in fwd
    {
      hide Collecting, Finished, Forwarded, ForwardedRef, FramesDone, IsRoot;
      IsFinished(s);
      forall r | IsRoot(s.roots, r) && InSpace(s.base, r)
        ensures r in fwd
      {
        RootsForwarded(s, r);
      }
      forall c | IsRoot(RootSet(), c) && InSpace(memory, c)
        ensures c in objs
      {
        RootOrigin(s, c);
        var r :| IsRoot(s.roots, r) && c == To(fwd, r);
        if r in fwd {
          CopyOf(s, objs, order, orig, fwd, r);
        }
      }
    }

    lemma RootsForwarded(s: Start, r: nat)
      requires ForwardedRef(s.base, s.roots.symbols, symbols, fwd) && FramesDone(s, frames, fwd, |frames|, 0)
      requires IsRoot(s.roots, r) && InSpace(s.base, r)
      ensures r in fwd
    {
    }

    lemma RootOrigin(s: Start, c: nat)
      requires ForwardedRef(s.base, s.roots.symbols, symbols, fwd) && FramesDone(s, frames, fwd, |frames|, 0)
      requires IsRoot(RootSet(), c)
      ensures exists r :: IsRoot(s.roots, r) && c == To(fwd, r)
    {
      if c == symbols {
        assert IsRoot(s.roots, s.roots.symbols);
      } else {
        var i, j :| 0 <= i < |frames| && 0 <= j < |frames[i]| && frames[i][j] == c;
        assert IsRoot(s.roots, s.roots.frames[i][j]);
      }
    }

    lemma CollectedCopies(s: Start)
      requires Collecting(s, |order|, |order|)
      requires forall r :: IsRoot(s.roots, r) && InSpace(s.base, r) ==> r in fwd
      ensures forall a :: a in fwd ==> Reachable(s.objs, s.roots, a)
      ensures forall a :: Reachable(s.objs, s.roots, a) ==> a in fwd
      ensures forall a, b :: a in fwd && b in fwd && fwd[a] == fwd[b] ==> a == b
      ensures objs.Keys == fwd.Values
      ensures forall a :: a in fwd ==> a in s.objs && fwd[a] in objs && objs[fwd[a]] == Mapped(s.objs[a], fwd)
    {
      hide Sum, Reachable, Tombs, Started, Closed, Finished, Forwarded, Copied, Scanned, Tiled, IsRoot;
      IsFinished(s);
      TiledApart(objs, memory, order, scan2);
      forall a | Reachable(s.objs, s.roots, a)
        ensures a in fwd
      {
        AllCopied(s, objs, order, orig, fwd, a);
      }
      forall a | a in fwd
        ensures a in s.objs && fwd[a] in objs && objs[fwd[a]] == Mapped(s.objs[a], fwd)
        ensures Reachable(s.objs, s.roots, a)
      {
        CopyOf(s, objs, order, orig, fwd, a);
        MappedBy(s.base, s.objs[a], objs[fwd[a]], fwd);
      }
      forall a, b | a in fwd && b in fwd && fwd[a] == fwd[b]
        ensures a == b
      {
        CopyOf(s, objs, order, orig, fwd, a);
        CopyOf(s, objs, order, orig, fwd, b);
      }
      forall b | b in objs
        ensures b in fwd.Values
      {
        var a := CopyAt(s, objs, order, orig, fwd, b);
      }
    }

    lemma MappedBy(base: nat, o: Object, copy: Object, f: map<nat, nat>)
      requires Forwarded(base, o, copy, f)
      ensures copy == Mapped(o, f)
    {
    }

    /** The scan loop: until it has caught up with the end of the copies. */
    method Scan(ghost s: Start)
      requires Collecting(s, 0, 0) && scan1 == memory
      requires ForwardedRef(s.base, s.roots.symbols, symbols, fwd) && FramesDone(s, frames, fwd, |frames|, 0)
      modifies this`objs, this`fromObjs, this`scan1, this`scan2, this`order, this`orig, this`fwd
      ensures Collecting(s, |order|, |order|) && scan1 == scan2
      ensures ForwardedRef(s.base, s.roots.symbols, symbols, fwd) && FramesDone(s, frames, fwd, |frames|, 0)
    {
      hide Collecting, ForwardedRef, FramesDone, Kept;
      ghost var k := 0;
      ScanPlace(s, 0, 0);
      while scan1 < scan2
        invariant Collecting(s, k, k) && k <= |order|
        invariant scan1 == if k < |order| then order[k] else scan2
        invariant ForwardedRef(s.base, s.roots.symbols, symbols, fwd) && FramesDone(s, frames, fwd, |frames|, 0)
        decreases |s.order| - k
      {
        ghost var fwd0 := fwd;
        ScanPlace(s, k, k);
        ScanObject(s, k);
        KeysInSpace(s, k + 1, k + 1);
        RefKept(s.base, s.roots.symbols, symbols, fwd0);
        FramesKept(s, frames, |frames|, 0, fwd0);
        ScanPlace(s, k + 1, k);
        scan1 := scan1 + objs[scan1].size;
        k := k + 1;
      }
      ScanPlace(s, k, k);
    }

    /** The start of gc: the spaces change places, and nothing has been copied. */
    method Flip(space: nat) returns (ghost s: Start)
      requires Valid() && NewSpace(space)
      modifies this
      ensures s == Start(old(objs), old(memory), old(order), old(memNused), old(RootSet()))
      ensures Collecting(s, 0, 0) && s.roots == RootSet() && s.base > 0 && Unused(s.objs, s.roots, memory)
      ensures memory == space && fromSpace == old(memory) && scan1 == scan2 == memory && order == []
      ensures (word == 4 || word == 8) && memory % word == 0 && memory > 0 && Aligned(s.objs, word)
    {
      hide Collecting, WellFormed, RootsClosed, Aligned, Reachable, Unused, Tiled, Copied, Tombs, Scanned, IsRoot, Fits, Isomorphic;
      gcRunning := true;
      s := Start(objs, memory, order, memNused, RootSet());
      fromSpace, fromObjs := memory, objs;
      memory, objs := space, map[];
      scan1, scan2 := memory, memory;
      order, orig, fwd := [], [], map[];
      StartCollecting(s, space);
      CollectingNow(s, 0, 0);
    }

    /** gc: what the roots reach is moved to the new space, and only that. f is where each object has gone. */
    method Gc(space: nat) returns (ghost f: map<nat, nat>)
      requires Valid() && NewSpace(space)
      modifies this
      ensures Valid() && memory == space && fromSpace == old(memory)
      ensures Isomorphic(old(objs), old(RootSet()), objs, RootSet(), f)
      ensures Distinct(orig) && (forall a :: a in orig ==> a in f) && (forall a :: a in f ==> a in orig)
      ensures (forall i :: 0 <= i < |orig| ==> orig[i] in old(objs))
      ensures memNused == Sum(old(objs), orig) <= old(memNused)
    {
      hide Collecting, WellFormed, Isomorphic, RootsClosed, Aligned, Reachable, Unused, Tiled, Distinct, Sum, Copied, Tombs, Scanned,
           ForwardedRef, FramesDone, Kept, IsRoot;
      ghost var s := Flip(space);
      ForwardRoots(s);
      Scan(s);
      ScanPlace(s, |order|, |order|);
      Collected(s, word);
      memNused := scan1 - memory;
      gcRunning := false;
      f := fwd;
    }

    // ----- allocation -----

    /** The bytes an object with size bytes of content takes. */
    function Total(size: nat): nat
      requires word > 0
    {
      RoundUp(RoundUp(size, word) + HEADER, word)
    }

    /** That is the least number of whole words that holds the header and the content. */
    lemma TotalLeast(size: nat)
      requires word == 4 || word == 8
      ensures Total(size) % word == 0 && HEADER + size <= Total(size) < HEADER + size + word
    {
      RoundedUp(size, word);
      RoundedUp(RoundUp(size, word) + HEADER, word);
    }

    /** alloc: room for an object of the given kind, after a collection if need be; the content is not yet set.
        collected tells whether gc ran, and f where it has moved the objects. space is what memalign would return. */
    method Alloc(tag: Tag, size: nat, space: nat) returns (ok: bool, obj: nat, ghost collected: bool, ghost f: map<nat, nat>)
      requires Valid() && NewSpace(space) && size >= Needs(tag, word)
      modifies this
      ensures Valid()
      ensures collected <==> alwaysGc || MEMORY_SIZE < old(memNused) + Total(size)
      ensures ok <==> (if ok then memNused else memNused + Total(size)) <= MEMORY_SIZE
      ensures ok ==> obj in objs && objs[obj] == Blank(tag, Total(size)) && obj % word == 0
                     && memory <= obj && obj + Total(size) == memory + memNused && Total(size) >= HEADER + size
      ensures var kept := if ok then objs - {obj} else objs;
              && Change(collected, f, old(objs), old(RootSet()), kept, RootSet())
              && memory == if collected then space else old(memory)
      ensures collected && ok ==> memNused <= old(memNused) + Total(size)
    {
      hide WellFormed, Isomorphic, RootsClosed, Aligned, Reachable, Unused, Sum, Change, NewSpace, Fits;
      obj, ok := 0, false;
      var total := Total(size);
      collected, f := MakeRoom(total, space);
      if MEMORY_SIZE < memNused + total { return; }
      obj, ok := memory + memNused, true;
      RoundedUp(size, word);
      RoundedUp(RoundUp(size, word) + HEADER, word);
      TombstoneRoom(size, word);
      assert Fits(Blank(tag, total), word) by { BlankFits(tag, total, size, word); }
      ghost var kept := objs;
      Place(obj, Blank(tag, total));
      assert objs - {obj} == kept;
    }

    /** A collection, if there is no room for total bytes or always. */
    method MakeRoom(total: nat, space: nat) returns (ghost collected: bool, ghost f: map<nat, nat>)
      requires Valid() && NewSpace(space)
      modifies this
      ensures Valid() && memNused <= old(memNused)
      ensures collected <==> alwaysGc || MEMORY_SIZE < old(memNused) + total
      ensures !collected ==> memNused + total <= MEMORY_SIZE && memNused == old(memNused)
      ensures Change(collected, f, old(objs), old(RootSet()), objs, RootSet())
      ensures memory == if collected then space else old(memory)
    {
      hide WellFormed, Isomorphic, RootsClosed, Aligned, Reachable, Unused, Sum, Distinct;
      collected, f := false, map[];
      if alwaysGc {
        f := Gc(space);
        collected := true;
      }
      if !alwaysGc && MEMORY_SIZE < memNused + total {
        f := Gc(space);
        collected := true;
      }
    }

    /** The object at the end of the used part. */
    method Place(obj: nat, o: Object)
      requires Valid() && obj == memory + memNused
      requires Fits(o, word) && o.size % word == 0 && !o.Moved? && memNused + o.size <= MEMORY_SIZE
      requires forall r :: r in Refs(o) && InSpace(memory, r) ==> r in objs
      modifies this`objs, this`memNused, this`order
      ensures Valid() && obj !in old(objs) && obj % word == 0 && objs == old(objs)[obj := o] && memNused == old(memNused) + o.size
    {
      hide WellFormed, RootsClosed, Aligned, Fits, IsRoot;
      ValidMore(o);
      objs := objs[obj := o];
      memNused := memNused + o.size;
      order := order + [obj];
    }

    lemma ValidMore(o: Object)
      requires Valid() && Fits(o, word) && o.size % word == 0 && !o.Moved? && memNused + o.size <= MEMORY_SIZE
      requires forall r :: r in Refs(o) && InSpace(memory, r) ==> r in objs
      ensures var a := memory + memNused;
              && a !in objs && a % word == 0 && (memNused + o.size) % word == 0
              && WellFormed(objs[a := o], memory, order + [a], memNused + o.size) && Aligned(objs[a := o], word)
              && RootsClosed(objs[a := o], memory, RootSet())
    {
      hide Sum, Tiled, Closed, IsRoot;
      ModAdd(memory, memNused, word);
      ModAdd(memNused, o.size, word);
      TiledMore(objs, memory, order, memory + memNused, o);
      ClosedMore(objs, memory, memory + memNused, o);
    }

    predicate HasSlot(s: Slot)
      reads this`frames
    {
      s.frame < |frames| && s.index < |frames[s.frame]|
    }

    function Value(s: Slot): nat
      requires HasSlot(s)
      reads this`frames
    {
      frames[s.frame][s.index]
    }

    /** Sets the content of an object just allocated. */
    method Fill(obj: nat, o: Object)
      requires Valid() && obj in objs && o.size == objs[obj].size && !o.Moved? && Extent(o, word) <= o.size
      requires forall r :: r in Refs(o) && InSpace(memory, r) ==> r in objs
      modifies this`objs
      ensures Valid() && objs == old(objs)[obj := o]
    {
      hide Sum, Tiled, Closed, IsRoot;
      TiledUpdate(objs, memory, order, memory + memNused, obj, o);
      ClosedSet(objs, memory, obj, o);
      objs := objs[obj := o];
    }

    lemma SlotValid(s: Slot)
      requires Valid() && HasSlot(s)
      ensures IsRoot(RootSet(), Value(s))
      ensures InSpace(memory, Value(s)) ==> Value(s) in objs
    {
      assert RootSet().frames[s.frame][s.index] == Value(s);
    }

    /** cons: the values are read through the slots after alloc, when a collection may have moved them. */
    method Cons(car: Slot, cdr: Slot, space: nat) returns (ok: bool, cell: nat, ghost collected: bool, ghost f: map<nat, nat>)
      requires Valid() && NewSpace(space) && HasSlot(car) && HasSlot(cdr)
      modifies this
      ensures Valid() && HasSlot(car) && HasSlot(cdr)
      ensures Change(collected, f, old(objs), old(RootSet()), if ok then objs - {cell} else objs, RootSet())
      ensures memory == if collected then space else old(memory)
      ensures ok ==> cell in objs && objs[cell] == Cell(Total(2 * word), Value(car), Value(cdr)) && InSpace(memory, cell)
      ensures !ok ==> memNused + Total(2 * word) > MEMORY_SIZE
    {
      hide Isomorphic, WellFormed, RootsClosed, Aligned, Unused;
      ok, cell, collected, f := Alloc(TCELL, 2 * word, space);
      ChangedSlots(collected, f, old(objs), old(RootSet()), if ok then objs - {cell} else objs);
      if ok {
        SlotValid(car);
        SlotValid(cdr);
        ghost var kept := objs - {cell};
        Fill(cell, Cell(objs[cell].size, Value(car), Value(cdr)));
        assert objs - {cell} == kept;
      }
    }

    lemma ChangedSlots(collected: bool, f: map<nat, nat>, m0: map<nat, Object>, r0: Roots, m1: map<nat, Object>)
      requires Change(collected, f, m0, r0, m1, RootSet())
      ensures |frames| == |r0.frames| && forall i :: 0 <= i < |frames| ==> |frames[i]| == |r0.frames[i]|
      ensures forall i, j :: 0 <= i < |frames| && 0 <= j < |frames[i]| ==> frames[i][j] == To(f, r0.frames[i][j])
    {
    }

    /** A tombstone put in the place of an object stays inside it: it reaches no other object and not the free space. */
    lemma TombstonesApart()
      requires Valid()
      ensures forall a :: a in objs ==> a + Extent(Moved(objs[a].size, 0), word) <= a + objs[a].size <= memory + memNused
      ensures forall a, b :: a in objs && b in objs && a < b ==> a + Extent(Moved(objs[a].size, 0), word) <= b
    {
      hide Tiled, Extent, Closed, RootsClosed;
      InOrder(objs, memory, order, memory + memNused);
      forall a | a in objs ensures Extent(Moved(objs[a].size, 0), word) <= objs[a].size {
        assert Fits(objs[a], word);
        TombstoneExtent(objs[a].size, word);
      }
    }

    lemma Inside()
      requires Valid()
      ensures forall a :: a in objs ==> InSpace(memory, a)
    {
      TiledApart(objs, memory, order, memory + memNused);
    }

    /** DEFINE1: a new innermost frame with one empty slot. */
    method PushFrame()
      requires Valid()
      modifies this`frames
      ensures Valid() && frames == [[0]] + old(frames)
    {
      frames := [[0]] + frames;
      PushedRoots(RootSet(), old(RootSet()), 0);
    }

    /** The roots with one more frame of one slot. */
    lemma PushedRoots(r1: Roots, r0: Roots, a: nat)
      requires r1 == Roots(r0.symbols, [[a]] + r0.frames)
      ensures forall x :: IsRoot(r1, x) ==> x == a || IsRoot(r0, x)
    {
      forall x | IsRoot(r1, x)
        ensures x == a || IsRoot(r0, x)
      {
        if x != r1.symbols {
          var i, j :| 0 <= i < |r1.frames| && 0 <= j < |r1.frames[i]| && r1.frames[i][j] == x;
          if i > 0 {
            assert r0.frames[i - 1][j] == x;
          }
        }
      }
    }

    lemma PoppedRoots(r1: Roots, r0: Roots)
      requires |r1.frames| > 0 && r0 == Roots(r1.symbols, r1.frames[1..])
      ensures forall x :: IsRoot(r0, x) ==> IsRoot(r1, x)
    {
      forall x | IsRoot(r0, x)
        ensures IsRoot(r1, x)
      {
        if x != r0.symbols {
          var i, j :| 0 <= i < |r0.frames| && 0 <= j < |r0.frames[i]| && r0.frames[i][j] == x;
          assert r1.frames[i + 1][j] == x;
        }
      }
    }

    /** The caller's slot seen from inside a frame further in. */
    function Outer(s: Slot): Slot {
      Slot(s.frame + 1, s.index)
    }

    method PopFrame()
      requires Valid() && |frames| > 0
      modifies this`frames
      ensures Valid() && frames == old(frames)[1..]
    {
      frames := frames[1..];
      PoppedRoots(old(RootSet()), RootSet());
    }

    lemma PushedUnused(r0: Roots, space: nat)
      requires RootSet() == Roots(r0.symbols, [[0]] + r0.frames) && Unused(objs, r0, space) && space > 0
      ensures Unused(objs, RootSet(), space)
    {
      PushedRoots(RootSet(), r0, 0);
    }

    /** *slot = cell, in the innermost frame. */
    method SetSlot(cell: nat)
      requires Valid() && |frames| > 0 && |frames[0]| == 1 && cell in objs
      modifies this`frames
      ensures Valid() && frames == [[cell]] + old(frames)[1..]
    {
      ghost var outer := Roots(symbols, frames[1..]);
      PoppedRoots(RootSet(), outer);
      frames := [[cell]] + frames[1..];
      PushedRoots(RootSet(), outer, cell);
    }

    /** The second space of acons is still unused after the inner cell has been made. */
    lemma SecondSpace(cell: nat, x: Slot, y: Slot, c1: bool, f1: map<nat, nat>, m0: map<nat, Object>, r0: Roots, r1: Roots,
                      memory0: nat, space1: nat, space2: nat)
      requires Valid() && cell in objs && |r1.frames| > 0
      requires Change(c1, f1, m0, r0, objs - {cell}, r1) && Unused(m0, r0, space2)
      requires memory == if c1 then space1 else memory0
      requires Apart(space1, space2) && Apart(space2, memory0)
      requires RootSet() == Roots(r1.symbols, [[cell]] + r1.frames[1..])
      requires x.frame < |r1.frames| && x.index < |r1.frames[x.frame]|
      requires y.frame < |r1.frames| && y.index < |r1.frames[y.frame]|
      requires Refs(objs[cell]) == [r1.frames[x.frame][x.index], r1.frames[y.frame][y.index]]
      ensures Unused(objs, RootSet(), space2) && Apart(space2, memory)
    {
      hide Isomorphic, WellFormed, RootsClosed, Aligned, IsRoot;
      Inside();
      StillUnused(c1, f1, m0, r0, objs - {cell}, r1, space1, space2);
      var outer := Roots(r1.symbols, r1.frames[1..]);
      PoppedRoots(r1, outer);
      PushedRoots(RootSet(), outer, cell);
      assert IsRoot(r1, r1.frames[x.frame][x.index]) && IsRoot(r1, r1.frames[y.frame][y.index]) by {
        IsRootAt(r1, x);
        IsRootAt(r1, y);
      }
      forall b, c | b in objs && c in Refs(objs[b])
        ensures !InSpace(space2, c)
      {
        if b != cell {
          assert b in objs - {cell} && c in Refs((objs - {cell})[b]);
        }
      }
    }

    lemma IsRootAt(r: Roots, s: Slot)
      requires s.frame < |r.frames| && s.index < |r.frames[s.frame]|
      ensures IsRoot(r, r.frames[s.frame][s.index])
    {
    }

    /** The inner cell is where its root says, and its references have moved with the slots they came from. */
    lemma InnerKept(cell: nat, c: bool, f: map<nat, nat>, m0: map<nat, Object>, r0: Roots, m1: map<nat, Object>, n: nat, x: nat, y: nat)
      requires Change(c, f, m0, r0, m1, RootSet()) && cell in m0 && m0[cell] == Cell(n, x, y)
      requires IsRoot(r0, cell)
      ensures To(f, cell) in m1 && m1[To(f, cell)] == Cell(n, To(f, x), To(f, y))
    {
      hide IsRoot;
      if c {
        ReachRoot(m0, r0, cell);
      }
    }

    /** Each slot holds what it held, moved by f1 and then by f2. */
    static ghost predicate SlotsMoved(was: seq<seq<nat>>, now: seq<seq<nat>>, f1: map<nat, nat>, f2: map<nat, nat>) {
      && |now| == |was| && (forall i :: 0 <= i < |now| ==> |now[i]| == |was[i]|)
      && forall i, j :: 0 <= i < |now| && 0 <= j < |now[i]| ==> now[i][j] == To(f2, To(f1, was[i][j]))
    }

    lemma SlotsMovedBy(was: seq<seq<nat>>, mid: seq<seq<nat>>, f1: map<nat, nat>, f2: map<nat, nat>)
      requires |frames| > 0 && |mid| == |was| == |frames| && (forall i :: 0 <= i < |mid| ==> |frames[i]| == |mid[i]| == |was[i]|)
      requires forall i, j :: 1 <= i < |mid| && 0 <= j < |mid[i]| ==> mid[i][j] == To(f1, was[i][j])
      requires forall i, j :: 1 <= i < |mid| && 0 <= j < |mid[i]| ==> frames[i][j] == To(f2, mid[i][j])
      ensures SlotsMoved(was[1..], frames[1..], f1, f2)
    {
      forall i, j | 0 <= i < |frames[1..]| && 0 <= j < |frames[1..][i]|
        ensures frames[1..][i][j] == To(f2, To(f1, was[1..][i][j]))
      {
        assert frames[1 + i][j] == To(f2, mid[1 + i][j]);
      }
    }

    lemma SlotsMovedTwice(was: seq<seq<nat>>, mid: seq<seq<nat>>, now: seq<seq<nat>>, f1: map<nat, nat>, f2: map<nat, nat>)
      requires |was| > 0 && |now| == |mid| == |was| && forall i :: 0 <= i < |mid| ==> |now[i]| == |mid[i]|
      requires SlotsMoved(was[1..], mid[1..], f1, map[])
      requires forall i, j :: 0 <= i < |now| && 0 <= j < |now[i]| ==> now[i][j] == To(f2, mid[i][j])
      ensures SlotsMoved(was[1..], now[1..], f1, f2)
    {
      var w, m, n := was[1..], mid[1..], now[1..];
      forall i | 0 <= i < |n| ensures |n[i]| == |w[i]| {
        assert n[i] == now[1 + i] && m[i] == mid[1 + i];
      }
      forall i, j | 0 <= i < |n| && 0 <= j < |n[i]| ensures n[i][j] == To(f2, To(f1, w[i][j])) {
        assert n[i][j] == now[1 + i][j] && m[i][j] == mid[1 + i][j] == To(map[], To(f1, w[i][j]));
      }
    }

    /** The slots behind the innermost frame are where they were. */
    lemma SlotsThere(was: seq<seq<nat>>, now: seq<seq<nat>>, f1: map<nat, nat>, f2: map<nat, nat>)
      requires |was| == |now| > 0 && SlotsMoved(was[1..], now[1..], f1, f2)
      ensures forall i :: 1 <= i < |now| ==> |now[i]| == |was[i]|
    {
      forall i | 1 <= i < |now| ensures |now[i]| == |was[i]| {
        assert now[1..][i - 1] == now[i] && was[1..][i - 1] == was[i];
      }
    }

    /** cons(x, y), and the cell in the innermost frame's slot. */
    method ConsInner(x: Slot, y: Slot, space1: nat, space2: nat) returns (ok: bool, cell: nat, ghost f1: map<nat, nat>)
      requires Valid() && NewSpace(space1) && NewSpace(space2) && Apart(space1, space2)
      requires |frames| > 0 && |frames[0]| == 1 && x.frame > 0 && y.frame > 0 && HasSlot(x) && HasSlot(y)
      modifies this
      ensures Valid() && |frames| > 0 && |frames[0]| == 1 && HasSlot(x) && HasSlot(y)
      ensures |frames| == |old(frames)| && SlotsMoved(old(frames)[1..], frames[1..], f1, map[])
      ensures ok ==> cell in objs && objs[cell] == Cell(Total(2 * word), Value(x), Value(y)) && frames[0][0] == cell && NewSpace(space2)
    {
      hide Isomorphic, Valid, Unused, Apart, Change, IsRoot, Total;
      ghost var m0, r0, memory0 := objs, RootSet(), memory;
      ghost var c1;
      ok, cell, c1, f1 := Cons(x, y, space1);
      ChangedSlots(c1, f1, m0, r0, if ok then objs - {cell} else objs);
      SlotsMovedBy(r0.frames, frames, f1, map[]);
      if ok {
        ghost var r1 := RootSet();
        SetSlot(cell);
        SecondSpace(cell, x, y, c1, f1, m0, r0, r1, memory0, space1, space2);
      }
    }

    /** acons with its own frame in place; the slots are seen from inside it. */
    method AconsInside(x: Slot, y: Slot, a: Slot, space1: nat, space2: nat)
        returns (ok: bool, r: nat, ghost f1: map<nat, nat>, ghost f2: map<nat, nat>)
      requires Valid() && NewSpace(space1) && NewSpace(space2) && Apart(space1, space2)
      requires |frames| > 0 && |frames[0]| == 1
      requires x.frame > 0 && y.frame > 0 && a.frame > 0 && HasSlot(x) && HasSlot(y) && HasSlot(a)
      modifies this
      ensures Valid() && |frames| > 0 && HasSlot(x) && HasSlot(y) && HasSlot(a)
      ensures SlotsMoved(old(frames)[1..], frames[1..], f1, f2)
      ensures ok ==> r in objs && objs[r].Cell? && objs[r].cdr == Value(a)
                     && objs[r].car in objs && objs[objs[r].car] == Cell(Total(2 * word), Value(x), Value(y))
    {
      hide Isomorphic, Valid, Unused, Apart, Change, IsRoot, Total, NewSpace, SlotsMoved;
      r := 0;
      ghost var frames0 := frames;
      var cell;
      ghost var c2;
      f2 := map[];
      ok, cell, f1 := ConsInner(x, y, space1, space2);
      SlotsThere(frames0, frames, f1, map[]);
      if ok {
        IsRootAt(RootSet(), Slot(0, 0));
        ghost var m2, r2, vx, vy := objs, RootSet(), Value(x), Value(y);
        ok, r, c2, f2 := Cons(Slot(0, 0), a, space2);
        ghost var m3 := if ok then objs - {r} else objs;
        ChangedSlots(c2, f2, m2, r2, m3);
        SlotsMovedTwice(frames0, r2.frames, frames, f1, f2);
        InnerKept(cell, c2, f2, m2, r2, m3, Total(2 * word), vx, vy);
      }
    }

    /** acons: ((x . y) . a). The inner cell is a root while the outer one is allocated, so it may move. */
    method Acons(x: Slot, y: Slot, a: Slot, space1: nat, space2: nat)
        returns (ok: bool, r: nat, ghost f1: map<nat, nat>, ghost f2: map<nat, nat>)
      requires Valid() && NewSpace(space1) && NewSpace(space2) && Apart(space1, space2)
      requires HasSlot(x) && HasSlot(y) && HasSlot(a)
      modifies this
      ensures Valid() && HasSlot(x) && HasSlot(y) && HasSlot(a) && SlotsMoved(old(frames), frames, f1, f2)
      ensures ok ==> r in objs && objs[r].Cell? && objs[r].cdr == Value(a)
                     && objs[r].car in objs && objs[objs[r].car] == Cell(Total(2 * word), Value(x), Value(y))
    {
      hide Isomorphic, Valid, Unused, Apart, Change, IsRoot, Total, SlotsMoved;
      PushFrame();
      PushedUnused(old(RootSet()), space1);
      PushedUnused(old(RootSet()), space2);
      ok, r, f1, f2 := AconsInside(Outer(x), Outer(y), Outer(a), space1, space2);
      PopFrame();
    }
  }
}
