/** The bindings of a JL scope (jl-scope.c): a tree ordered by name, its meaning as a map, and scopes one inside another. */
module JlScope {
  import opened JlHeap

  /** strcmp: negative, zero or positive. */
  function StrCmp(a: string, b: string): (v: int)
    ensures v == 0 <==> a == b
  {
    if a == [] || b == [] then |a| - |b|
    else if a[0] == b[0] then StrCmp(a[1..], b[1..])
    else a[0] as int - b[0] as int
  }

  /** The tree of bindings below a node, with the node of each. */
  datatype Tree = Leaf | Fork(addr: int, name: string, value: int, left: Tree, right: Tree)

  ghost function Addrs(t: Tree): set<int> {
    if t.Leaf? then {} else {t.addr} + Addrs(t.left) + Addrs(t.right)
  }

  ghost function Names(t: Tree): set<string> {
    if t.Leaf? then {} else {t.name} + Names(t.left) + Names(t.right)
  }

  /** No node occurs twice, and a smaller name than that of a node is to its right. */
  ghost predicate Neat(t: Tree) {
    t.Fork? ==>
      && Neat(t.left) && Neat(t.right)
      && t.addr !in Addrs(t.left) && t.addr !in Addrs(t.right) && Addrs(t.left) !! Addrs(t.right)
      && (forall n :: n in Names(t.left) ==> StrCmp(t.name, n) < 0)
      && (forall n :: n in Names(t.right) ==> StrCmp(t.name, n) > 0)
  }

  /** What the tree binds. */
  ghost function ToMap(t: Tree): map<string, int> {
    if t.Leaf? then map[] else ToMap(t.left) + ToMap(t.right) + map[t.name := t.value]
  }

  lemma {:induction false} MapNames(t: Tree)
    ensures ToMap(t).Keys == Names(t)
  {
    if t.Fork? {
      MapNames(t.left);
      MapNames(t.right);
    }
  }

  /** Where the search for name turns next. */
  ghost function Down(t: Tree, name: string): Tree
    requires t.Fork?
  {
    if StrCmp(t.name, name) < 0 then t.left else t.right
  }

  lemma DownFinds(t: Tree, name: string)
    requires Neat(t) && t.Fork? && StrCmp(t.name, name) != 0
    ensures name in ToMap(t) <==> name in ToMap(Down(t, name))
    ensures name in ToMap(t) ==> ToMap(t)[name] == ToMap(Down(t, name))[name]
  {
    MapNames(t.left);
    MapNames(t.right);
  }

  /** The tree after binding name to value, with a new binding at node a if there was none. */
  ghost function Put(t: Tree, name: string, value: int, a: int): Tree {
    if t.Leaf? then Fork(a, name, value, Leaf, Leaf)
    else if t.name == name then t.(value := value)
    else if StrCmp(t.name, name) < 0 then t.(left := Put(t.left, name, value, a))
    else t.(right := Put(t.right, name, value, a))
  }

  lemma {:induction false} PutAddrs(t: Tree, name: string, value: int, a: int)
    ensures name in Names(t) && Neat(t) ==> Addrs(Put(t, name, value, a)) == Addrs(t)
    ensures Addrs(Put(t, name, value, a)) <= Addrs(t) + {a}
    ensures Names(Put(t, name, value, a)) == Names(t) + {name}
  {
    if t.Fork? && t.name != name {
      if StrCmp(t.name, name) < 0 {
        PutAddrs(t.left, name, value, a);
      } else {
        PutAddrs(t.right, name, value, a);
      }
    }
  }

  lemma {:induction false} PutNeat(t: Tree, name: string, value: int, a: int)
    requires Neat(t) && (name in Names(t) || a !in Addrs(t))
    ensures Neat(Put(t, name, value, a))
  {
    if t.Fork? && t.name != name {
      var d := Down(t, name);
      PutAddrs(d, name, value, a);
      PutNeat(d, name, value, a);
    }
  }

  lemma Overlay(l: map<string, int>, r: map<string, int>, k: string, x: int, name: string, value: int)
    requires name != k
    ensures l + r[name := value] + map[k := x] == (l + r + map[k := x])[name := value]
    ensures name !in r ==> l[name := value] + r + map[k := x] == (l + r + map[k := x])[name := value]
  {
  }

  /** Binding a name in the tree is binding it in the map. */
  lemma {:induction false} PutMap(t: Tree, name: string, value: int, a: int)
    requires Neat(t)
    ensures ToMap(Put(t, name, value, a)) == ToMap(t)[name := value]
  {
    if t.Fork? && t.name != name {
      MapNames(t.right);
      Overlay(ToMap(t.left), ToMap(t.right), t.name, t.value, name, value);
      if StrCmp(t.name, name) < 0 {
        PutMap(t.left, name, value, a);
      } else {
        PutMap(t.right, name, value, a);
      }
    }
  }

  // ----- trees in the pool -----

  /** The bindings of the pool below p form t. */
  ghost predicate Shows(view: seq<Node>, p: int, t: Tree)
    decreases t
  {
    match t
    case Leaf => p == NULL
    case Fork(a, name, value, left, right) =>
      && p == a && 0 <= a < |view| && view[a].Binding? && view[a].name == name && view[a].value == value
      && Shows(view, view[a].left, left) && Shows(view, view[a].right, right)
  }

  lemma {:induction false} ShowsKept(view: seq<Node>, view': seq<Node>, p: int, t: Tree)
    requires Shows(view, p, t) && |view| <= |view'|
    requires forall i :: 0 <= i < |view| && i in Addrs(t) ==> view'[i] == view[i]
    ensures Shows(view', p, t)
    decreases t
  {
    if t.Fork? {
      ShowsKept(view, view', view[p].left, t.left);
      ShowsKept(view, view', view[p].right, t.right);
    }
  }

  lemma {:induction false} ShowsBindings(view: seq<Node>, p: int, t: Tree)
    requires Shows(view, p, t)
    ensures forall i :: i in Addrs(t) ==> 0 <= i < |view| && view[i].Binding?
    decreases t
  {
    if t.Fork? {
      ShowsBindings(view, view[p].left, t.left);
      ShowsBindings(view, view[p].right, t.right);
    }
  }

  /** The node at which the search for name ends: the one that binds it, or the one to hang it on. */
  ghost function Last(t: Tree, name: string): int {
    if t.Leaf? then NULL
    else if t.name == name || Down(t, name).Leaf? then t.addr
    else Last(Down(t, name), name)
  }

  /** The node hung on or rewritten at the end of the search. */
  ghost function Rewritten(n: Node, name: string, value: int, a: int): Node
    requires n.Binding?
  {
    if n.name == name then n.(value := value)
    else if StrCmp(n.name, name) < 0 then n.(left := a)
    else n.(right := a)
  }

  lemma {:induction false} LastIn(t: Tree, name: string)
    requires t.Fork?
    ensures Last(t, name) in Addrs(t)
  {
    if t.name != name && Down(t, name).Fork? {
      LastIn(Down(t, name), name);
    }
  }

  lemma PutShownHere(view: seq<Node>, p: int, t: Tree, value: int, a: int)
    requires Shows(view, p, t) && Neat(t) && t.Fork?
    ensures 0 <= Last(t, t.name) < |view| && view[Last(t, t.name)].Binding?
    ensures var q := Last(t, t.name); Shows(view[q := Rewritten(view[q], t.name, value, a)], p, Put(t, t.name, value, a))
  {
    var q := Last(t, t.name);
    var view' := view[q := Rewritten(view[q], t.name, value, a)];
    ShowsKept(view, view', view[p].left, t.left);
    ShowsKept(view, view', view[p].right, t.right);
  }

  /** The node hung on below the root. */
  lemma HungShown(view: seq<Node>, p: int, t: Tree, name: string, value: int, a: int)
    requires Shows(view, p, t) && Neat(t) && t.Fork? && t.name != name && Down(t, name).Leaf?
    requires 0 <= a < |view| && view[a] == Binding(name, value, NULL, NULL) && a !in Addrs(t)
    ensures Shows(view[p := Rewritten(view[p], name, value, a)], p, Put(t, name, value, a))
  {
    var view' := view[p := Rewritten(view[p], name, value, a)];
    if StrCmp(t.name, name) < 0 {
      ShowsKept(view, view', view[p].right, t.right);
    } else {
      ShowsKept(view, view', view[p].left, t.left);
    }
  }

  /** The part below that the search turned to has changed, nothing else. */
  lemma BelowShown(view: seq<Node>, view': seq<Node>, p: int, t: Tree, name: string, value: int, a: int)
    requires Shows(view, p, t) && Neat(t) && t.Fork? && t.name != name && |view'| == |view|
    requires forall i :: 0 <= i < |view| && i !in Addrs(Down(t, name)) ==> view'[i] == view[i]
    requires Shows(view', if StrCmp(t.name, name) < 0 then view[p].left else view[p].right, Put(Down(t, name), name, value, a))
    ensures Shows(view', p, Put(t, name, value, a))
  {
    if StrCmp(t.name, name) < 0 {
      ShowsKept(view, view', view[p].right, t.right);
    } else {
      ShowsKept(view, view', view[p].left, t.left);
    }
  }

  /** Rewriting that one node rebinds name in the whole tree. */
  lemma {:induction false} PutShown(view: seq<Node>, p: int, t: Tree, name: string, value: int, a: int)
    requires Shows(view, p, t) && Neat(t) && t.Fork?
    requires name in Names(t) || (0 <= a < |view| && view[a] == Binding(name, value, NULL, NULL) && a !in Addrs(t))
    ensures 0 <= Last(t, name) < |view| && view[Last(t, name)].Binding?
    ensures var q := Last(t, name); Shows(view[q := Rewritten(view[q], name, value, a)], p, Put(t, name, value, a))
    decreases t
  {
    if t.name == name {
      PutShownHere(view, p, t, value, a);
    } else if Down(t, name).Leaf? {
      HungShown(view, p, t, name, value, a);
    } else {
      var d, e := Down(t, name), if StrCmp(t.name, name) < 0 then view[p].left else view[p].right;
      PutShown(view, e, d, name, value, a);
      LastIn(d, name);
      var q := Last(d, name);
      BelowShown(view, view[q := Rewritten(view[q], name, value, a)], p, t, name, value, a);
    }
  }

  /** Where the search ends there is the name, or room for it. */
  lemma {:induction false} LastNode(view: seq<Node>, p: int, t: Tree, name: string)
    requires Shows(view, p, t) && Neat(t) && t.Fork?
    ensures var q := Last(t, name); 0 <= q < |view| && view[q].Binding?
    ensures var n := view[Last(t, name)];
      if name in Names(t) then n.name == name
      else n.name != name && (if StrCmp(n.name, name) < 0 then n.left else n.right) == NULL
    decreases t
  {
    var d := Down(t, name);
    assert t.name != name ==> (name in Names(t) <==> name in Names(d));
    if t.name != name && d.Fork? {
      LastNode(view, if StrCmp(t.name, name) < 0 then view[p].left else view[p].right, d, name);
    }
  }

  // ----- nested scopes -----

  datatype Frame = Frame(addr: int, tree: Tree)

  ghost function FrameAddrs(frames: seq<Frame>): set<int> {
    if frames == [] then {} else {frames[0].addr} + Addrs(frames[0].tree) + FrameAddrs(frames[1..])
  }

  /** The scopes of the pool from s outwards are frames, no node is in two of them, and each has one owner. */
  ghost predicate FramesShow(view: seq<Node>, s: int, frames: seq<Frame>)
    decreases frames
  {
    if frames == [] then s == NULL
    else
      && s == frames[0].addr && 0 <= s < |view| && view[s].Scope? && view[s].owners == 1
      && Shows(view, view[s].bindings, frames[0].tree) && Neat(frames[0].tree)
      && s !in FrameAddrs(frames[1..]) && Addrs(frames[0].tree) !! FrameAddrs(frames[1..])
      && FramesShow(view, view[s].outer, frames[1..])
  }

  lemma {:induction false} FramesKept(view: seq<Node>, view': seq<Node>, s: int, frames: seq<Frame>)
    requires FramesShow(view, s, frames) && |view| <= |view'|
    requires forall i :: 0 <= i < |view| && i in FrameAddrs(frames) ==> view'[i] == view[i]
    ensures FramesShow(view', s, frames)
    decreases frames
  {
    if frames != [] {
      ShowsKept(view, view', view[s].bindings, frames[0].tree);
      FramesKept(view, view', view[s].outer, frames[1..]);
    }
  }

  lemma {:induction false} FramesNodes(view: seq<Node>, s: int, frames: seq<Frame>)
    requires FramesShow(view, s, frames)
    ensures forall i :: i in FrameAddrs(frames) ==> 0 <= i < |view| && (view[i].Scope? || view[i].Binding?)
    decreases frames
  {
    if frames != [] {
      ShowsBindings(view, view[s].bindings, frames[0].tree);
      FramesNodes(view, view[s].outer, frames[1..]);
    }
  }

  /** The binding that is seen: of the scopes that bind name, the innermost. */
  ghost function Seen(frames: seq<Frame>): map<string, int> {
    if frames == [] then map[] else Seen(frames[1..]) + ToMap(frames[0].tree)
  }

  /** The frames after name was bound in the innermost. */
  ghost function Bound(frames: seq<Frame>, name: string, value: int, a: int): seq<Frame>
    requires frames != []
  {
    [Frame(frames[0].addr, Put(frames[0].tree, name, value, a))] + frames[1..]
  }

  lemma PutOver(outer: map<string, int>, inner: map<string, int>, name: string, value: int)
    ensures outer + inner[name := value] == (outer + inner)[name := value]
  {
  }

  lemma BoundSeen(frames: seq<Frame>, name: string, value: int, a: int)
    requires frames != [] && Neat(frames[0].tree)
    ensures Seen(Bound(frames, name, value, a)) == Seen(frames)[name := value]
  {
    hide ToMap, Put;
    PutMap(frames[0].tree, name, value, a);
    assert Bound(frames, name, value, a)[1..] == frames[1..];
    PutOver(Seen(frames[1..]), ToMap(frames[0].tree), name, value);
  }

  /** Rewriting the node the search ends at binds the name in the current scope. */
  lemma FramesPut(view: seq<Node>, s: int, frames: seq<Frame>, name: string, value: int, a: int)
    requires FramesShow(view, s, frames) && s != NULL && frames[0].tree.Fork?
    requires name in Names(frames[0].tree)
          || (0 <= a < |view| && view[a] == Binding(name, value, NULL, NULL) && a !in FrameAddrs(frames))
    ensures var q := Last(frames[0].tree, name);
      && 0 <= q < |view| && view[q].Binding?
      && FramesShow(view[q := Rewritten(view[q], name, value, a)], s, Bound(frames, name, value, a))
  {
    hide Addrs, Names, Put, Last, Shows, Rewritten, Neat;
    var t, q := frames[0].tree, Last(frames[0].tree, name);
    PutShown(view, view[s].bindings, t, name, value, a);
    LastIn(t, name);
    PutAddrs(t, name, value, a);
    PutNeat(t, name, value, a);
    var w := view[q := Rewritten(view[q], name, value, a)];
    FramesKept(view, w, view[s].outer, frames[1..]);
    assert Bound(frames, name, value, a)[1..] == frames[1..];
  }

  /** The first binding of the current scope. */
  lemma FramesPutFirst(view: seq<Node>, s: int, frames: seq<Frame>, name: string, value: int, a: int)
    requires FramesShow(view, s, frames) && s != NULL && frames[0].tree.Leaf?
    requires 0 <= a < |view| && view[a] == Binding(name, value, NULL, NULL) && a !in FrameAddrs(frames)
    ensures FramesShow(view[s := view[s].(bindings := a)], s, Bound(frames, name, value, a))
  {
    var w := view[s := view[s].(bindings := a)];
    FramesKept(view, w, view[s].outer, frames[1..]);
    assert Bound(frames, name, value, a)[1..] == frames[1..];
  }
}
