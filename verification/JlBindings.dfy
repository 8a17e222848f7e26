/** Values, scopes and bindings of a context: jl-value.c, jl-scope.c and JLDefineValue of jl.c. */
module JlBindings {
  import opened JlHeap
  import opened JlScope
  import opened JlContext

  // ----- making a value -----

  /** Old nodes that were live are as they were. */
  ghost predicate Kept(view: seq<Node>, view': seq<Node>) {
    |view| <= |view'| && forall i :: 0 <= i < |view| && Live(view[i]) ==> view'[i] == view[i]
  }

  /** A new node takes its place in the order below all others. */
  lemma NewValue(view: seq<Node>, rank: seq<int>, clock: int, held: multiset<int>, scope: int, frames: seq<Frame>, p: nat, n: Node)
    requires InOrder(view, rank, clock, held, scope, frames) && p < |view| && view[p] == Raw
    requires n.Value? && n.count == 1 && n.next == NULL && (n.content.List? ==> n.content.lst == NULL)
    ensures InOrder(view[p := n], rank[p := clock - 1], clock - 1, held + multiset{p}, scope, frames)
  {
    hide Counted, Sound, FramesShow;
    assert |rank| == |view| by { SoundSize(view, rank); }
    var w, rank' := view[p := n], rank[p := clock - 1];
    assert FieldsOk(w, rank', p);
    Born(view, rank, RootsOf(held, scope), p, n, clock - 1, RootsOf(held + multiset{p}, scope));
    FramesNodes(view, scope, frames);
    FramesKept(view, w, scope, frames);
  }

  lemma SoundSize(view: seq<Node>, rank: seq<int>)
    requires Sound(view, rank)
    ensures |rank| == |view|
  {
  }

  method CreateValue(c: Context, content: Content) returns (result: int)
    requires c.Valid() && (content.List? ==> content.lst == NULL)
    modifies c`nodes, c`freelist, c`blocks, c`avail, c`view, c`rank, c`clock, c`held
    ensures c.Valid() && c.held == old(c.held) + multiset{result}
    ensures 0 <= result < |c.view| && c.view[result] == c.nodes[result] == Value(1, content, NULL)
    ensures Handed(old(c.nodes), c.nodes[result := Raw], result) && Handed(old(c.view), c.view[result := Raw], result)
    ensures |c.rank| == |c.view| && c.rank[result] == c.clock == old(c.clock) - 1
    ensures forall i :: 0 <= i < |old(c.rank)| && i != result ==> c.rank[i] == old(c.rank)[i]
    ensures old(c.Settled()) ==> c.Settled()
  {
    hide InOrder, FreeList, FreeExactly;
    result := c.GetFree();
    var node := Value(1, content, NULL);
    ghost var nodes1, view1, rank1, held1 := c.nodes, c.view, c.rank, c.held;
    c.nodes := c.nodes[result := node];
    c.view := c.view[result := node];
    c.rank := c.rank[result := c.clock - 1];
    c.clock := c.clock - 1;
    c.held := c.held + multiset{result};
    NewValue(view1, rank1, c.clock + 1, held1, c.scope, c.frames, result, node);
    FreeElsewhere(nodes1, c.nodes, c.freelist, c.avail);
    if old(c.Settled()) {
      HandedSame(old(c.nodes), nodes1, view1, result, node);
    }
  }

  // ----- scopes -----

  lemma NewScope(view: seq<Node>, rank: seq<int>, clock: int, held: multiset<int>, scope: int, frames: seq<Frame>, p: nat)
    requires InOrder(view, rank, clock, held, scope, frames) && p < |view| == |rank| && view[p] == Raw
    ensures var n := Scope(1, NULL, scope);
      InOrder(view[p := n], rank[p := clock - 1], clock - 1, held, p, [Frame(p, Leaf)] + frames)
  {
    hide Counted, Sound;
    var n, frames' := Scope(1, NULL, scope), [Frame(p, Leaf)] + frames;
    var w, rank' := view[p := n], rank[p := clock - 1];
    assert IsScope(view, scope) && (scope == NULL || scope != p);
    assert FieldsOk(w, rank', p);
    Born(view, rank, RootsOf(held, scope), p, n, clock - 1, RootsOf(held, p));
    FramesNodes(view, scope, frames);
    FramesKept(view, w, scope, frames);
    assert frames'[1..] == frames;
  }

  method JLEnterScope(c: Context)
    requires c.Settled()
    modifies c`nodes, c`freelist, c`blocks, c`avail, c`view, c`rank, c`clock, c`scope, c`frames
    ensures c.Settled() && c.frames == [Frame(c.scope, Leaf)] + old(c.frames) && c.scope != NULL
    ensures Kept(old(c.view), c.view)
  {
    hide InOrder, FreeList, FreeExactly;
    var scope := c.GetFree();
    ghost var nodes1, view1, rank1, scope1, frames1 := c.nodes, c.view, c.rank, c.scope, c.frames;
    var node := Scope(1, NULL, c.scope);
    c.nodes := c.nodes[scope := node];
    c.scope := scope;
    c.view := c.view[scope := node];
    c.rank := c.rank[scope := c.clock - 1];
    c.clock := c.clock - 1;
    c.frames := [Frame(scope, Leaf)] + c.frames;
    NewScope(view1, rank1, c.clock + 1, c.held, scope1, frames1, scope);
    FreeElsewhere(nodes1, c.nodes, c.freelist, c.avail);
  }

  // ----- finding a binding -----

  lemma ShowsDown(view: seq<Node>, p: int, t: Tree, name: string)
    requires Shows(view, p, t) && Neat(t) && t.Fork?
    ensures 0 <= p < |view| && view[p].Binding? && t.name == view[p].name && t.value == view[p].value && t.addr == p
    ensures Neat(Down(t, name))
    ensures Shows(view, if StrCmp(view[p].name, name) < 0 then view[p].left else view[p].right, Down(t, name))
  {
  }

  lemma FramesHead(view: seq<Node>, s: int, frames: seq<Frame>)
    requires FramesShow(view, s, frames) && s != NULL
    ensures frames != [] && 0 <= s < |view| && view[s].Scope? && s == frames[0].addr
    ensures Shows(view, view[s].bindings, frames[0].tree) && Neat(frames[0].tree)
    ensures FramesShow(view, view[s].outer, frames[1..])
  {
  }

  /** The search sees in t what it sees below the binding it is at. */
  ghost predicate SameFind(t: Tree, sub: Tree, name: string) {
    (name in ToMap(t) <==> name in ToMap(sub)) && (name in ToMap(t) ==> ToMap(t)[name] == ToMap(sub)[name])
  }

  lemma FramesOf(c: Context)
    requires c.Settled()
    ensures FramesShow(c.view, c.scope, c.frames)
  {
  }

  lemma FramesEnd(view: seq<Node>, frames: seq<Frame>)
    requires FramesShow(view, NULL, frames)
    ensures frames == []
  {
  }

  lemma NothingSeen(name: string)
    ensures name !in Seen([])
  {
  }

  lemma SameTree(t: Tree, name: string)
    ensures SameFind(t, t, name)
  {
  }

  lemma AtFork(view: seq<Node>, p: int, t: Tree)
    requires Shows(view, p, t) && p != NULL
    ensures t.Fork?
  {
  }

  lemma DownSame(top: Tree, t: Tree, name: string)
    requires SameFind(top, t, name) && Neat(t) && t.Fork? && StrCmp(t.name, name) != 0
    ensures SameFind(top, Down(t, name), name)
  {
    DownFinds(t, name);
  }

  lemma FoundHere(frames: seq<Frame>, t: Tree, name: string)
    requires frames != [] && SameFind(frames[0].tree, t, name) && t.Fork? && t.name == name
    ensures name in Seen(frames) && Seen(frames)[name] == t.value
  {
  }

  lemma NotHere(view: seq<Node>, frames: seq<Frame>, t: Tree, name: string)
    requires frames != [] && SameFind(frames[0].tree, t, name) && Shows(view, NULL, t)
    ensures name in Seen(frames) <==> name in Seen(frames[1..])
    ensures name in Seen(frames) ==> Seen(frames)[name] == Seen(frames[1..])[name]
  {
  }

  /** Lookup: what the innermost scope that binds name binds it to. */
  method Lookup(c: Context, name: string) returns (value: int)
    requires c.Settled()
    modifies c`error
    ensures c.error == (old(c.error) || name !in Seen(c.frames))
    ensures value == if name in Seen(c.frames) then Seen(c.frames)[name] else NULL
  {
    hide InOrder, FramesShow, Shows, Neat, ToMap, Seen, SameFind, FreeList, FreeExactly, Mirrors;
    FramesOf(c);
    var scope := c.scope;
    ghost var frames := c.frames;
    while scope != NULL
      invariant FramesShow(c.view, scope, frames) && c.error == old(c.error)
      invariant name in Seen(c.frames) <==> name in Seen(frames)
      invariant name in Seen(c.frames) ==> Seen(c.frames)[name] == Seen(frames)[name]
      decreases |frames|
    {
      FramesHead(c.view, scope, frames);
      var binding := c.nodes[scope].bindings;
      ghost var t := frames[0].tree;
      SameTree(t, name);
      while binding != NULL
        invariant Shows(c.view, binding, t) && Neat(t) && SameFind(frames[0].tree, t, name) && c.error == old(c.error)
        decreases t
      {
        assert t.Fork? by { AtFork(c.view, binding, t); }
        ShowsDown(c.view, binding, t, name);
        var v := StrCmp(c.nodes[binding].name, name);
        if v < 0 {
          binding := c.nodes[binding].left;
        } else if v > 0 {
          binding := c.nodes[binding].right;
        } else {
          FoundHere(frames, t, name);
          return c.nodes[binding].value;
        }
        DownSame(frames[0].tree, t, name);
        t := Down(t, name);
      }
      NotHere(c.view, frames, t, name);
      scope := c.nodes[scope].outer;
      frames := frames[1..];
    }
    assert frames == [] by { FramesEnd(c.view, frames); }
    assert name !in Seen(frames) by { NothingSeen(name); }
    c.error := true;
    return NULL;
  }

  // ----- leaving a scope -----

  /** The bindings of a are gone, and values lost owners; memory followed. */
  ghost predicate Gone(nodes: seq<Node>, view: seq<Node>, nodes': seq<Node>, view': seq<Node>, a: set<int>) {
    && |view'| == |view| == |nodes| && Followed(nodes, view, nodes', view')
    && forall i :: 0 <= i < |view| ==> if i in a then view[i].Binding? && view'[i].Free? else Less(view[i], view'[i])
  }

  lemma NoneGone(nodes: seq<Node>, view: seq<Node>)
    requires |nodes| == |view|
    ensures Gone(nodes, view, nodes, view, {})
  {
  }

  lemma GoneTwice(nodes: seq<Node>, view: seq<Node>, nodes': seq<Node>, view': seq<Node>, a: set<int>, nodes'': seq<Node>, view'': seq<Node>, b: set<int>)
    requires Gone(nodes, view, nodes', view', a) && Gone(nodes', view', nodes'', view'', b)
    ensures Gone(nodes, view, nodes'', view'', a + b)
  {
  }

  lemma ReleasedGone(nodes: seq<Node>, view: seq<Node>, nodes': seq<Node>, view': seq<Node>, s: set<int>)
    requires |nodes| == |view| && Released(view, view', s) && Followed(nodes, view, nodes', view')
    ensures Gone(nodes, view, nodes', view', {})
  {
  }

  /** The binding itself goes last. */
  lemma GoneWith(nodes: seq<Node>, view: seq<Node>, b: nat, nodes': seq<Node>, view': seq<Node>, a: set<int>, link: int)
    requires |nodes| == |view| && b < |view| && view[b].Binding? && b !in a
    requires Gone(nodes, view[b := Raw], nodes', view', a)
    ensures b < |view'| == |nodes'| && view'[b] == Raw && nodes'[b] == nodes[b]
    ensures Gone(nodes, view, nodes'[b := Free(link)], view'[b := Free(link)], {b} + a)
  {
    assert view[b := Raw][b] == Raw;
  }

  /** What is still owned from outside after that: a value, and a tree apart from what went. */
  lemma GoneValue(nodes: seq<Node>, view: seq<Node>, rank: seq<int>, clock: int, held: multiset<int>, scope: int, frames: seq<Frame>, nodes0: seq<Node>, view0: seq<Node>, a: set<int>, r: int)
    requires InOrder(view, rank, clock, held, scope, frames) && Gone(nodes0, view0, nodes, view, a)
    requires IsValue(view0, r) && Ref(r) <= held
    ensures IsValue(view, r)
  {
    if r != NULL {
      assert Ref(r)[r] == 1;
      Counts(view, RootsOf(held, scope), r);
    }
  }

  lemma GoneShows(nodes: seq<Node>, view: seq<Node>, nodes': seq<Node>, view': seq<Node>, a: set<int>, p: int, t: Tree)
    requires Gone(nodes, view, nodes', view', a) && Shows(view, p, t) && Addrs(t) !! a
    ensures Shows(view', p, t)
  {
    ShowsBindings(view, p, t);
    ShowsKept(view, view', p, t);
  }

  lemma GoneExact(nodes: seq<Node>, view: seq<Node>, nodes': seq<Node>, view': seq<Node>, a: set<int>)
    requires Gone(nodes, view, nodes', view', a) && Exact(nodes, view)
    ensures Exact(nodes', view')
  {
  }

  lemma NoBindings(view: seq<Node>, t: Tree)
    requires Shows(view, NULL, t)
    ensures Addrs(t) == {}
  {
  }

  lemma OwnRef(r: int)
    requires r != NULL
    ensures Ref(r) == multiset{r}
  {
  }

  lemma ForkParts(nodes: seq<Node>, view: seq<Node>, p: int, t: Tree)
    requires Shows(view, p, t) && Neat(t) && p != NULL && Exact(nodes, view)
    ensures t.Fork? && 0 <= p < |view| == |nodes| && view[p].Binding? && nodes[p] == view[p] && Addrs(t) == {p} + (Addrs(t.left) + Addrs(t.right))
    ensures p !in Addrs(t.left) && p !in Addrs(t.right) && Addrs(t.left) !! Addrs(t.right) && Neat(t.left) && Neat(t.right)
    ensures Shows(view[p := Raw], view[p].left, t.left) && Shows(view[p := Raw], view[p].right, t.right)
    ensures Exact(nodes, view[p := Raw])
  {
    ShowsKept(view, view[p := Raw], view[p].left, t.left);
    ShowsKept(view, view[p := Raw], view[p].right, t.right);
  }

  /** Apart from nodes being taken apart, memory is as the view says. */
  ghost predicate Exact(nodes: seq<Node>, view: seq<Node>) {
    |nodes| == |view| && forall i :: 0 <= i < |view| && view[i] != Raw ==> nodes[i] == view[i]
  }

  ghost function All(view: seq<Node>): (s: set<int>)
    ensures forall i :: i in s <==> 0 <= i < |view|
  {
    set i | 0 <= i < |view| && view[i] == view[i]
  }

  /** References lead into the pool. */
  lemma AllClosed(view: seq<Node>, rank: seq<int>, clock: int, held: multiset<int>, scope: int, frames: seq<Frame>)
    requires InOrder(view, rank, clock, held, scope, frames)
    ensures Closed(view, All(view)) && forall r :: IsValue(view, r) && r != NULL ==> r in All(view)
  {
    forall i, r {:trigger Shares(view[i], r)} | 0 <= i < |view| && Shares(view[i], r) > 0 ensures r in All(view) {
      OwnedHas(view, i, r);
      assert Owned(view, r) + RootsOf(held, scope)[r] == CountAt(view, r);
    }
  }

  /** A binding nobody refers to any more hands what it owned to the outside. */
  lemma Unbound(view: seq<Node>, rank: seq<int>, clock: int, held: multiset<int>, scope: int, frames: seq<Frame>, b: nat)
    requires InOrder(view, rank, clock, held, scope, frames)
    requires b < |view| && view[b].Binding? && b in held && b !in FrameAddrs(frames)
    ensures var held' := held - multiset{b} + Ref(view[b].value) + Ref(view[b].right) + Ref(view[b].left);
      InOrder(view[b := Raw], rank, clock, held', scope, frames)
    ensures IsValue(view[b := Raw], view[b].value)
  {
    hide Counted, Sound, FramesShow, RootsOf, Ref, One;
    var w := view[b := Raw];
    var held' := held - multiset{b} + Ref(view[b].value) + Ref(view[b].right) + Ref(view[b].left);
    RootsGive(held, held', scope);
    forall j: int ensures held'[j] + (if j == b then 1 else 0) == held[j] + Shares(view[b], j) {
      RefAt(view[b].value, j);
      RefAt(view[b].left, j);
      RefAt(view[b].right, j);
    }
    Severed(view, rank, RootsOf(held, scope), b, RootsOf(held', scope));
    SoundAt(view, rank, b);
    FramesKept(view, w, scope, frames);
  }

  /** ReleaseBindings: every binding of the tree is returned, and every value loses the owners it had there. */
  method ReleaseBindings(c: Context, binding: int, ghost t: Tree)
    requires c.Valid() && Exact(c.nodes, c.view)
    requires Shows(c.view, binding, t) && Neat(t) && Ref(binding) <= c.held && Addrs(t) !! FrameAddrs(c.frames)
    modifies c`nodes, c`freelist, c`avail, c`view, c`held
    ensures c.Valid() && c.held == old(c.held) - Ref(binding)
    ensures Gone(old(c.nodes), old(c.view), c.nodes, c.view, Addrs(t))
    decreases t, 1
  {
    hide InOrder, FreeList, FreeExactly, Shows, Neat, Gone, Exact, Ref, Mirrors, Addrs, IsValue;
    ExactSize(c.nodes, c.view);
    if binding == NULL {
      assert Addrs(t) == {} by { NoBindings(c.view, t); }
      NoneGone(c.nodes, c.view);
      GivenBack(c.held, Ref(NULL));
    } else {
      ghost var nodes0, view0, held0 := c.nodes, c.view, c.held;
      ForkParts(c.nodes, c.view, binding, t);
      OwnRef(binding);
      ghost var node, base := view0[binding], held0 - multiset{binding};
      c.view := c.view[binding := Raw];
      c.held := base + Ref(node.value) + Ref(node.right) + Ref(node.left);
      Unbound(view0, c.rank, c.clock, held0, c.scope, c.frames, binding);
      MirrorsMove(nodes0, view0, binding, node, Raw);
      assert nodes0[binding := node] == nodes0;
      ReleaseParts(c, binding, t, base);
      GoneWith(nodes0, view0, binding, c.nodes, c.view, Addrs(t.left) + Addrs(t.right), c.freelist);
      c.PutFree(binding);
    }
  }

  lemma ExactSize(nodes: seq<Node>, view: seq<Node>)
    requires Exact(nodes, view)
    ensures |nodes| == |view|
  {
  }

  /** What ReleaseBindings does before it returns the binding itself. */
  method ReleaseParts(c: Context, binding: int, ghost t: Tree, ghost base: multiset<int>)
    requires c.Valid() && Exact(c.nodes, c.view) && t.Fork?
    requires 0 <= binding < |c.nodes| == |c.view| && c.nodes[binding].Binding? && c.view[binding] == Raw
    requires var node := c.nodes[binding];
      && c.held == base + Ref(node.value) + Ref(node.right) + Ref(node.left) && IsValue(c.view, node.value)
      && Shows(c.view, node.left, t.left) && Shows(c.view, node.right, t.right)
    requires Neat(t.left) && Neat(t.right) && Addrs(t.left) !! Addrs(t.right) && Addrs(t.left) + Addrs(t.right) !! FrameAddrs(c.frames)
    modifies c`nodes, c`freelist, c`avail, c`view, c`held
    ensures c.Valid() && c.held == base
    ensures Gone(old(c.nodes), old(c.view), c.nodes, c.view, Addrs(t.left) + Addrs(t.right))
    decreases t, 0
  {
    hide InOrder, FreeList, FreeExactly, Shows, Neat, Gone, Released, Exact, Ref, Mirrors, Addrs, IsValue;
    ghost var node, lefts, rights := c.nodes[binding], Addrs(t.left), Addrs(t.right);
    ghost var nodes1, view1 := c.nodes, c.view;
    GivenBack(base + Ref(node.value) + Ref(node.right), Ref(node.left));
    ReleaseBindings(c, c.nodes[binding].left, t.left);
    ghost var nodes2, view2 := c.nodes, c.view;
    GoneRaw(nodes1, view1, nodes2, view2, lefts, binding);
    GoneShows(nodes1, view1, nodes2, view2, lefts, node.right, t.right);
    GoneExact(nodes1, view1, nodes2, view2, lefts);
    GivenBack(base + Ref(node.value), Ref(node.right));
    ReleaseBindings(c, c.nodes[binding].right, t.right);
    ghost var nodes3, view3 := c.nodes, c.view;
    GoneRaw(nodes2, view2, nodes3, view3, rights, binding);
    GoneTwice(nodes1, view1, nodes2, view2, lefts, nodes3, view3, rights);
    ReleaseBound(c, c.nodes[binding].value, base, nodes1, view1, lefts + rights);
    GoneTwice(nodes1, view1, nodes3, view3, lefts + rights, c.nodes, c.view, {});
    assert lefts + rights + {} == lefts + rights;
  }

  lemma GoneRaw(nodes: seq<Node>, view: seq<Node>, nodes': seq<Node>, view': seq<Node>, a: set<int>, i: nat)
    requires Gone(nodes, view, nodes', view', a) && i < |view| && view[i] == Raw
    ensures i < |view'| == |nodes'| && view'[i] == Raw && nodes'[i] == nodes[i]
  {
  }

  /** The value of a binding is released. */
  method ReleaseBound(c: Context, value: int, ghost base: multiset<int>, ghost nodes1: seq<Node>, ghost view1: seq<Node>, ghost a: set<int>)
    requires c.Valid() && |c.nodes| == |c.view| && c.held == base + Ref(value)
    requires Gone(nodes1, view1, c.nodes, c.view, a) && IsValue(view1, value)
    modifies c`nodes, c`freelist, c`avail, c`view, c`held
    ensures c.Valid() && c.held == base
    ensures Gone(old(c.nodes), old(c.view), c.nodes, c.view, {})
  {
    hide InOrder, FreeList, FreeExactly, Gone, Released, Followed, Ref, Mirrors, IsValue, Closed, All;
    GivenBack(base, Ref(value));
    GoneValue(c.nodes, c.view, c.rank, c.clock, c.held, c.scope, c.frames, nodes1, view1, a, value);
    AllClosed(c.view, c.rank, c.clock, c.held, c.scope, c.frames);
    c.JLRelease(value, All(c.view));
    ReleasedGone(old(c.nodes), old(c.view), c.nodes, c.view, All(old(c.view)));
  }

  /** The current scope is left: its bindings are for the outside to release, and the next scope is current. */
  lemma ScopeLeft(view: seq<Node>, rank: seq<int>, clock: int, held: multiset<int>, scope: int, frames: seq<Frame>)
    requires InOrder(view, rank, clock, held, scope, frames) && scope != NULL
    ensures frames != [] && 0 <= scope < |view| && view[scope].Scope? && view[scope].owners == 1
    ensures InOrder(view[scope := Raw], rank, clock, held + Ref(view[scope].bindings), view[scope].outer, frames[1..])
    ensures Shows(view[scope := Raw], view[scope].bindings, frames[0].tree) && Neat(frames[0].tree)
    ensures Addrs(frames[0].tree) !! FrameAddrs(frames[1..])
  {
    hide Counted, Sound;
    var node, w := view[scope], view[scope := Raw];
    var roots, roots' := RootsOf(held, scope), RootsOf(held + Ref(node.bindings), node.outer);
    forall j: int ensures roots'[j] + (if j == scope then 1 else 0) == roots[j] + Shares(node, j) {
    }
    Severed(view, rank, roots, scope, roots');
    ShowsBindings(view, node.bindings, frames[0].tree);
    ShowsKept(view, w, node.bindings, frames[0].tree);
    FramesKept(view, w, node.outer, frames[1..]);
  }

  /** Memory is as the view says again once the node that was taken apart is free. */
  lemma SettledAgain(nodes: seq<Node>, i: nat, nodes': seq<Node>, view': seq<Node>, a: set<int>, link: int)
    requires Raw !in nodes && i < |nodes| && Gone(nodes, nodes[i := Raw], nodes', view', a)
    ensures nodes'[i := Free(link)] == view'[i := Free(link)] && Raw !in nodes'[i := Free(link)]
    ensures |nodes'| == |view'| == |nodes| && view'[i] == Raw
    ensures Fewer(nodes, nodes'[i := Free(link)])
  {
    var raw := nodes[i := Raw];
    assert raw[i] == Raw;
    assert forall j :: 0 <= j < |nodes| ==> nodes[j] != Raw;
    assert forall j :: 0 <= j < |nodes| && j != i ==> raw[j] == nodes[j] && view'[j] == nodes'[j] && view'[j] != Raw;
  }

  /** No node was taken, and the values that are left are what they were. */
  ghost predicate Fewer(nodes: seq<Node>, nodes': seq<Node>) {
    && |nodes'| == |nodes|
    && forall i :: 0 <= i < |nodes| && Live(nodes'[i]) ==> Less(nodes[i], nodes'[i])
  }

  /** ReleaseScope, for a scope that is only in the chain; t is the tree of its bindings. */
  method ReleaseScope(c: Context, scope: int, ghost t: Tree)
    requires c.Valid() && 0 <= scope < |c.nodes| == |c.view| && c.nodes[scope].Scope? && c.nodes[scope].owners == 1
    requires c.view == c.nodes[scope := Raw] && Raw !in c.nodes && Exact(c.nodes, c.view)
    requires Shows(c.view, c.nodes[scope].bindings, t) && Neat(t) && Addrs(t) !! FrameAddrs(c.frames)
    requires Ref(c.nodes[scope].bindings) <= c.held
    modifies c`nodes, c`freelist, c`avail, c`view, c`held
    ensures c.Settled() && c.held == old(c.held) - Ref(old(c.nodes)[scope].bindings)
    ensures Fewer(old(c.nodes), c.nodes)
  {
    hide InOrder, FreeList, FreeExactly, Shows, Neat, Gone, Exact, Ref, Mirrors, Addrs, Fewer;
    var newCount := c.nodes[scope].owners - 1;
    if newCount == 0 {
      ReleaseBindings(c, c.nodes[scope].bindings, t);
      SettledAgain(old(c.nodes), scope, c.nodes, c.view, Addrs(t), c.freelist);
      c.PutFree(scope);
    }
  }

  method JLLeaveScope(c: Context)
    requires c.Settled() && c.scope != NULL
    modifies c`nodes, c`freelist, c`avail, c`view, c`held, c`scope, c`frames
    ensures c.Settled() && old(c.frames) != [] && c.frames == old(c.frames)[1..]
    ensures 0 <= old(c.scope) < |old(c.nodes)| && old(c.nodes)[old(c.scope)].Scope? && c.scope == old(c.nodes)[old(c.scope)].outer
    ensures c.held == old(c.held) && Fewer(old(c.nodes), c.nodes)
  {
    hide InOrder, FreeList, FreeExactly, Shows, Neat, Ref, Mirrors, Addrs, Fewer;
    var scope := c.scope;
    ScopeLeft(c.view, c.rank, c.clock, c.held, scope, c.frames);
    ghost var t, held0, view0 := c.frames[0].tree, c.held, c.view;
    c.scope := c.nodes[scope].outer;
    c.view := c.view[scope := Raw];
    c.held := c.held + Ref(view0[scope].bindings);
    c.frames := c.frames[1..];
    MirrorsMove(c.nodes, view0, scope, c.nodes[scope], Raw);
    assert c.nodes[scope := c.nodes[scope]] == c.nodes;
    GivenBack(held0, Ref(view0[scope].bindings));
    ReleaseScope(c, scope, t);
  }

  // ----- binding a name -----

  /** A binding is given another value; what it had is for the outside to release. */
  lemma Rebound(view: seq<Node>, rank: seq<int>, clock: int, held: multiset<int>, scope: int, frames: seq<Frame>, name: string, value: int)
    requires InOrder(view, rank, clock, held, scope, frames) && scope != NULL
    requires frames != [] && name in Names(frames[0].tree) && IsValue(view, value) && Ref(value) <= held
    ensures var q := Last(frames[0].tree, name);
      && 0 <= q < |view| && view[q].Binding? && IsValue(view, view[q].value)
      && InOrder(view[q := view[q].(value := value)], rank, clock, held - Ref(value) + Ref(view[q].value), scope, Bound(frames, name, value, NULL))
  {
    hide Counted, Sound, RootsOf, Shows, ToMap, Put, Addrs, Names, Last, FramesShow;
    var t, q := frames[0].tree, Last(frames[0].tree, name);
    FramesHead(view, scope, frames);
    assert t.Fork? by { NamedFork(t, name); }
    LastNode(view, view[scope].bindings, t, name);
    FramesPut(view, scope, frames, name, value, NULL);
    var n, held' := view[q].(value := value), held - Ref(value) + Ref(view[q].value);
    RootsGive(held, held', scope);
    forall j: int ensures held'[j] + Shares(n, j) == held[j] + Shares(view[q], j) {
    }
    SoundAt(view, rank, q);
    Linked(view, rank, RootsOf(held, scope), q, n, RootsOf(held', scope));
  }

  lemma NamedFork(t: Tree, name: string)
    requires name in Names(t)
    ensures t.Fork?
  {
  }

  /** A new binding is filled in; the outside owns it until it is hung in the tree. */
  lemma Filled(view: seq<Node>, rank: seq<int>, clock: int, held: multiset<int>, scope: int, frames: seq<Frame>, p: nat, name: string, value: int)
    requires InOrder(view, rank, clock, held, scope, frames) && p < |view| == |rank| && view[p] == Raw
    requires IsValue(view, value) && Ref(value) <= held
    ensures InOrder(view[p := Binding(name, value, NULL, NULL)], rank[p := clock - 1], clock - 1, held - Ref(value) + multiset{p}, scope, frames)
    ensures p !in FrameAddrs(frames) && forall i :: 0 <= i < |rank| ==> rank[i] > clock - 1
  {
    hide Counted, Sound, FramesShow, RootsOf;
    var n, rank' := Binding(name, value, NULL, NULL), rank[p := clock - 1];
    var w, held' := view[p := n], held - Ref(value) + multiset{p};
    RootsGive(held, held', scope);
    forall j: int ensures held'[j] + Shares(n, j) == held[j] + if j == p then 1 else 0 {
    }
    assert FieldsOk(w, rank', p);
    Born(view, rank, RootsOf(held, scope), p, n, clock - 1, RootsOf(held', scope));
    FramesNodes(view, scope, frames);
    FramesKept(view, w, scope, frames);
  }

  /** The binding is hung where the search for its name ended. */
  lemma Hung(view: seq<Node>, rank: seq<int>, clock: int, held: multiset<int>, scope: int, frames: seq<Frame>, p: nat, name: string, value: int)
    requires InOrder(view, rank, clock, held, scope, frames) && scope != NULL && p < |view| && p in held
    requires view[p] == Binding(name, value, NULL, NULL) && p !in FrameAddrs(frames)
    requires frames != [] && frames[0].tree.Fork? && name !in Names(frames[0].tree)
    requires forall i :: 0 <= i < |rank| && i != p ==> rank[i] > clock
    requires |rank| == |view| && rank[p] == clock
    ensures var q := Last(frames[0].tree, name);
      && 0 <= q < |view| && view[q].Binding?
      && InOrder(view[q := Rewritten(view[q], name, value, p)], rank, clock, held - multiset{p}, scope, Bound(frames, name, value, p))
  {
    hide Counted, Sound, RootsOf, Shows, ToMap, Put, Addrs, Names, Last, FramesShow;
    var t, q := frames[0].tree, Last(frames[0].tree, name);
    FramesHead(view, scope, frames);
    LastNode(view, view[scope].bindings, t, name);
    FramesPut(view, scope, frames, name, value, p);
    var n, held' := Rewritten(view[q], name, value, p), held - multiset{p};
    RootsGive(held, held', scope);
    forall j: int ensures held'[j] + Shares(n, j) == held[j] + Shares(view[q], j) {
    }
    LastElsewhere(view, scope, frames, name, p);
    SoundAt(view, rank, q);
    Linked(view, rank, RootsOf(held, scope), q, n, RootsOf(held', scope));
  }

  lemma LastElsewhere(view: seq<Node>, scope: int, frames: seq<Frame>, name: string, p: nat)
    requires FramesShow(view, scope, frames) && frames != [] && frames[0].tree.Fork? && p !in FrameAddrs(frames)
    ensures Last(frames[0].tree, name) != p
  {
    LastIn(frames[0].tree, name);
  }

  lemma HungFirst(view: seq<Node>, rank: seq<int>, clock: int, held: multiset<int>, scope: int, frames: seq<Frame>, p: nat, name: string, value: int)
    requires InOrder(view, rank, clock, held, scope, frames) && scope != NULL && p < |view| && p in held
    requires view[p] == Binding(name, value, NULL, NULL) && p !in FrameAddrs(frames)
    requires frames != [] && frames[0].tree.Leaf?
    ensures 0 <= scope < |view| && view[scope].Scope?
    ensures InOrder(view[scope := view[scope].(bindings := p)], rank, clock, held - multiset{p}, scope, Bound(frames, name, value, p))
  {
    hide Counted, Sound, RootsOf, FramesShow;
    FramesHead(view, scope, frames);
    FramesPutFirst(view, scope, frames, name, value, p);
    var n, held' := view[scope].(bindings := p), held - multiset{p};
    RootsGive(held, held', scope);
    forall j: int ensures held'[j] + Shares(n, j) == held[j] + Shares(view[scope], j) {
    }
    SoundAt(view, rank, scope);
    Linked(view, rank, RootsOf(held, scope), scope, n, RootsOf(held', scope));
  }

  /** The search for name in top has come to t, from the binding last. */
  ghost predicate Path(top: Tree, t: Tree, name: string, last: int) {
    && (name in Names(top) <==> name in Names(t))
    && (if t.Fork? then top.Fork? && Last(top, name) == Last(t, name)
        else if top.Leaf? then last == NULL else last != NULL && last == Last(top, name))
  }

  lemma PathDown(view: seq<Node>, p: int, top: Tree, t: Tree, name: string, last: int)
    requires Path(top, t, name, last) && Shows(view, p, t) && Neat(t) && t.Fork? && t.name != name
    ensures Path(top, Down(t, name), name, t.addr)
  {
  }

  lemma PathFound(top: Tree, t: Tree, name: string, last: int)
    requires Path(top, t, name, last) && t.Fork? && t.name == name
    ensures name in Names(top) && Last(top, name) == t.addr
  {
  }

  lemma PathEnded(view: seq<Node>, top: Tree, t: Tree, name: string, last: int)
    requires Path(top, t, name, last) && Shows(view, NULL, t)
    ensures name !in Names(top) && (if top.Leaf? then last == NULL else last != NULL && last == Last(top, name))
  {
  }

  /** The values that are left are what they were, but for their counts. */
  ghost predicate SameValues(nodes: seq<Node>, nodes': seq<Node>) {
    && |nodes| <= |nodes'|
    && forall i :: 0 <= i < |nodes| && nodes[i].Value? && Live(nodes'[i]) ==>
      nodes'[i].Value? && nodes'[i] == nodes[i].(count := nodes'[i].count)
  }

  /** The binding that already has the name gets another value, and the one it had is released. */
  method Overwrite(c: Context, binding: int, name: string, value: int)
    requires c.Settled() && c.scope != NULL && c.frames != [] && IsValue(c.view, value) && Ref(value) <= c.held
    requires name in Names(c.frames[0].tree) && binding == Last(c.frames[0].tree, name)
    modifies c`nodes, c`freelist, c`avail, c`view, c`held, c`frames
    ensures c.Settled() && c.held == old(c.held) - Ref(value)
    ensures c.frames == Bound(old(c.frames), name, value, NULL) && SameValues(old(c.nodes), c.nodes)
  {
    hide InOrder, FreeList, FreeExactly, Names, Last, Bound, Closed, All, SameValues, IsValue, Ref, Mirrors, Released, Followed;
    ghost var nodes0 := c.nodes;
    Announce(c, binding, name, value);
    var before := c.nodes[binding].value;
    ghost var s := All(c.view);
    AllClosed(c.view, c.rank, c.clock, c.held, c.scope, c.frames);
    c.JLRelease(before, s);
    ghost var nodes1 := c.nodes;
    OverwriteSettles(nodes0, binding, value, nodes1, c.view, s);
    c.nodes := c.nodes[binding := c.nodes[binding].(value := value)];
    FreeElsewhere(nodes1, c.nodes, c.freelist, c.avail);
    MirrorsSelf(c.view);
  }

  /** The new value already counts as bound, and the old one as held. */
  ghost method Announce(c: Context, binding: int, name: string, value: int)
    requires c.Settled() && c.scope != NULL && c.frames != [] && IsValue(c.view, value) && Ref(value) <= c.held
    requires name in Names(c.frames[0].tree) && binding == Last(c.frames[0].tree, name)
    modifies c`view, c`held, c`frames
    ensures c.Valid() && 0 <= binding < |c.nodes| && Raw !in c.nodes && c.nodes[binding].Binding?
    ensures c.view == c.nodes[binding := c.nodes[binding].(value := value)]
    ensures var before := c.nodes[binding].value;
      IsValue(c.view, before) && Ref(before) <= c.held && c.held - Ref(before) == old(c.held) - Ref(value)
    ensures c.frames == Bound(old(c.frames), name, value, NULL)
  {
    hide InOrder, FreeList, FreeExactly, Names, Last, Bound, IsValue, Ref, Mirrors;
    Rebound(c.view, c.rank, c.clock, c.held, c.scope, c.frames, name, value);
    var view0, held0, before := c.view, c.held, c.nodes[binding].value;
    c.view := c.view[binding := c.view[binding].(value := value)];
    c.held := held0 - Ref(value) + Ref(before);
    c.frames := Bound(c.frames, name, value, NULL);
    MirrorsBinding(c.nodes, binding, value);
    GivenBack(held0 - Ref(value), Ref(before));
    StillIsValue(view0, binding, c.view[binding], before);
  }

  lemma MirrorsBinding(nodes: seq<Node>, b: nat, value: int)
    requires b < |nodes| && nodes[b].Binding?
    ensures Mirrors(nodes, nodes[b := nodes[b].(value := value)])
  {
  }

  lemma MirrorsSelf(nodes: seq<Node>)
    ensures Mirrors(nodes, nodes)
  {
  }

  lemma StillIsValue(view: seq<Node>, b: nat, n: Node, r: int)
    requires b < |view| && view[b].Binding? && n.Binding? && IsValue(view, r)
    ensures IsValue(view[b := n], r)
  {
  }

  lemma OverwriteSettles(nodes: seq<Node>, b: nat, value: int, nodes': seq<Node>, view': seq<Node>, s: set<int>)
    requires b < |nodes| && Raw !in nodes && nodes[b].Binding?
    requires var view := nodes[b := nodes[b].(value := value)]; Released(view, view', s) && Followed(nodes, view, nodes', view')
    ensures |nodes'| == |view'| == |nodes| && nodes'[b].Binding? && nodes'[b := nodes'[b].(value := value)] == view'
    ensures Raw !in view' && SameValues(nodes, view')
  {
    var view := nodes[b := nodes[b].(value := value)];
    assert forall j :: 0 <= j < |nodes| ==> nodes[j] != Raw;
    assert forall j :: 0 <= j < |nodes| ==> Less(view[j], view'[j]);
  }

  lemma Retained(nodes: seq<Node>, nodes': seq<Node>, value: int)
    requires Raw !in nodes && IsValue(nodes, value)
    requires nodes' == if value == NULL then nodes else nodes[value := nodes[value].(count := nodes[value].count + 1)]
    ensures Raw !in nodes' && IsValue(nodes', value) && SameValues(nodes, nodes')
    ensures forall i :: 0 <= i < |nodes| && nodes[i].Value? ==> Live(nodes'[i])
  {
    assert forall i :: 0 <= i < |nodes| ==> nodes[i] != Raw;
  }

  lemma SameTwice(nodes: seq<Node>, nodes': seq<Node>, nodes'': seq<Node>)
    requires SameValues(nodes, nodes') && SameValues(nodes', nodes'')
    requires forall i :: 0 <= i < |nodes| && nodes[i].Value? ==> Live(nodes'[i])
    ensures SameValues(nodes, nodes'')
  {
  }

  /** The search of JLDefineValue: the binding that has the name, or the one to hang it on and on which side. */
  method FindPlace(c: Context, name: string) returns (root: int, last: int, left: bool)
    requires c.Settled() && c.scope != NULL
    ensures c.frames != []
    ensures root != NULL ==> name in Names(c.frames[0].tree) && root == Last(c.frames[0].tree, name)
    ensures root == NULL ==> name !in Names(c.frames[0].tree) && (last == NULL <==> c.frames[0].tree.Leaf?)
    ensures root == NULL && last != NULL ==>
      && last == Last(c.frames[0].tree, name) && 0 <= last < |c.nodes| && c.nodes[last].Binding?
      && c.nodes[last].name != name && left == (StrCmp(c.nodes[last].name, name) < 0)
  {
    hide InOrder, FreeList, FreeExactly, Names, Last, Shows, Neat, Path, Mirrors;
    FramesOf(c);
    FramesHead(c.view, c.scope, c.frames);
    ghost var top := c.frames[0].tree;
    ghost var t := top;
    root, last, left := c.nodes[c.scope].bindings, NULL, false;
    PathStarts(top, name);
    while root != NULL
      invariant Shows(c.view, root, t) && Neat(t) && Path(top, t, name, last)
      invariant last != NULL ==>
        && 0 <= last < |c.nodes| && c.nodes[last].Binding?
        && c.nodes[last].name != name && left == (StrCmp(c.nodes[last].name, name) < 0)
      decreases t
    {
      assert t.Fork? by { AtFork(c.view, root, t); }
      ShowsDown(c.view, root, t, name);
      var v := StrCmp(c.nodes[root].name, name);
      if v == 0 {
        PathFound(top, t, name, last);
        return;
      }
      PathDown(c.view, root, top, t, name, last);
      t := Down(t, name);
      last, left := root, v < 0;
      root := if v < 0 then c.nodes[root].left else c.nodes[root].right;
    }
    PathEnded(c.view, top, t, name, last);
  }

  lemma PathStarts(top: Tree, name: string)
    ensures Path(top, top, name, NULL)
  {
  }

  /** A node handed out is the only one half done. */
  lemma HandedSame(before: seq<Node>, nodes: seq<Node>, view: seq<Node>, p: int, n: Node)
    requires Raw !in before && Handed(before, nodes, p) && Handed(before, view, p) && Mirrors(nodes, view) && n != Raw
    ensures nodes == view && Raw !in nodes[p := n]
  {
    assert forall i :: 0 <= i < |before| ==> before[i] != Raw;
    forall i | 0 <= i < |nodes| ensures nodes[i] == view[i] {
      assert Mirrored(nodes[i], view[i]);
    }
  }

  /** A binding that is not in a tree yet. */
  method NewBinding(c: Context, name: string, value: int) returns (binding: int)
    requires c.Settled() && IsValue(c.view, value) && Ref(value) <= c.held
    modifies c`nodes, c`freelist, c`blocks, c`avail, c`view, c`rank, c`clock, c`held
    ensures c.Settled() && c.held == old(c.held) - Ref(value) + multiset{binding}
    ensures 0 <= binding < |c.nodes| && c.nodes[binding] == Binding(name, value, NULL, NULL) && binding !in FrameAddrs(c.frames)
    ensures c.rank[binding] == c.clock && forall i :: 0 <= i < |c.rank| && i != binding ==> c.rank[i] > c.clock
    ensures Handed(old(c.nodes), c.nodes[binding := Raw], binding)
  {
    hide InOrder, FreeList, FreeExactly, IsValue, Ref, Mirrors;
    ghost var nodes0, held0 := c.nodes, c.held;
    binding := c.GetFree();
    ghost var nodes1, view1, rank1 := c.nodes, c.view, c.rank;
    var node := Binding(name, value, NULL, NULL);
    GrownValue(nodes0, view1, binding, value);
    HandedSame(nodes0, nodes1, view1, binding, node);
    c.nodes := c.nodes[binding := node];
    c.view := c.view[binding := node];
    c.rank := c.rank[binding := c.clock - 1];
    c.clock := c.clock - 1;
    c.held := held0 - Ref(value) + multiset{binding};
    Filled(view1, rank1, c.clock + 1, held0, c.scope, c.frames, binding, name, value);
    FreeElsewhere(nodes1, c.nodes, c.freelist, c.avail);
    MirrorsMove(nodes1, view1, binding, node, node);
    assert nodes1 == c.nodes[binding := Raw];
  }

  /** One node is rewritten. */
  method Store(c: Context, at: int, node: Node, ghost rank: seq<int>, ghost held: multiset<int>, ghost frames: seq<Frame>)
    requires c.Settled() && 0 <= at < |c.nodes| && SameKind(c.nodes[at], node)
    requires InOrder(c.nodes[at := node], rank, c.clock, held, c.scope, frames) && |rank| == |c.nodes|
    modifies c`nodes, c`view, c`rank, c`held, c`frames
    ensures c.Settled() && c.nodes == old(c.nodes)[at := node] && c.rank == rank && c.held == held && c.frames == frames
  {
    hide InOrder, FreeList, FreeExactly;
    c.nodes := c.nodes[at := node];
    c.view := c.nodes;
    c.rank := rank;
    c.held := held;
    c.frames := frames;
    FreeElsewhere(old(c.nodes), c.nodes, c.freelist, c.avail);
    assert Raw !in old(c.nodes);
  }

  /** A new binding, hung on the one the search ended at, or on the scope. */
  method Hang(c: Context, last: int, left: bool, name: string, value: int)
    requires c.Settled() && c.scope != NULL && c.frames != [] && IsValue(c.view, value) && Ref(value) <= c.held
    requires name !in Names(c.frames[0].tree) && (last == NULL <==> c.frames[0].tree.Leaf?)
    requires last != NULL ==>
      && last == Last(c.frames[0].tree, name) && 0 <= last < |c.nodes| && c.nodes[last].Binding?
      && c.nodes[last].name != name && left == (StrCmp(c.nodes[last].name, name) < 0)
    modifies c`nodes, c`freelist, c`blocks, c`avail, c`view, c`rank, c`clock, c`held, c`frames
    ensures c.Settled() && c.held == old(c.held) - Ref(value)
    ensures exists a :: c.frames == Bound(old(c.frames), name, value, a)
    ensures SameValues(old(c.nodes), c.nodes)
  {
    hide InOrder, FreeList, FreeExactly, Names, Last, Bound, SameValues, IsValue, Ref, Mirrors;
    ghost var nodes0, frames0 := c.nodes, c.frames;
    var binding := NewBinding(c, name, value);
    GivenBack(old(c.held) - Ref(value), multiset{binding});
    ghost var nodes2, held2 := c.nodes, c.held;
    var root, node;
    if last == NULL {
      HungFirst(nodes2, c.rank, c.clock, held2, c.scope, frames0, binding, name, value);
      root, node := c.scope, c.nodes[c.scope].(bindings := binding);
    } else {
      Hung(nodes2, c.rank, c.clock, held2, c.scope, frames0, binding, name, value);
      root, node := last, if left then c.nodes[last].(left := binding) else c.nodes[last].(right := binding);
    }
    assert held2 - multiset{binding} == old(c.held) - Ref(value);
    Store(c, root, node, c.rank, old(c.held) - Ref(value), Bound(frames0, name, value, binding));
    HungSame(nodes0, nodes2, c.nodes, binding);
  }

  lemma HungSame(nodes: seq<Node>, nodes': seq<Node>, nodes'': seq<Node>, p: int)
    requires 0 <= p < |nodes'| && Raw !in nodes && Raw !in nodes' && |nodes''| == |nodes'|
    requires Handed(nodes, nodes'[p := Raw], p) && Live(nodes'[p])
    requires forall i :: 0 <= i < |nodes'| ==> nodes''[i] == nodes'[i] || (!nodes'[i].Value? && Live(nodes''[i]))
    ensures SameValues(nodes, nodes'') && Raw !in nodes''
  {
    var handed := nodes'[p := Raw];
    assert forall i :: 0 <= i < |nodes'| ==> nodes'[i] != Raw && (i != p ==> handed[i] == nodes'[i]);
  }

  lemma GrownValue(view: seq<Node>, view': seq<Node>, p: int, r: int)
    requires Handed(view, view', p) && IsValue(view, r)
    ensures IsValue(view', r)
  {
  }

  /** JLDefineValue: binds name in the current scope. */
  method JLDefineValue(c: Context, name: string, value: int)
    requires c.Settled() && c.scope != NULL && IsValue(c.view, value)
    modifies c`nodes, c`freelist, c`blocks, c`avail, c`view, c`rank, c`clock, c`held, c`frames
    ensures c.Settled() && c.held == old(c.held)
    ensures old(c.frames) != [] && exists a :: c.frames == Bound(old(c.frames), name, value, a)
    ensures Seen(c.frames) == Seen(old(c.frames))[name := value]
    ensures SameValues(old(c.nodes), c.nodes)
  {
    hide InOrder, FreeList, FreeExactly, Names, Last, Bound, SameValues, IsValue, Ref, Mirrors, Shows, Neat, Seen;
    FramesOf(c);
    FramesHead(c.view, c.scope, c.frames);
    ghost var frames0, held0 := c.frames, c.held;
    c.JLRetain(value);
    Retained(old(c.nodes), c.nodes, value);
    GivenBack(held0, Ref(value));
    ghost var nodes1 := c.nodes;
    var root, last, left := FindPlace(c, name);
    if root != NULL {
      Overwrite(c, root, name, value);
      BoundSeen(frames0, name, value, NULL);
    } else {
      Hang(c, last, left, name, value);
      ghost var a :| c.frames == Bound(frames0, name, value, a);
      BoundSeen(frames0, name, value, a);
    }
    SameTwice(old(c.nodes), nodes1, c.nodes);
  }

  // ----- copying a value -----

  /** The copy takes its place beside the original in the order, and shares its list. */
  lemma Copied(view: seq<Node>, rank: seq<int>, clock: int, held: multiset<int>, scope: int, frames: seq<Frame>, p: nat, o: nat)
    requires InOrder(view, rank, clock, held, scope, frames) && p < |view| == |rank| && o < |view| && p != o
    requires view[p] == Value(1, Content.Nil, NULL) && p in held && view[o].Value? && Ref(ListOf(view[o])) <= held
    ensures InOrder(view[p := Value(1, view[o].content, NULL)], rank[p := rank[o]], clock, held - Ref(ListOf(view[o])), scope, frames)
  {
    hide Counted, FramesShow, RootsOf;
    var n, lst := Value(1, view[o].content, NULL), ListOf(view[o]);
    var w, rank', held' := view[p := n], rank[p := rank[o]], held - Ref(lst);
    RootsGive(held, held', scope);
    forall j | 0 <= j < |view| ensures FieldsOk(view, rank', j) {
      assert FieldsOk(view, rank, j);
      OwnedByHeld(view, held, scope, p, j);
    }
    SoundAt(view, rank, o);
    forall j: int ensures held'[j] + Shares(n, j) == held[j] + Shares(view[p], j) {
    }
    assert lst != p by { OwnedByHeld(view, held, scope, p, o); }
    assert FieldsOk(w, rank', p);
    Linked(view, rank', RootsOf(held, scope), p, n, RootsOf(held', scope));
    FramesNodes(view, scope, frames);
    FramesKept(view, w, scope, frames);
  }

  /** Nothing in the pool refers to a node whose one owner is outside. */
  lemma OwnedByHeld(view: seq<Node>, held: multiset<int>, scope: int, p: nat, j: nat)
    requires Counted(view, RootsOf(held, scope)) && p < |view| && j < |view| && CountOf(view[p]) == 1 && p in held
    ensures Shares(view[j], p) == 0
  {
    OwnedHas(view, j, p);
    assert Owned(view, p) + RootsOf(held, scope)[p] == CountAt(view, p);
  }

  /** The list of a value is a value, and not one that only the program owns. */
  lemma ListIsValue(c: Context, v: nat, p: nat)
    requires c.Settled() && v < |c.nodes| && c.nodes[v].Value?
    requires p < |c.nodes| && CountOf(c.nodes[p]) == 1 && p in c.held
    ensures IsValue(c.nodes, ListOf(c.nodes[v])) && ListOf(c.nodes[v]) != p
  {
    SoundAt(c.view, c.rank, v);
    OwnedByHeld(c.view, c.held, c.scope, p, v);
  }

  lemma CopySame(nodes: seq<Node>, nodes': seq<Node>, nodes'': seq<Node>, p: int, n: Node)
    requires 0 <= p < |nodes'| == |nodes''| && Handed(nodes, nodes'[p := Raw], p) && SameValues(nodes', nodes'')
    ensures SameValues(nodes, nodes''[p := n])
  {
    var handed := nodes'[p := Raw];
    assert forall i :: 0 <= i < |nodes'| && i != p ==> handed[i] == nodes'[i];
  }

  /** CopyValue: another value with the same content; a list is shared, not copied. */
  method CopyValue(c: Context, other: int) returns (result: int)
    requires c.Settled() && IsValue(c.nodes, other)
    modifies c`nodes, c`freelist, c`blocks, c`avail, c`view, c`rank, c`clock, c`held, c`frames
    ensures c.Settled() && c.held == old(c.held) + multiset{result} && c.frames == old(c.frames)
    ensures 0 <= result < |c.nodes| && (result < |old(c.nodes)| ==> old(c.nodes)[result].Free?)
    ensures c.nodes[result] == Value(1, if other == NULL then Content.Nil else old(c.nodes)[other].content, NULL)
    ensures SameValues(old(c.nodes), c.nodes)
  {
    hide InOrder, FreeList, FreeExactly, Mirrors, SameValues;
    result := CreateValue(c, Content.Nil);
    if other == NULL {
      HungSame(old(c.nodes), c.nodes, c.nodes, result);
    } else {
      ShareContent(c, result, other, old(c.nodes));
    }
  }

  /** The part of CopyValue for a value there is: its content is taken over and its list retained. */
  method ShareContent(c: Context, result: int, other: int, ghost nodes0: seq<Node>)
    requires c.Settled() && 0 <= result < |c.nodes| && c.nodes[result] == Value(1, Content.Nil, NULL) && result in c.held
    requires 0 <= other < |nodes0| && nodes0[other].Value? && Handed(nodes0, c.nodes[result := Raw], result)
    modifies c`nodes, c`view, c`rank, c`held, c`frames
    ensures c.Settled() && c.held == old(c.held) && c.frames == old(c.frames) && |c.nodes| == |old(c.nodes)|
    ensures c.nodes[result] == Value(1, nodes0[other].content, NULL) && SameValues(nodes0, c.nodes)
  {
    hide InOrder, FreeList, FreeExactly, Mirrors, SameValues;
    ghost var nodes1, held1 := c.nodes, c.held;
    assert c.nodes[other] == nodes0[other] by { assert nodes1[result := Raw][other] == nodes0[other]; }
    var lst := ListOf(c.nodes[other]);
    ListIsValue(c, other, result);
    c.JLRetain(lst);
    Retained(nodes1, c.nodes, lst);
    GivenBack(held1, Ref(lst));
    Copied(c.nodes, c.rank, c.clock, c.held, c.scope, c.frames, result, other);
    CopySame(nodes0, nodes1, c.nodes, result, Value(1, c.nodes[other].content, NULL));
    Store(c, result, Value(1, c.nodes[other].content, NULL), c.rank[result := c.rank[other]], held1, c.frames);
  }
}
