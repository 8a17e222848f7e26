/** A JL context (jl-context.c, jl-scope.c, jl-value.c and the counting part of jl.c). */
module JlContext {
  import opened JlHeap
  import opened JlScope

  const BLOCK_SIZE: nat := 8192

  ghost function Ref(r: int): multiset<int> {
    if r == NULL then multiset{} else multiset{r}
  }

  lemma RefAt(r: int, j: int)
    ensures Ref(r)[j] == One(r, j)
  {
  }

  ghost function RootsOf(held: multiset<int>, scope: int): multiset<int> {
    held + Ref(scope)
  }

  /** The counts are right, the references are in order, and the scopes are frames. */
  ghost predicate InOrder(view: seq<Node>, rank: seq<int>, clock: int, held: multiset<int>, scope: int, frames: seq<Frame>) {
    && Counted(view, RootsOf(held, scope)) && Sound(view, rank)
    && (forall i :: 0 <= i < |rank| ==> clock <= rank[i])
    && FramesShow(view, scope, frames)
  }

  /** Memory is as the view says, but for nodes being taken apart and a binding about to be overwritten. */
  ghost predicate Mirrors(nodes: seq<Node>, view: seq<Node>) {
    |nodes| == |view| && forall i :: 0 <= i < |view| ==> Mirrored(nodes[i], view[i])
  }

  ghost predicate Mirrored(m: Node, n: Node) {
    || m == n
    || (n.Raw? && !m.Free?)
    || (m.Binding? && n.Binding? && m == n.(value := m.value))
  }

  lemma MirrorsMove(nodes: seq<Node>, view: seq<Node>, v: nat, m: Node, n: Node)
    requires Mirrors(nodes, view) && v < |view| && Mirrored(m, n)
    ensures Mirrors(nodes[v := m], view[v := n])
  {
  }

  /** One node was handed out; the rest is as before, or new and free. */
  ghost predicate Handed(before: seq<Node>, after: seq<Node>, p: int) {
    && |before| <= |after| && 0 <= p < |after| && after[p] == Raw
    && (p < |before| ==> before[p].Free?)
    && forall i :: 0 <= i < |after| && i != p ==> if i < |before| then after[i] == before[i] else after[i].Free?
  }

  /** A node nobody refers to is put on the free list or taken from it. */
  lemma Recycled(view: seq<Node>, rank: seq<int>, clock: int, held: multiset<int>, scope: int, frames: seq<Frame>, i: nat, n: Node)
    requires InOrder(view, rank, clock, held, scope, frames)
    requires i < |view| && !Live(view[i]) && !Live(n)
    ensures InOrder(view[i := n], rank, clock, held, scope, frames)
  {
    hide Counted, Sound, FramesShow;
    var w := view[i := n];
    forall j: int ensures Shares(n, j) == Shares(view[i], j) == 0 && CountAt(w, j) == CountAt(view, j) {
    }
    Move(view, RootsOf(held, scope), i, n, RootsOf(held, scope));
    SoundMove(view, rank, RootsOf(held, scope), i, n);
    FramesNodes(view, scope, frames);
    FramesKept(view, view[i := n], scope, frames);
  }

  /** The pool grows. */
  lemma Grown(view: seq<Node>, rank: seq<int>, clock: int, held: multiset<int>, scope: int, frames: seq<Frame>, more: seq<Node>, ranks: seq<int>)
    requires InOrder(view, rank, clock, held, scope, frames) && |more| == |ranks|
    requires forall k :: 0 <= k < |more| ==> more[k] == Raw
    requires forall k :: 0 <= k < |ranks| ==> ranks[k] == clock
    ensures InOrder(view + more, rank + ranks, clock, held, scope, frames)
  {
    hide Sound, FramesShow;
    SoundGrows(view, rank, more, ranks);
    FramesNodes(view, scope, frames);
    FramesKept(view, view + more, scope, frames);
    var roots := RootsOf(held, scope);
    forall j: int ensures Owned(view + more, j) + roots[j] == CountAt(view + more, j) {
      OwnedGrows(view, more, j);
      assert Owned(view, j) + roots[j] == CountAt(view, j);
    }
  }

  /** A value gains an owner outside the pool, or loses one and keeps another. */
  lemma Recounted(view: seq<Node>, rank: seq<int>, clock: int, held: multiset<int>, scope: int, frames: seq<Frame>, v: nat, n: Node, held': multiset<int>)
    requires InOrder(view, rank, clock, held, scope, frames)
    requires v < |view| && view[v].Value? && n.Value? && n == view[v].(count := n.count) && n.count > 0
    requires || (held' + multiset{v} == held && n.count + 1 == view[v].count)
             || (held' == held + multiset{v} && n.count == view[v].count + 1)
    ensures InOrder(view[v := n], rank, clock, held', scope, frames)
  {
    hide Counted, Sound, FramesShow;
    var w := view[v := n];
    forall j: int ensures Shares(n, j) == Shares(view[v], j) {
    }
    Move(view, RootsOf(held, scope), v, n, RootsOf(held', scope));
    assert FieldsOk(w, rank, v) by { SoundAt(view, rank, v); }
    SoundMove(view, rank, RootsOf(held, scope), v, n);
    FramesNodes(view, scope, frames);
    FramesKept(view, w, scope, frames);
  }

  /** The value's list, if it has one. */
  function ListOf(n: Node): int
    requires n.Value?
  {
    if n.content.List? then n.content.lst else NULL
  }

  /** A value loses its last owner: what it owned is for the outside to release. */
  lemma Died(view: seq<Node>, rank: seq<int>, clock: int, held: multiset<int>, scope: int, frames: seq<Frame>, v: nat)
    requires InOrder(view, rank, clock, held, scope, frames)
    requires v < |view| && view[v].Value? && view[v].count == 1 && v in held
    ensures var held' := held - multiset{v} + Ref(view[v].next) + Ref(ListOf(view[v]));
      InOrder(view[v := Raw], rank, clock, held', scope, frames)
    ensures IsValue(view[v := Raw], view[v].next) && IsValue(view[v := Raw], ListOf(view[v]))
  {
    hide Counted, Sound, FramesShow, RootsOf;
    var w := view[v := Raw];
    var held' := held - multiset{v} + Ref(view[v].next) + Ref(ListOf(view[v]));
    RootsGive(held, held', scope);
    Severed(view, rank, RootsOf(held, scope), v, RootsOf(held', scope));
    SoundAt(view, rank, v);
    FramesNodes(view, scope, frames);
    FramesKept(view, w, scope, frames);
  }

  lemma RootsGive(held: multiset<int>, held': multiset<int>, scope: int)
    ensures forall j: int {:trigger RootsOf(held', scope)[j]} :: RootsOf(held', scope)[j] - held'[j] == RootsOf(held, scope)[j] - held[j]
  {
  }

  // ----- what releasing does to the pool -----

  /** A node as it was, a value that lost owners, or one that is free. */
  ghost predicate Less(n: Node, n': Node) {
    n == n' || (n.Value? && (n'.Free? || (n'.Value? && n'.count <= n.count && n' == n.(count := n'.count))))
  }

  /** Releasing touched values inside s only. */
  ghost predicate Released(view: seq<Node>, view': seq<Node>, s: set<int>) {
    |view'| == |view| && forall i :: 0 <= i < |view| ==> Less(view[i], view'[i]) && (i !in s ==> view'[i] == view[i])
  }

  /** Memory changed exactly where the view did. */
  ghost predicate Followed(nodes: seq<Node>, view: seq<Node>, nodes': seq<Node>, view': seq<Node>)
    requires |nodes| == |view|
  {
    && |view'| == |view| == |nodes'|
    && forall i :: 0 <= i < |view| ==> nodes'[i] == if view'[i] == view[i] then nodes[i] else view'[i]
  }

  lemma ReleasedLess(view: seq<Node>, view': seq<Node>, s: set<int>)
    requires Released(view, view', s)
    ensures LiveSet(view') <= LiveSet(view) && |LiveSet(view')| <= |LiveSet(view)|
    ensures Closed(view, s) ==> Closed(view', s)
  {
    SubsetSize(LiveSet(view'), LiveSet(view));
    forall i, r {:trigger Shares(view'[i], r)} | Closed(view, s) && i in s && 0 <= i < |view'| && Shares(view'[i], r) > 0 ensures r in s {
      assert Shares(view[i], r) == Shares(view'[i], r);
    }
  }

  lemma ReleasedTwice(nodes: seq<Node>, view: seq<Node>, nodes': seq<Node>, view': seq<Node>, nodes'': seq<Node>, view'': seq<Node>, s: set<int>)
    requires |nodes| == |view| && |nodes'| == |view'|
    requires Released(view, view', s) && Followed(nodes, view, nodes', view')
    requires Released(view', view'', s) && Followed(nodes', view', nodes'', view'')
    ensures Released(view, view'', s) && Followed(nodes, view, nodes'', view'')
  {
  }

  /** A value taken apart: its owners gone first, then what it owned, then the node itself. */
  lemma TakenApart(nodes: seq<Node>, view: seq<Node>, v: nat, nodes': seq<Node>, view': seq<Node>, link: int, s: set<int>)
    requires |nodes| == |view| && v < |view| && view[v].Value? && v in s && nodes[v] == view[v]
    requires Released(view[v := Raw], view', s)
    requires Followed(nodes[v := view[v].(count := 0)], view[v := Raw], nodes', view')
    ensures v < |view'| == |nodes'| && view'[v] == Raw && nodes'[v] == view[v].(count := 0)
    ensures Released(view, view'[v := Free(link)], s)
    ensures Followed(nodes, view, nodes'[v := Free(link)], view'[v := Free(link)])
    ensures |LiveSet(view'[v := Free(link)])| < |LiveSet(view)|
  {
    var raw, freed := view[v := Raw], view'[v := Free(link)];
    assert raw[v] == view'[v];
    DiedLess(view, v, s);
    ReleasedLess(raw, view', s);
    assert LiveSet(freed) == LiveSet(view');
  }

  lemma NoneReleased(nodes: seq<Node>, view: seq<Node>, s: set<int>)
    requires |nodes| == |view|
    ensures Released(view, view, s) && Followed(nodes, view, nodes, view)
  {
  }

  lemma GivenBack(a: multiset<int>, b: multiset<int>)
    ensures a + b - b == a && b <= a + b
    ensures a + Ref(NULL) == a && a - Ref(NULL) == a && Ref(NULL) <= a
  {
  }

  lemma CountedDown(nodes: seq<Node>, view: seq<Node>, v: nat, n: Node, s: set<int>)
    requires |nodes| == |view| && v < |view| && view[v].Value? && v in s && Less(view[v], n) && n != view[v]
    ensures Released(view, view[v := n], s) && Followed(nodes, view, nodes[v := n], view[v := n])
  {
  }

  /** What a member of a closed set owns is in the set. */
  lemma InsideToo(view: seq<Node>, s: set<int>, v: nat)
    requires Closed(view, s) && v in s && v < |view| && view[v].Value?
    ensures view[v].next != NULL ==> view[v].next in s
    ensures ListOf(view[v]) != NULL ==> ListOf(view[v]) in s
  {
    assert view[v].next != NULL ==> Shares(view[v], view[v].next) > 0;
    assert ListOf(view[v]) != NULL ==> Shares(view[v], ListOf(view[v])) > 0;
  }

  /** A value the outside still owns survives. */
  lemma StillValue(view: seq<Node>, rank: seq<int>, clock: int, held: multiset<int>, scope: int, frames: seq<Frame>, view0: seq<Node>, s: set<int>, r: int)
    requires InOrder(view, rank, clock, held, scope, frames) && Released(view0, view, s)
    requires IsValue(view0, r) && Ref(r) <= held
    ensures IsValue(view, r)
  {
    if r != NULL {
      assert Ref(r)[r] == 1;
      Counts(view, RootsOf(held, scope), r);
      assert Less(view0[r], view[r]);
    }
  }

  lemma {:induction false} SubsetSize(a: set<int>, b: set<int>)
    requires a <= b
    ensures |a| <= |b|
  {
    assert b == a + (b - a);
  }

  /** A value without owners leaves the live nodes. */
  lemma DiedLess(view: seq<Node>, v: nat, s: set<int>)
    requires v < |view| && Live(view[v])
    ensures |LiveSet(view[v := Raw])| < |LiveSet(view)|
    ensures Closed(view, s) ==> Closed(view[v := Raw], s)
  {
    var w := view[v := Raw];
    assert LiveSet(w) == LiveSet(view) - {v};
    forall i, r {:trigger Shares(w[i], r)} | Closed(view, s) && i in s && 0 <= i < |w| && Shares(w[i], r) > 0 ensures r in s {
      assert Shares(view[i], r) == Shares(w[i], r);
    }
  }

  class Context {
    var nodes: seq<Node>
    var freelist: int
    var blocks: nat
    var scope: int
    var error: bool

    /** The free list from its head on. */
    ghost var avail: seq<int>
    /** The nodes as their owners see them: one being taken apart is nobody's. */
    ghost var view: seq<Node>
    /** The references the program outside the pool owns, besides the one to the current scope. */
    ghost var held: multiset<int>
    ghost var frames: seq<Frame>
    /** An order of the nodes against which references only go down. */
    ghost var rank: seq<int>
    ghost var clock: int

    ghost predicate Valid()
      reads this
    {
      && |nodes| == BLOCK_SIZE * blocks && Mirrors(nodes, view) && |rank| == |view|
      && FreeList(nodes, freelist, avail) && FreeExactly(nodes, avail)
      && InOrder(view, rank, clock, held, scope, frames)
    }

    /** Nothing is half done. */
    ghost predicate Settled()
      reads this
    {
      Valid() && view == nodes && Raw !in nodes
    }

    constructor ()
      ensures Settled() && frames == [] && held == multiset{} && scope == NULL && nodes == [] && !error
    {
      nodes, freelist, blocks, scope, error := [], NULL, 0, NULL, false;
      avail, view, held, frames, rank, clock := [], [], multiset{}, [], [], 0;
    }

    method PutFree(value: int)
      requires Valid() && 0 <= value < |view| && view[value] == Raw
      modifies this`nodes, this`freelist, this`avail, this`view
      ensures Valid()
      ensures nodes == old(nodes)[value := Free(old(freelist))] && view == old(view)[value := nodes[value]]
      ensures freelist == value && avail == [value] + old(avail)
    {
      hide InOrder, FreeList, FreeExactly;
      var temp := Free(freelist);
      Pushed(nodes, freelist, avail, value);
      nodes := nodes[value := temp];
      freelist := value;
      view := view[value := temp];
      avail := [value] + avail;
      Recycled(old(view), rank, clock, held, scope, frames, value, temp);
    }

    method GetFree() returns (node: int)
      requires Valid()
      modifies this`nodes, this`freelist, this`blocks, this`avail, this`view, this`rank
      ensures Valid()
      ensures Handed(old(nodes), nodes, node) && Handed(old(view), view, node)
      ensures forall i :: 0 <= i < |old(rank)| ==> rank[i] == old(rank)[i]
    {
      hide InOrder, FreeList, FreeExactly;
      ghost var nodes0, view0, rank0 := nodes, view, rank;
      if freelist == NULL {
        node := |nodes|;
        blocks := blocks + 1;
        ghost var c := clock;
        ghost var ranks := seq(BLOCK_SIZE, _ => c);
        var block := seq(BLOCK_SIZE, _ => Raw);
        nodes := nodes + block;
        view := view + block;
        rank := rank + ranks;
        FreeElsewhere(nodes0, nodes, freelist, avail);
        Grown(view0, rank0, clock, held, scope, frames, block, ranks);
        var i := 1;
        while i < BLOCK_SIZE
          invariant 1 <= i <= BLOCK_SIZE && node == |nodes0| && |nodes| == node + BLOCK_SIZE
          invariant Valid() && scope == old(scope) && held == old(held) && frames == old(frames) && clock == old(clock)
          invariant blocks == old(blocks) + 1 && rank == rank0 + ranks
          invariant nodes[..node] == nodes0 && view[..node] == view0
          invariant nodes[node] == Raw && view[node] == Raw
          invariant forall k :: node < k < node + i ==> nodes[k].Free? && view[k] == nodes[k]
          invariant forall k :: node + i <= k < |nodes| ==> nodes[k] == Raw && view[k] == Raw
        {
          PutFree(node + i);
          i := i + 1;
        }
      } else {
        node := freelist;
        Popped(nodes, node, avail, Raw);
        freelist := nodes[node].link;
        nodes := nodes[node := Raw];
        avail := avail[1..];
        view := view[node := Raw];
        Recycled(view0, rank, clock, held, scope, frames, node, Raw);
      }
    }

    method JLRetain(value: int)
      requires Valid() && IsValue(view, value)
      modifies this`nodes, this`view, this`held
      ensures Valid() && held == old(held) + Ref(value)
      ensures value == NULL ==> nodes == old(nodes) && view == old(view)
      ensures value != NULL ==> view == old(view)[value := old(view)[value].(count := old(view)[value].count + 1)]
      ensures value != NULL ==> nodes == old(nodes)[value := view[value]]
    {
      hide InOrder, FreeList, FreeExactly;
      if value != NULL {
        var n := nodes[value].(count := nodes[value].count + 1);
        nodes := nodes[value := n];
        view := view[value := n];
        held := held + multiset{value};
        Recounted(old(view), rank, clock, old(held), scope, frames, value, n, held);
        FreeElsewhere(old(nodes), nodes, freelist, avail);
      }
    }

    /** Gives up one reference; s is any set of nodes that holds what can be reached from it. */
    method JLRelease(v: int, ghost s: set<int>)
      requires Valid() && IsValue(view, v) && Ref(v) <= held
      requires Closed(view, s) && (v != NULL ==> v in s)
      modifies this`nodes, this`freelist, this`avail, this`view, this`held
      ensures Valid() && held == old(held) - Ref(v)
      ensures Released(old(view), view, s) && Followed(old(nodes), old(view), nodes, view)
      decreases |LiveSet(view)|, 1
    {
      hide InOrder, Closed, IsValue, FreeList, FreeExactly, Released, Followed, LiveSet;
      var value := v;
      NoneReleased(nodes, view, s);
      while value != NULL
        invariant Valid() && IsValue(view, value) && (value != NULL ==> value in s) && Closed(view, s)
        invariant Ref(value) <= held && held == old(held) - Ref(v) + Ref(value)
        invariant Released(old(view), view, s) && Followed(old(nodes), old(view), nodes, view)
        invariant |LiveSet(view)| <= |LiveSet(old(view))|
        decreases if value == NULL then 0 else 1 + |LiveSet(view)|
      {
        ghost var nodes0, view0 := nodes, view;
        assert view[value].Value? by { IsAValue(value); }
        value := Unshare(value, s);
        ReleasedTwice(old(nodes), old(view), nodes0, view0, nodes, view, s);
        ReleasedLess(old(view), view, s);
      }
    }

    lemma IsAValue(value: int)
      requires IsValue(view, value) && value != NULL
      ensures 0 <= value < |view| && view[value].Value?
    {
    }

    /** One turn of JLRelease's loop: value loses an owner, and with the last one its place; what is to be released next. */
    method Unshare(value: int, ghost s: set<int>) returns (next: int)
      requires Valid() && 0 <= value < |view| == |nodes| && view[value].Value? && value in held
      requires Closed(view, s) && value in s
      modifies this`nodes, this`freelist, this`avail, this`view, this`held
      ensures Valid() && IsValue(view, next)
      ensures Ref(next) <= held && held == old(held) - multiset{value} + Ref(next)
      ensures next != NULL ==> next in s && |LiveSet(view)| < |LiveSet(old(view))|
      ensures Released(old(view), view, s) && Followed(old(nodes), old(view), nodes, view)
      decreases |LiveSet(view)|, 0
    {
      hide InOrder, Closed, FreeList, FreeExactly, Released, Followed, Ref, IsValue, Mirrors, LiveSet;
      ghost var nodes0, view0, held0 := nodes, view, held;
      var node := nodes[value];
      assert node == view[value] && node.count > 0 by { InHeld(value); }
      var fewer := node.(count := node.count - 1);
      nodes := nodes[value := fewer];
      FreeElsewhere(nodes0, nodes, freelist, avail);
      if fewer.count == 0 {
        MirrorsMove(nodes0, view0, value, fewer, Raw);
        view := view[value := Raw];
        held := held - multiset{value} + Ref(node.next) + Ref(ListOf(node));
        Died(view0, rank, clock, held0, scope, frames, value);
        DiedLess(view0, value, s);
        InsideToo(view0, s, value);
        next := TakeApart(value, s, held0 - multiset{value}, nodes0, view0);
      } else {
        MirrorsMove(nodes0, view0, value, fewer, fewer);
        Recounted(view0, rank, clock, held0, scope, frames, value, fewer, held0 - multiset{value});
        CountedDown(nodes0, view0, value, fewer, s);
        next := StillOwned(value, fewer);
      }
    }

    /** The part of JLRelease for a value that keeps an owner: there is no more to do. */
    method StillOwned(value: int, ghost fewer: Node) returns (next: int)
      requires 0 <= value < |view| && InOrder(view[value := fewer], rank, clock, held - multiset{value}, scope, frames)
      requires |nodes| == BLOCK_SIZE * blocks && Mirrors(nodes, view[value := fewer]) && |rank| == |view|
      requires FreeList(nodes, freelist, avail) && FreeExactly(nodes, avail)
      modifies this`view, this`held
      ensures next == NULL && Valid() && view == old(view)[value := fewer]
      ensures held == old(held) - multiset{value} + Ref(next) && Ref(next) <= held && IsValue(view, next)
    {
      hide InOrder, FreeList, FreeExactly, Mirrors;
      next := NULL;
      view := view[value := fewer];
      held := held - multiset{value};
      GivenBack(held, Ref(next));
    }

    /** The part of JLRelease for a value without owners: what it owned is released and the node returned. */
    method TakeApart(value: int, ghost s: set<int>, ghost rest: multiset<int>, ghost nodes0: seq<Node>, ghost view0: seq<Node>)
      returns (next: int)
      requires Valid() && |nodes0| == |view0| && 0 <= value < |view0| && view0[value].Value? && nodes0[value] == view0[value]
      requires view == view0[value := Raw] && nodes == nodes0[value := view0[value].(count := 0)]
      requires IsValue(view, nodes[value].next) && IsValue(view, ListOf(nodes[value]))
      requires held == rest + Ref(nodes[value].next) + Ref(ListOf(nodes[value]))
      requires Closed(view, s) && value in s && (nodes[value].next != NULL ==> nodes[value].next in s)
      requires ListOf(nodes[value]) != NULL ==> ListOf(nodes[value]) in s
      requires |LiveSet(view)| < |LiveSet(view0)|
      modifies this`nodes, this`freelist, this`avail, this`view, this`held
      ensures Valid() && IsValue(view, next) && next == view0[value].next
      ensures Ref(next) <= held && held == rest + Ref(next)
      ensures |LiveSet(view)| < |LiveSet(view0)|
      ensures Released(view0, view, s) && Followed(nodes0, view0, nodes, view)
      decreases |LiveSet(view)|, 2
    {
      hide InOrder, Closed, FreeList, FreeExactly, Released, Followed, Ref, Mirrors, LiveSet;
      var node := nodes[value];
      next := node.next;
      ghost var view1 := view;
      NoneReleased(nodes, view, s);
      GivenBack(rest + Ref(next), Ref(ListOf(node)));
      GivenBack(rest, Ref(next));
      if node.content.List? {
        JLRelease(node.content.lst, s);
      }
      TakenApart(nodes0, view0, value, nodes, view, freelist, s);
      StillValue(view, rank, clock, held, scope, frames, view1, s, next);
      PutFree(value);
    }

    lemma InHeld(value: int)
      requires Valid() && value in held
      ensures 0 <= value < |view| && CountOf(view[value]) > 0 && Mirrored(nodes[value], view[value])
    {
      assert value in RootsOf(held, scope);
      Counts(view, RootsOf(held, scope), value);
    }
  }
}
