/** The pool of JL (jl-context.c, jl-value.h): nodes shared by values, bindings and scopes, and who refers to whom. */
module JlHeap {
  import opened JlNumber

  const NULL := -1

  /** The union of a JLValue with its tag. */
  datatype Content = Nil | Number(number: Double) | Str(str: string) | Variable(name: string) | List(lst: int) | Special

  /** A node of the pool: handed out and not yet filled in, on the free list, or one of the three things it can hold. */
  datatype Node =
    | Raw
    | Free(link: int)
    | Value(count: nat, content: Content, next: int)
    | Binding(name: string, value: int, left: int, right: int)
    | Scope(owners: nat, bindings: int, outer: int)

  predicate Live(n: Node) {
    n.Value? || n.Binding? || n.Scope?
  }

  // ----- owners -----

  /** A reference, as what it adds to the count of node j. */
  ghost function One(r: int, j: int): nat {
    if r == j && r != NULL then 1 else 0
  }

  /** The shares of node j that n owns. */
  ghost function Shares(n: Node, j: int): nat {
    match n
    case Value(_, content, next) => One(next, j) + if content.List? then One(content.lst, j) else 0
    case Binding(_, value, left, right) => One(value, j) + One(left, j) + One(right, j)
    case Scope(_, bindings, next) => One(bindings, j) + One(next, j)
    case _ => 0
  }

  /** The number of owners the node itself records; a binding has one. */
  ghost function CountOf(n: Node): nat {
    match n
    case Value(count, _, _) => count
    case Binding(_, _, _, _) => 1
    case Scope(count, _, _) => count
    case _ => 0
  }

  ghost function CountAt(view: seq<Node>, i: int): nat {
    if 0 <= i < |view| then CountOf(view[i]) else 0
  }

  /** The references to node j from inside the pool. */
  ghost function Owned(view: seq<Node>, j: int): nat {
    if view == [] then 0 else Owned(view[..|view| - 1], j) + Shares(view[|view| - 1], j)
  }

  /** Each count is the number of references to the node, from the pool and from roots outside it; nothing dangles. */
  ghost predicate Counted(view: seq<Node>, roots: multiset<int>) {
    forall j: int {:trigger Owned(view, j)} :: Owned(view, j) + roots[j] == CountAt(view, j)
  }

  lemma {:induction false} OwnedUpdate(view: seq<Node>, i: nat, n: Node, j: int)
    requires i < |view|
    ensures Owned(view[i := n], j) + Shares(view[i], j) == Owned(view, j) + Shares(n, j)
  {
    hide Shares;
    var k := |view| - 1;
    var w := view[i := n];
    if i == k {
      assert w[..k] == view[..k];
    } else {
      OwnedUpdate(view[..k], i, n, j);
      assert w[..k] == view[..k][i := n];
    }
  }

  lemma {:induction false} OwnedHas(view: seq<Node>, i: nat, j: int)
    requires i < |view|
    ensures Shares(view[i], j) <= Owned(view, j)
  {
    hide Shares;
    var k := |view| - 1;
    if i < k {
      OwnedHas(view[..k], i, j);
    }
  }

  lemma {:induction false} OwnedBy(view: seq<Node>, j: int) returns (i: nat)
    requires Owned(view, j) > 0
    ensures i < |view| && Shares(view[i], j) > 0
  {
    hide Shares;
    var k := |view| - 1;
    if Shares(view[k], j) > 0 {
      i := k;
    } else {
      i := OwnedBy(view[..k], j);
    }
  }

  lemma {:induction false} OwnedGrows(view: seq<Node>, more: seq<Node>, j: int)
    requires forall k :: 0 <= k < |more| ==> !Live(more[k])
    ensures Owned(view + more, j) == Owned(view, j)
  {
    if more == [] {
      assert view + more == view;
    } else {
      var k := |more| - 1;
      OwnedGrows(view, more[..k], j);
      assert (view + more)[..|view + more| - 1] == view + more[..k];
    }
  }

  /** One node changes, and the outside gives and takes accordingly. */
  lemma Move(view: seq<Node>, roots: multiset<int>, i: nat, n: Node, roots': multiset<int>)
    requires Counted(view, roots) && i < |view|
    requires forall j: int {:trigger roots'[j]} ::
      roots'[j] + Shares(n, j) + CountAt(view, j) == roots[j] + Shares(view[i], j) + CountAt(view[i := n], j)
    ensures Counted(view[i := n], roots')
  {
    hide Shares, CountAt, Owned;
    var w := view[i := n];
    forall j: int ensures Owned(w, j) + roots'[j] == CountAt(w, j) {
      OwnedUpdate(view, i, n, j);
      assert Owned(view, j) + roots[j] == CountAt(view, j);
    }
  }

  /** What is referred to is in the pool and has owners. */
  lemma Counts(view: seq<Node>, roots: multiset<int>, r: int)
    requires Counted(view, roots) && r in roots
    ensures 0 <= r < |view| && Live(view[r]) && CountOf(view[r]) > 0
  {
    assert Owned(view, r) + roots[r] == CountAt(view, r);
  }

  /** Nothing refers to a node without owners. */
  lemma NoOwner(view: seq<Node>, roots: multiset<int>, i: nat, j: nat)
    requires Counted(view, roots) && i < |view| && j < |view| && CountOf(view[i]) == 0
    ensures Shares(view[j], i) == 0 && i !in roots
  {
    hide Shares;
    OwnedHas(view, j, i);
    assert Owned(view, i) + roots[i] == CountAt(view, i);
  }

  // ----- kinds and order -----

  ghost predicate IsValue(view: seq<Node>, r: int) {
    r == NULL || (0 <= r < |view| && view[r].Value?)
  }

  ghost predicate IsBinding(view: seq<Node>, r: int) {
    r == NULL || (0 <= r < |view| && view[r].Binding?)
  }

  ghost predicate IsScope(view: seq<Node>, r: int) {
    r == NULL || (0 <= r < |view| && view[r].Scope?)
  }

  ghost predicate Before(rank: seq<int>, a: int, b: int) {
    b == NULL || (0 <= a < |rank| && 0 <= b < |rank| && rank[a] > rank[b])
  }

  /** The references of node i are of the right kind, and no chain of references returns to where it started. */
  ghost predicate FieldsOk(view: seq<Node>, rank: seq<int>, i: nat)
    requires i < |view|
  {
    match view[i]
    case Value(count, content, next) =>
      && count > 0 && IsValue(view, next) && Before(rank, i, next)
      && (content.List? ==> IsValue(view, content.lst) && Before(rank, i, content.lst))
    case Binding(_, value, left, right) =>
      && IsValue(view, value) && IsBinding(view, left) && IsBinding(view, right)
      && Before(rank, i, left) && Before(rank, i, right)
    case Scope(count, bindings, next) =>
      count > 0 && IsBinding(view, bindings) && IsScope(view, next) && (next == NULL || Before(rank, next, i))
    case _ => true
  }

  ghost predicate Sound(view: seq<Node>, rank: seq<int>) {
    |rank| == |view| && forall i :: 0 <= i < |view| ==> FieldsOk(view, rank, i)
  }

  lemma SoundAt(view: seq<Node>, rank: seq<int>, i: nat)
    requires Sound(view, rank) && i < |view|
    ensures FieldsOk(view, rank, i)
  {
  }

  /** A node that stays of its kind, or that nothing refers to, may change if its own fields are in order. */
  lemma SoundMove(view: seq<Node>, rank: seq<int>, roots: multiset<int>, i: nat, n: Node)
    requires i < |view| && Sound(view, rank) && Counted(view, roots)
    requires SameKind(view[i], n) || CountOf(view[i]) == 0
    requires FieldsOk(view[i := n], rank, i)
    ensures Sound(view[i := n], rank)
  {
    hide Owned, Counted;
    var w := view[i := n];
    forall j | 0 <= j < |view| ensures FieldsOk(w, rank, j) {
      assert FieldsOk(view, rank, j);
      if CountOf(view[i]) == 0 {
        NoOwner(view, roots, i, j);
      }
    }
  }

  ghost predicate SameKind(m: Node, n: Node) {
    (m.Value? && n.Value?) || (m.Binding? && n.Binding?) || (m.Scope? && n.Scope?)
  }

  /** A node nothing refers to may die. */
  lemma SoundDrop(view: seq<Node>, rank: seq<int>, roots: multiset<int>, i: nat, n: Node)
    requires i < |view| && Sound(view, rank) && Counted(view[i := Raw], roots) && !Live(n)
    ensures Sound(view[i := n], rank)
  {
    hide Owned, Counted;
    var raw, w := view[i := Raw], view[i := n];
    forall j | 0 <= j < |view| ensures FieldsOk(w, rank, j) {
      assert FieldsOk(view, rank, j);
      if j != i {
        NoOwner(raw, roots, i, j);
      }
    }
  }

  /** A node nothing refers to may take any rank. */
  lemma SoundRank(view: seq<Node>, rank: seq<int>, roots: multiset<int>, i: nat, k: int)
    requires Sound(view, rank) && Counted(view, roots) && i < |view| && !Live(view[i])
    ensures Sound(view, rank[i := k])
  {
    hide Owned, Counted;
    var rank' := rank[i := k];
    forall j | 0 <= j < |view| ensures FieldsOk(view, rank', j) {
      assert FieldsOk(view, rank, j);
      NoOwner(view, roots, i, j);
    }
  }

  lemma SoundGrows(view: seq<Node>, rank: seq<int>, more: seq<Node>, ranks: seq<int>)
    requires Sound(view, rank) && |more| == |ranks|
    requires forall k :: 0 <= k < |more| ==> !Live(more[k])
    ensures Sound(view + more, rank + ranks)
  {
    var w, rank' := view + more, rank + ranks;
    forall j | 0 <= j < |w| ensures FieldsOk(w, rank', j) {
      if j < |view| {
        assert FieldsOk(view, rank, j);
      }
    }
  }

  /** A node is filled in: it is owned once, and takes over what it refers to from the roots. */
  lemma Born(view: seq<Node>, rank: seq<int>, roots: multiset<int>, i: nat, n: Node, k: int, roots': multiset<int>)
    requires i < |view| == |rank| && Sound(view, rank) && Counted(view, roots) && !Live(view[i]) && CountOf(n) == 1
    requires forall j: int {:trigger roots'[j]} :: roots'[j] + Shares(n, j) == roots[j] + if j == i then 1 else 0
    requires FieldsOk(view[i := n], rank[i := k], i)
    ensures Counted(view[i := n], roots') && Sound(view[i := n], rank[i := k])
  {
    hide Counted, Sound, FieldsOk;
    var w := view[i := n];
    forall j: int ensures Shares(view[i], j) == 0 && CountAt(w, j) == CountAt(view, j) + if j == i then 1 else 0 {
    }
    Move(view, roots, i, n, roots');
    SoundRank(view, rank, roots, i, k);
    SoundMove(view, rank[i := k], roots, i, n);
  }

  /** A node changes what it refers to; the roots give and take accordingly. */
  lemma Linked(view: seq<Node>, rank: seq<int>, roots: multiset<int>, i: nat, n: Node, roots': multiset<int>)
    requires i < |view| && Sound(view, rank) && Counted(view, roots) && SameKind(view[i], n) && CountOf(n) == CountOf(view[i])
    requires forall j: int {:trigger roots'[j]} :: roots'[j] + Shares(n, j) == roots[j] + Shares(view[i], j)
    requires FieldsOk(view[i := n], rank, i)
    ensures Counted(view[i := n], roots') && Sound(view[i := n], rank)
  {
    hide Counted, Sound, FieldsOk, Shares;
    var w := view[i := n];
    forall j: int ensures CountAt(w, j) == CountAt(view, j) {
    }
    Move(view, roots, i, n, roots');
    SoundMove(view, rank, roots, i, n);
  }

  /** A node loses its only owner, and what it referred to goes to the roots. */
  lemma Severed(view: seq<Node>, rank: seq<int>, roots: multiset<int>, i: nat, roots': multiset<int>)
    requires i < |view| && Sound(view, rank) && Counted(view, roots) && CountOf(view[i]) == 1
    requires forall j: int {:trigger roots'[j]} :: roots'[j] + (if j == i then 1 else 0) == roots[j] + Shares(view[i], j)
    ensures Counted(view[i := Raw], roots') && Sound(view[i := Raw], rank)
  {
    hide Counted, Sound;
    var w := view[i := Raw];
    forall j: int ensures Shares(Raw, j) == 0 && CountAt(w, j) + (if j == i then 1 else 0) == CountAt(view, j) {
    }
    Move(view, roots, i, Raw, roots');
    SoundDrop(view, rank, roots', i, Raw);
  }

  // ----- no garbage -----

  ghost function LiveSet(view: seq<Node>): set<int> {
    set i | 0 <= i < |view| && Live(view[i])
  }

  /** What can be followed from inside s stays inside s. */
  ghost predicate Closed(view: seq<Node>, s: set<int>) {
    forall i, r {:trigger Shares(view[i], r)} :: i in s && 0 <= i < |view| && Shares(view[i], r) > 0 ==> r in s
  }

  ghost function Kind(n: Node): nat {
    if n.Scope? then 2 else if n.Binding? then 1 else 0
  }

  /** a can own b only if a is above b. */
  ghost predicate Above(view: seq<Node>, rank: seq<int>, a: int, b: int)
    requires 0 <= a < |view| == |rank| && 0 <= b < |view|
  {
    || Kind(view[a]) > Kind(view[b])
    || (Kind(view[a]) == Kind(view[b]) && if view[a].Scope? then rank[a] < rank[b] else rank[a] > rank[b])
  }

  lemma {:induction false} Highest(view: seq<Node>, rank: seq<int>, u: set<int>) returns (m: int)
    requires |view| == |rank| && (exists i :: i in u) && forall i :: i in u ==> 0 <= i < |view|
    ensures m in u && forall i :: i in u ==> !Above(view, rank, i, m)
  {
    var x :| x in u;
    if forall y :: y in u ==> y == x {
      m := x;
    } else {
      var x' :| x' in u && x' != x;
      assert x' in u - {x};
      var y := Highest(view, rank, u - {x});
      m := if Above(view, rank, x, y) then x else y;
      forall i | i in u ensures !Above(view, rank, i, m) {
        assert i == x || i in u - {x};
      }
    }
  }

  /** Whatever is live is found by following references from the roots: nothing is lost. */
  lemma NoGarbage(view: seq<Node>, rank: seq<int>, roots: multiset<int>, s: set<int>)
    requires Counted(view, roots) && Sound(view, rank) && Closed(view, s)
    requires forall r :: r in roots ==> r in s
    ensures LiveSet(view) <= s
  {
    var u := LiveSet(view) - s;
    if u != {} {
      var m := Highest(view, rank, u);
      assert FieldsOk(view, rank, m);
      assert Owned(view, m) + roots[m] == CountAt(view, m);
      assert m !in roots;
      var j := OwnedBy(view, m);
      assert FieldsOk(view, rank, j);
      assert j in LiveSet(view);
      assert Above(view, rank, j, m);
      assert false;
    }
    assert forall i :: i in LiveSet(view) ==> i in u || i in s;
  }

  // ----- the free list -----

  /** Following the links from head visits exactly avail. */
  ghost predicate FreeList(nodes: seq<Node>, head: int, avail: seq<int>)
    decreases avail
  {
    if avail == [] then head == NULL
    else
      && head == avail[0] && 0 <= head < |nodes| && nodes[head].Free? && head !in avail[1..]
      && FreeList(nodes, nodes[head].link, avail[1..])
  }

  lemma {:induction false} FreeListKept(nodes: seq<Node>, nodes': seq<Node>, head: int, avail: seq<int>)
    requires FreeList(nodes, head, avail) && |nodes| <= |nodes'|
    requires forall i :: 0 <= i < |nodes| && i in avail ==> nodes'[i] == nodes[i]
    ensures FreeList(nodes', head, avail)
    decreases avail
  {
    if avail != [] {
      assert head in avail;
      FreeListKept(nodes, nodes', nodes[head].link, avail[1..]);
    }
  }

  ghost predicate FreeExactly(nodes: seq<Node>, avail: seq<int>) {
    forall i :: i in avail <==> 0 <= i < |nodes| && nodes[i].Free?
  }

  /** Taking the first node off. */
  lemma Popped(nodes: seq<Node>, head: int, avail: seq<int>, n: Node)
    requires FreeList(nodes, head, avail) && FreeExactly(nodes, avail) && head != NULL && !n.Free?
    ensures avail != [] && 0 <= head < |nodes| && nodes[head].Free?
    ensures FreeList(nodes[head := n], nodes[head].link, avail[1..]) && FreeExactly(nodes[head := n], avail[1..])
  {
    var rest := avail[1..];
    assert avail == [head] + rest;
    var nodes' := nodes[head := n];
    FreeListKept(nodes, nodes', nodes[head].link, rest);
    forall k: int ensures k in avail <==> k == head || k in rest {
    }
    assert !nodes'[head].Free?;
  }

  /** Putting a node in front. */
  lemma Pushed(nodes: seq<Node>, head: int, avail: seq<int>, i: nat)
    requires FreeList(nodes, head, avail) && FreeExactly(nodes, avail) && i < |nodes| && !nodes[i].Free?
    ensures FreeList(nodes[i := Free(head)], i, [i] + avail) && FreeExactly(nodes[i := Free(head)], [i] + avail)
  {
    var nodes' := nodes[i := Free(head)];
    var avail' := [i] + avail;
    assert i !in avail;
    FreeListKept(nodes, nodes', head, avail);
    assert avail'[1..] == avail && avail'[0] == i && nodes'[i].link == head;
    forall k: int ensures k in avail' <==> k == i || k in avail {
    }
  }

  /** Nodes that are not free may change, and more may come. */
  lemma FreeElsewhere(nodes: seq<Node>, nodes': seq<Node>, head: int, avail: seq<int>)
    requires FreeList(nodes, head, avail) && FreeExactly(nodes, avail) && |nodes| <= |nodes'|
    requires forall i :: 0 <= i < |nodes| ==> nodes'[i] == nodes[i] || (!nodes'[i].Free? && !nodes[i].Free?)
    requires forall i :: |nodes| <= i < |nodes'| ==> !nodes'[i].Free?
    ensures FreeList(nodes', head, avail) && FreeExactly(nodes', avail)
  {
    FreeListKept(nodes, nodes', head, avail);
  }

  lemma {:induction false} FreeListSize(nodes: seq<Node>, head: int, avail: seq<int>)
    requires FreeList(nodes, head, avail)
    ensures |set i | i in avail| == |avail|
    decreases avail
  {
    if avail != [] {
      FreeListSize(nodes, nodes[head].link, avail[1..]);
      assert (set i | i in avail) == (set i | i in avail[1..]) + {head};
    }
  }

  /** Free and live nodes make up the pool. */
  lemma Conservation(nodes: seq<Node>, head: int, avail: seq<int>)
    requires FreeList(nodes, head, avail) && FreeExactly(nodes, avail) && Raw !in nodes
    ensures |avail| + |LiveSet(nodes)| == |nodes|
  {
    FreeListSize(nodes, head, avail);
    var f := set i | i in avail;
    assert f + LiveSet(nodes) == Below(|nodes|);
  }

  ghost function Below(n: nat): (s: set<int>)
    ensures |s| == n && forall i :: i in s <==> 0 <= i < n
  {
    if n == 0 then {} else Below(n - 1) + {n - 1}
  }
}
