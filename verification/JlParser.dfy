/** The reader of jl.c on the pool: the values it builds, the references it holds, and what is left after an error. */
module JlParser {
  import opened JlHeap
  import opened JlScope
  import opened JlContext
  import opened JlBindings
  import opened JlNumber
  import opened JlReader

  // ----- values that stand for expressions -----

  /** The values chained from p up to end stand for items, and lie in a. */
  ghost predicate Rep(nodes: seq<Node>, p: int, items: seq<Sexp>, end: int, a: set<int>)
    decreases items
  {
    if items == [] then p == end
    else
      && p in a && 0 <= p < |nodes| && nodes[p].Value?
      && Stands(nodes, nodes[p].content, items[0], a) && Rep(nodes, nodes[p].next, items[1..], end, a)
  }

  ghost predicate Stands(nodes: seq<Node>, content: Content, e: Sexp, a: set<int>)
    decreases e
  {
    match e
    case Num(x) => content == Number(x)
    case Text(str) => content == Str(str)
    case Sym(name) => content == Variable(name)
    case Seq(items) => content.List? && Rep(nodes, content.lst, items, NULL, a)
  }

  lemma {:induction false} RepKept(nodes: seq<Node>, nodes': seq<Node>, p: int, items: seq<Sexp>, end: int, a: set<int>, a': set<int>)
    requires Rep(nodes, p, items, end, a) && a <= a' && |nodes| <= |nodes'|
    requires forall i :: 0 <= i < |nodes| && i in a ==> nodes'[i] == nodes[i]
    ensures Rep(nodes', p, items, end, a')
    decreases items
  {
    if items != [] {
      StandsKept(nodes, nodes', nodes[p].content, items[0], a, a');
      RepKept(nodes, nodes', nodes[p].next, items[1..], end, a, a');
    }
  }

  lemma {:induction false} StandsKept(nodes: seq<Node>, nodes': seq<Node>, content: Content, e: Sexp, a: set<int>, a': set<int>)
    requires Stands(nodes, content, e, a) && a <= a' && |nodes| <= |nodes'|
    requires forall i :: 0 <= i < |nodes| && i in a ==> nodes'[i] == nodes[i]
    ensures Stands(nodes', content, e, a')
    decreases e
  {
    if e.Seq? {
      RepKept(nodes, nodes', content.lst, e.items, NULL, a, a');
    }
  }

  lemma {:induction false} RepAppend(nodes: seq<Node>, p: int, front: seq<Sexp>, last: int, x: Sexp, a: set<int>)
    requires Rep(nodes, p, front, last, a) && last in a && 0 <= last < |nodes| && nodes[last].Value?
    requires Stands(nodes, nodes[last].content, x, a)
    ensures Rep(nodes, p, front + [x], nodes[last].next, a)
    decreases front
  {
    if front != [] {
      RepAppend(nodes, nodes[p].next, front[1..], last, x, a);
      assert (front + [x])[1..] == front[1..] + [x];
    }
  }

  // ----- what reading leaves alone -----

  ghost function NewSet(before: seq<Node>, after: seq<Node>): set<int> {
    LiveSet(after) - LiveSet(before)
  }

  /** Old live nodes are as they were; new ones refer to new ones and come after them in the order. */
  ghost predicate Grew(nodes: seq<Node>, rank: seq<int>, clock: int, nodes': seq<Node>, rank': seq<int>, clock': int) {
    && Kept(nodes, nodes') && |rank| == |nodes| && |rank'| == |nodes'| && clock' <= clock
    && (forall i :: i in LiveSet(nodes) ==> rank'[i] == rank[i])
    && (forall i :: i in NewSet(nodes, nodes') ==> rank'[i] < clock)
    && Closed(nodes', NewSet(nodes, nodes'))
  }

  lemma GrewNot(nodes: seq<Node>, rank: seq<int>, clock: int)
    requires |rank| == |nodes|
    ensures Grew(nodes, rank, clock, nodes, rank, clock)
  {
  }

  lemma GrewTwice(nodes: seq<Node>, rank: seq<int>, clock: int, nodes': seq<Node>, rank': seq<int>, clock': int, nodes'': seq<Node>, rank'': seq<int>, clock'': int)
    requires Grew(nodes, rank, clock, nodes', rank', clock') && Grew(nodes', rank', clock', nodes'', rank'', clock'')
    ensures Grew(nodes, rank, clock, nodes'', rank'', clock'')
    ensures NewSet(nodes, nodes'') == NewSet(nodes, nodes') + NewSet(nodes', nodes'')
  {
    KeptLive(nodes, nodes');
    KeptLive(nodes', nodes'');
    var born1, born2 := NewSet(nodes, nodes'), NewSet(nodes', nodes'');
    assert NewSet(nodes, nodes'') == born1 + born2;
    forall i, r {:trigger Shares(nodes''[i], r)} | i in born1 + born2 && 0 <= i < |nodes''| && Shares(nodes''[i], r) > 0
      ensures r in born1 + born2
    {
      if i in born1 {
        assert Shares(nodes'[i], r) > 0;
      }
    }
  }

  lemma KeptLive(nodes: seq<Node>, nodes': seq<Node>)
    requires Kept(nodes, nodes')
    ensures LiveSet(nodes) <= LiveSet(nodes')
  {
  }

  /** CreateValue on a settled context. */
  lemma CreatedGrew(nodes: seq<Node>, rank: seq<int>, clock: int, nodes': seq<Node>, rank': seq<int>, clock': int, p: int)
    requires |rank| == |nodes| && |rank'| == |nodes'| && clock' == clock - 1 && 0 <= p < |nodes'| && rank'[p] == clock'
    requires Handed(nodes, nodes'[p := Raw], p) && forall i :: 0 <= i < |nodes| && i != p ==> rank'[i] == rank[i]
    requires nodes'[p].Value? && nodes'[p].next == NULL && (nodes'[p].content.List? ==> nodes'[p].content.lst == NULL)
    ensures Grew(nodes, rank, clock, nodes', rank', clock') && NewSet(nodes, nodes') == {p}
  {
    var handed := nodes'[p := Raw];
    assert forall i :: 0 <= i < |nodes'| && i != p ==> handed[i] == nodes'[i];
    assert forall r :: Shares(nodes'[p], r) == 0;
    assert NewSet(nodes, nodes') == {p};
  }

  /** What reading got, and the value that stands for it; nothing is said of a reader that has gone astray. */
  ghost predicate Parsed(nodes: seq<Node>, nodes': seq<Node>, value: int, got: Got) {
    if got.Astray? then true
    else if got.Nothing? then value == NULL && LiveSet(nodes') == LiveSet(nodes)
    else
      && value in NewSet(nodes, nodes') && nodes'[value].Value? && nodes'[value].count == 1 && nodes'[value].next == NULL
      && Stands(nodes', nodes'[value].content, got.sexp, NewSet(nodes, nodes') - {value})
  }

  lemma AnyAstray(nodes: seq<Node>, nodes': seq<Node>)
    ensures Parsed(nodes, nodes', NULL, Got.Astray)
  {
  }

  // ----- literals -----

  /** A value without a list gets another content without a list. */
  lemma Relabelled(view: seq<Node>, rank: seq<int>, clock: int, held: multiset<int>, scope: int, frames: seq<Frame>, v: nat, n: Node)
    requires InOrder(view, rank, clock, held, scope, frames) && v < |view|
    requires view[v].Value? && n.Value? && n == view[v].(content := n.content) && !view[v].content.List? && !n.content.List?
    ensures InOrder(view[v := n], rank, clock, held, scope, frames)
  {
    hide Counted, Sound, FramesShow;
    SoundAt(view, rank, v);
    forall j: int ensures Shares(n, j) == Shares(view[v], j) {
    }
    Linked(view, rank, RootsOf(held, scope), v, n, RootsOf(held, scope));
    FramesNodes(view, scope, frames);
    FramesKept(view, view[v := n], scope, frames);
  }

  /** A new node may be changed while it refers to new nodes only. */
  lemma GrewStore(nodes: seq<Node>, rank: seq<int>, clock: int, nodes': seq<Node>, rank': seq<int>, clock': int, at: int, n: Node)
    requires Grew(nodes, rank, clock, nodes', rank', clock') && at in NewSet(nodes, nodes') && 0 <= at < |nodes'| && Live(n)
    requires forall r :: Shares(n, r) > 0 ==> r in NewSet(nodes, nodes')
    ensures Grew(nodes, rank, clock, nodes'[at := n], rank', clock')
    ensures LiveSet(nodes'[at := n]) == LiveSet(nodes') && NewSet(nodes, nodes'[at := n]) == NewSet(nodes, nodes')
  {
    var w := nodes'[at := n];
    assert LiveSet(w) == LiveSet(nodes');
    forall i, r {:trigger Shares(w[i], r)} | i in NewSet(nodes, w) && 0 <= i < |w| && Shares(w[i], r) > 0
      ensures r in NewSet(nodes, w)
    {
      if i != at {
        assert Shares(nodes'[i], r) > 0;
      }
    }
  }

  /** ParseLiteral: a string, a number or a variable. */
  method ParseLiteral(c: Context, lib: Arith, line: string) returns (result: int, rest: string)
    requires c.Settled() && line != [] && !Separator(line[0])
    modifies c`nodes, c`freelist, c`blocks, c`avail, c`view, c`rank, c`clock, c`held, c`frames
    ensures c.Settled() && c.held == old(c.held) + Ref(result) && c.frames == old(c.frames)
    ensures ReadExpr(lib, line) == Read(ReadExpr(lib, line).got, rest, false) && ReadExpr(lib, line).got.Got?
    ensures Grew(old(c.nodes), old(c.rank), old(c.clock), c.nodes, c.rank, c.clock)
    ensures Parsed(old(c.nodes), c.nodes, result, ReadExpr(lib, line).got) && result != NULL
  {
    hide InOrder, FreeList, FreeExactly, Mirrors, Grew, Handed, LiveSet, NewSet, IsValue;
    result := CreateValue(c, Content.Nil);
    ghost var nodes1, rank1 := c.nodes, c.rank;
    CreatedGrew(old(c.nodes), old(c.rank), old(c.clock), nodes1, rank1, c.clock, result);
    OwnRef(result);
    assert Skip(line) == line && !PastEnd(line);
    var content;
    if line[0] == '\"' {
      var str;
      str, rest := StringBody(line[1..]);
      content := Str(str);
    } else {
      var len := Token(line);
      content := match lib.strtod(line[..len]) case Some(x) => Number(x) case None => Variable(line[..len]);
      rest := line[len..];
    }
    var node := Value(1, content, NULL);
    Relabelled(c.nodes, c.rank, c.clock, c.held, c.scope, c.frames, result, node);
    Store(c, result, node, c.rank, c.held, c.frames);
    GrewStore(old(c.nodes), old(c.rank), old(c.clock), nodes1, rank1, c.clock, result, node);
  }

  // ----- lists -----

  /** A list under construction: done is read, last its last value, first its first. */
  ghost predicate Building(nodes: seq<Node>, nodes': seq<Node>, result: int, last: int, done: seq<Sexp>) {
    var born := NewSet(nodes, nodes');
    && result in born && 0 <= result < |nodes'| && nodes'[result].Value? && nodes'[result].content.List?
    && nodes'[result] == Value(1, List(nodes'[result].content.lst), NULL)
    && (done == [] ==> nodes'[result].content.lst == NULL && last == NULL)
    && (done != [] ==>
          && last in born && last != result && 0 <= last < |nodes'| && nodes'[last].Value? && nodes'[last].next == NULL
          && Stands(nodes', nodes'[last].content, done[|done| - 1], born - {result, last})
          && Rep(nodes', nodes'[result].content.lst, done[..|done| - 1], last, born - {result, last}))
  }

  /** The node an item is linked to, with the link. */
  function WithItem(nodes: seq<Node>, result: int, last: int, item: int): Node
    requires 0 <= result < |nodes| && nodes[result].Value? && (last != NULL ==> 0 <= last < |nodes| && nodes[last].Value?)
  {
    if last == NULL then nodes[result].(content := List(item)) else nodes[last].(next := item)
  }

  lemma ItemAdded(nodes: seq<Node>, nodes1: seq<Node>, nodes2: seq<Node>, result: int, last: int, done: seq<Sexp>, item: int, e: Sexp)
    requires Building(nodes, nodes1, result, last, done) && Kept(nodes, nodes1) && Kept(nodes1, nodes2)
    requires Parsed(nodes1, nodes2, item, Got.Got(e)) && item != NULL
    requires NewSet(nodes, nodes2) == NewSet(nodes, nodes1) + NewSet(nodes1, nodes2)
    ensures 0 <= result < |nodes2| && nodes2[result].Value? && (last != NULL ==> 0 <= last < |nodes2| && nodes2[last].Value?)
    ensures var at := if last == NULL then result else last;
      Building(nodes, nodes2[at := WithItem(nodes2, result, last, item)], result, item, done + [e])
  {
    var at := if last == NULL then result else last;
    var born, born1, born2 := NewSet(nodes, nodes2), NewSet(nodes, nodes1), NewSet(nodes1, nodes2);
    var w := nodes2[at := WithItem(nodes2, result, last, item)];
    assert LiveSet(w) == LiveSet(nodes2);
    assert NewSet(nodes, w) == born;
    var done' := done + [e];
    assert done'[..|done'| - 1] == done && done'[|done'| - 1] == e;
    assert at in born1 && at !in born2 && item !in born1;
    StandsKept(nodes2, w, nodes2[item].content, e, born2 - {item}, born - {result, item});
    if done != [] {
      var first, front, x := nodes1[result].content.lst, done[..|done| - 1], done[|done| - 1];
      var a, b := born1 - {result, last}, born - {result, item};
      RepKept(nodes1, w, first, front, last, a, b);
      StandsKept(nodes1, w, nodes1[last].content, x, a, b);
      RepAppend(w, first, front, last, x, b);
      assert front + [x] == done;
    }
  }

  /** The list when no item is to come. */
  lemma ListDone(nodes: seq<Node>, nodes': seq<Node>, result: int, last: int, done: seq<Sexp>)
    requires Building(nodes, nodes', result, last, done)
    ensures Parsed(nodes, nodes', result, Got.Got(Sexp.Seq(done)))
  {
    var born := NewSet(nodes, nodes');
    if done != [] {
      var first, front, x := nodes'[result].content.lst, done[..|done| - 1], done[|done| - 1];
      RepKept(nodes', nodes', first, front, last, born - {result, last}, born - {result});
      StandsKept(nodes', nodes', nodes'[last].content, x, born - {result, last}, born - {result});
      RepAppend(nodes', first, front, last, x, born - {result});
      assert front + [x] == done;
    }
  }

  /** The pool after an item is linked: the list owns what the reader held. */
  lemma LinkItem(view: seq<Node>, rank: seq<int>, clock: int, held: multiset<int>, scope: int, frames: seq<Frame>, at: nat, n: Node, item: nat)
    requires InOrder(view, rank, clock, held, scope, frames) && at < |view| && view[at].Value? && item in held
    requires item < |view| && view[item].Value? && |rank| == |view| && rank[at] > rank[item]
    requires (view[at].content == List(NULL) && n == view[at].(content := List(item))) || (view[at].next == NULL && n == view[at].(next := item))
    ensures InOrder(view[at := n], rank, clock, held - multiset{item}, scope, frames)
  {
    hide Counted, Sound, FramesShow, RootsOf;
    var held' := held - multiset{item};
    SoundAt(view, rank, at);
    RootsGive(held, held', scope);
    forall j: int ensures held'[j] + Shares(n, j) == held[j] + Shares(view[at], j) {
    }
    Linked(view, rank, RootsOf(held, scope), at, n, RootsOf(held', scope));
    FramesNodes(view, scope, frames);
    FramesKept(view, view[at := n], scope, frames);
  }

  // ----- after an error -----

  lemma ReleasedSettled(nodes: seq<Node>, nodes': seq<Node>, view': seq<Node>, s: set<int>)
    requires Raw !in nodes && Released(nodes, view', s) && Followed(nodes, nodes, nodes', view')
    ensures nodes' == view' && Raw !in view'
  {
    assert forall i :: 0 <= i < |nodes| ==> nodes[i] != Raw && Less(nodes[i], view'[i]);
  }

  /** With the references given up that reading had made, the pool has the live nodes it had before. */
  lemma NothingLeft(nodes: seq<Node>, rank: seq<int>, clock: int, nodes': seq<Node>, rank': seq<int>, clock': int, held: multiset<int>, scope: int, frames: seq<Frame>)
    requires InOrder(nodes, rank, clock, held, scope, frames) && InOrder(nodes', rank', clock', held, scope, frames)
    requires Kept(nodes, nodes')
    ensures LiveSet(nodes') == LiveSet(nodes)
  {
    hide FramesShow, Sound;
    var s, roots := LiveSet(nodes), RootsOf(held, scope);
    forall r | r in roots ensures r in s {
      Counts(nodes, roots, r);
    }
    forall i, r {:trigger Shares(nodes'[i], r)} | i in s && 0 <= i < |nodes'| && Shares(nodes'[i], r) > 0 ensures r in s {
      assert nodes'[i] == nodes[i];
      OwnedHas(nodes, i, r);
      assert Owned(nodes, r) + roots[r] == CountAt(nodes, r);
    }
    NoGarbage(nodes', rank', roots, s);
    KeptLive(nodes, nodes');
  }

  /** Releasing new values leaves the old nodes. */
  lemma KeptReleased(nodes: seq<Node>, nodes': seq<Node>, nodes'': seq<Node>)
    requires Kept(nodes, nodes') && Released(nodes', nodes'', NewSet(nodes, nodes'))
    ensures Kept(nodes, nodes'')
  {
    KeptLive(nodes, nodes');
    assert forall i :: 0 <= i < |nodes| && Live(nodes[i]) ==> i !in NewSet(nodes, nodes');
  }

  /** ParseList's way out when the text ends inside the list. */
  method Abandon(c: Context, result: int, ghost nodes0: seq<Node>, ghost rank0: seq<int>, ghost clock0: int, ghost held0: multiset<int>)
    requires c.Settled() && InOrder(nodes0, rank0, clock0, held0, c.scope, c.frames)
    requires Grew(nodes0, rank0, clock0, c.nodes, c.rank, c.clock) && c.held == held0 + Ref(result)
    requires result in NewSet(nodes0, c.nodes) && c.nodes[result].Value?
    modifies c`nodes, c`freelist, c`avail, c`view, c`held, c`error
    ensures c.Settled() && c.held == held0 && c.error
    ensures Grew(nodes0, rank0, clock0, c.nodes, c.rank, c.clock) && LiveSet(c.nodes) == LiveSet(nodes0)
  {
    hide InOrder, FreeList, FreeExactly, Released, Followed, Ref;
    c.error := true;
    ghost var nodes1, born := c.nodes, NewSet(nodes0, c.nodes);
    GivenBack(held0, Ref(result));
    c.JLRelease(result, born);
    ReleasedSettled(nodes1, c.nodes, c.view, born);
    KeptReleased(nodes0, nodes1, c.nodes);
    NothingLeft(nodes0, rank0, clock0, c.nodes, c.rank, c.clock, held0, c.scope, c.frames);
    assert NewSet(nodes0, c.nodes) == {};
  }

  // ----- the reader -----

  lemma BuildingStarts(nodes: seq<Node>, nodes': seq<Node>, result: int)
    requires result in NewSet(nodes, nodes') && 0 <= result < |nodes'| && nodes'[result] == Value(1, List(NULL), NULL)
    ensures Building(nodes, nodes', result, NULL, [])
  {
  }

  lemma BuildingKept(nodes: seq<Node>, nodes1: seq<Node>, nodes2: seq<Node>, result: int, last: int, done: seq<Sexp>)
    requires Building(nodes, nodes1, result, last, done) && Kept(nodes1, nodes2) && LiveSet(nodes2) == LiveSet(nodes1)
    ensures Building(nodes, nodes2, result, last, done)
  {
    var a := NewSet(nodes, nodes1) - {result, last};
    if done != [] {
      StandsKept(nodes1, nodes2, nodes1[last].content, done[|done| - 1], a, a);
      RepKept(nodes1, nodes2, nodes1[result].content.lst, done[..|done| - 1], last, a, a);
    }
  }

  lemma BuildingResult(nodes: seq<Node>, nodes': seq<Node>, result: int, last: int, done: seq<Sexp>)
    requires Building(nodes, nodes', result, last, done)
    ensures result in NewSet(nodes, nodes') && 0 <= result < |nodes'| && nodes'[result].Value?
  {
  }

  /** The node the next item is linked to, and why it may be. */
  lemma LinkPlace(nodes: seq<Node>, rank: seq<int>, clock: int, nodes1: seq<Node>, rank1: seq<int>, clock1: int, nodes2: seq<Node>, rank2: seq<int>, clock2: int,
      result: int, last: int, done: seq<Sexp>, item: int, e: Sexp)
    requires Building(nodes, nodes1, result, last, done) && item != NULL
    requires Grew(nodes, rank, clock, nodes1, rank1, clock1) && Grew(nodes1, rank1, clock1, nodes2, rank2, clock2)
    requires Parsed(nodes1, nodes2, item, Got.Got(e)) && forall i :: 0 <= i < |rank1| ==> clock1 <= rank1[i]
    ensures 0 <= result < |nodes2| && nodes2[result].Value? && (last != NULL ==> 0 <= last < |nodes2| && nodes2[last].Value?)
    ensures var at, n := if last == NULL then result else last, WithItem(nodes2, result, last, item);
      && 0 <= at < |nodes2| && nodes2[at].Value? && at in NewSet(nodes, nodes2) && rank2[at] > rank2[item]
      && ((nodes2[at].content == List(NULL) && n == nodes2[at].(content := List(item))) || (nodes2[at].next == NULL && n == nodes2[at].(next := item)))
      && forall r :: Shares(n, r) > 0 ==> r in NewSet(nodes, nodes2)
    ensures 0 <= item < |nodes2| && nodes2[item].Value?
  {
    GrewTwice(nodes, rank, clock, nodes1, rank1, clock1, nodes2, rank2, clock2);
    var at, n := if last == NULL then result else last, WithItem(nodes2, result, last, item);
    assert nodes2[at] == nodes1[at];
    assert at in LiveSet(nodes1) && at in NewSet(nodes, nodes1);
    forall r | Shares(n, r) > 0 ensures r in NewSet(nodes, nodes2) {
      assert r == item || Shares(nodes1[at], r) > 0;
    }
  }

  /** One item of a list: it is read, and linked to what is there. */
  method ReadItem(c: Context, lib: Arith, line: string, value: int, last: int,
      ghost done: seq<Sexp>, ghost nodes0: seq<Node>, ghost rank0: seq<int>, ghost clock0: int) returns (item: int, rest: string, astray: bool)
    requires c.Settled() && line != [] && line[0] != ')' && value in c.held
    requires Grew(nodes0, rank0, clock0, c.nodes, c.rank, c.clock) && Building(nodes0, c.nodes, value, last, done)
    modifies c`nodes, c`freelist, c`blocks, c`avail, c`view, c`rank, c`clock, c`held, c`frames, c`error
    ensures c.Settled() && c.frames == old(c.frames) && Grew(nodes0, rank0, clock0, c.nodes, c.rank, c.clock)
    ensures astray == ReadExpr(lib, line).got.Astray? && (!astray ==> c.held == old(c.held))
    ensures var r := ReadExpr(lib, line);
      && rest == r.rest && c.error == (old(c.error) || r.error) && (item != NULL <==> r.got.Got?)
      && if r.got.Astray? then true
         else if r.got.Nothing? then Building(nodes0, c.nodes, value, last, done)
         else Building(nodes0, c.nodes, value, item, done + [r.got.sexp])
    decreases |line|, 2
  {
    hide InOrder, FreeList, FreeExactly, Mirrors, Grew, Handed, LiveSet, NewSet, IsValue, Building, Kept, ReadExpr;
    ghost var nodes1, rank1, clock1, held1 := c.nodes, c.rank, c.clock, c.held;
    item, rest, astray := ParseExpression(c, lib, line);
    ghost var nodes2 := c.nodes;
    GrewTwice(nodes0, rank0, clock0, nodes1, rank1, clock1, nodes2, c.rank, c.clock);
    GrewKept(nodes0, rank0, clock0, nodes1, rank1, clock1);
    GrewKept(nodes1, rank1, clock1, nodes2, c.rank, c.clock);
    ghost var got := ReadExpr(lib, line).got;
    if item != NULL {
      Ranked(nodes1, rank1, clock1, held1, c.scope, c.frames);
      LinkPlace(nodes0, rank0, clock0, nodes1, rank1, clock1, nodes2, c.rank, c.clock, value, last, done, item, got.sexp);
      var at, node := if last == NULL then value else last, WithItem(c.nodes, value, last, item);
      OwnRef(item);
      LinkItem(c.nodes, c.rank, c.clock, c.held, c.scope, c.frames, at, node, item);
      GivenBack(held1, multiset{item});
      Store(c, at, node, c.rank, held1, c.frames);
      GrewStore(nodes0, rank0, clock0, nodes2, c.rank, c.clock, at, node);
      ItemAdded(nodes0, nodes1, nodes2, value, last, done, item, got.sexp);
    } else if !astray {
      GivenBack(held1, Ref(item));
      BuildingKept(nodes0, nodes1, nodes2, value, last, done);
    }
  }

  lemma GrewKept(nodes: seq<Node>, rank: seq<int>, clock: int, nodes': seq<Node>, rank': seq<int>, clock': int)
    requires Grew(nodes, rank, clock, nodes', rank', clock')
    ensures Kept(nodes, nodes')
  {
  }

  lemma Ranked(view: seq<Node>, rank: seq<int>, clock: int, held: multiset<int>, scope: int, frames: seq<Frame>)
    requires InOrder(view, rank, clock, held, scope, frames)
    ensures forall i :: 0 <= i < |rank| ==> clock <= rank[i]
  {
  }

  /** The items read, one more in front. */
  function OneBefore(e: Sexp, r: Reads): Reads {
    Reads([e] + r.items, r.rest, r.error, r.astray)
  }

  function AllBefore(done: seq<Sexp>, r: Reads): Reads {
    Reads(done + r.items, r.rest, r.error, r.astray)
  }

  /** The items that are still to be read. */
  lemma NextItem(lib: Arith, line: string)
    requires line != [] && line[0] != ')'
    ensures var r, all := ReadExpr(lib, line), ReadItems(lib, line);
      if !r.got.Got? then all == Reads([], r.rest, r.error, r.got.Astray?) && (r.got.Astray? ==> r.rest == [] && !r.error)
      else !r.error && |r.rest| < |line| && all == OneBefore(r.got.sexp, ReadItems(lib, r.rest))
  {
    ErrorsAtEnd(lib, line);
  }

  lemma LastItem(lib: Arith, line: string)
    requires line == [] || line[0] == ')'
    ensures ReadItems(lib, line) == Reads([], line, false, false)
  {
  }

  lemma ListRead(lib: Arith, line: string, all: Reads)
    requires At(line, '(') && all == ReadItems(lib, line[1..])
    ensures ReadExpr(lib, line) ==
      if all.astray then Read(Astray, [], false)
      else if At(all.rest, ')') then Read(Got.Got(Sexp.Seq(all.items)), all.rest[1..], all.error) else Read(Nothing, all.rest, true)
  {
  }

  /** ParseList's loop: the items up to what ends them, each linked behind the one before. */
  method ReadAll(c: Context, lib: Arith, line: string, value: int, ghost nodes0: seq<Node>, ghost rank0: seq<int>, ghost clock0: int)
      returns (last: int, rest: string, astray: bool, ghost done: seq<Sexp>)
    requires c.Settled() && value in c.held
    requires Grew(nodes0, rank0, clock0, c.nodes, c.rank, c.clock) && Building(nodes0, c.nodes, value, NULL, [])
    modifies c`nodes, c`freelist, c`blocks, c`avail, c`view, c`rank, c`clock, c`held, c`frames, c`error
    ensures c.Settled() && c.frames == old(c.frames) && Grew(nodes0, rank0, clock0, c.nodes, c.rank, c.clock)
    ensures var all := ReadItems(lib, line);
      && astray == all.astray && rest == all.rest && c.error == (old(c.error) || all.error)
      && (astray ==> all.rest == [] && !all.error)
      && (!astray ==> c.held == old(c.held) && done == all.items && Building(nodes0, c.nodes, value, last, done))
    decreases |line|, 3
  {
    hide InOrder, FreeList, FreeExactly, Mirrors, Grew, Building, ReadExpr, ReadItems;
    last, rest, astray, done := NULL, line, false, [];
    ghost var all := ReadItems(lib, line);
    while rest != [] && rest[0] != ')'
      invariant c.Settled() && c.scope == old(c.scope) && c.frames == old(c.frames) && c.held == old(c.held) && c.error == old(c.error)
      invariant Grew(nodes0, rank0, clock0, c.nodes, c.rank, c.clock) && Building(nodes0, c.nodes, value, last, done)
      invariant |rest| <= |line| && all == AllBefore(done, ReadItems(lib, rest)) && !astray
      decreases |rest|
    {
      NextItem(lib, rest);
      ghost var read := ReadExpr(lib, rest);
      var item;
      item, rest, astray := ReadItem(c, lib, rest, value, last, done, nodes0, rank0, clock0);
      if item == NULL { return; }
      done := done + [read.got.sexp];
      last := item;
    }
    LastItem(lib, rest);
  }

  /** The end of ParseList: the list is there if a parenthesis closes it, else it is given up. */
  method CloseList(c: Context, line: string, result: int, last: int, ghost done: seq<Sexp>,
      ghost nodes0: seq<Node>, ghost rank0: seq<int>, ghost clock0: int, ghost held0: multiset<int>) returns (value: int, rest: string)
    requires c.Settled() && InOrder(nodes0, rank0, clock0, held0, c.scope, c.frames) && c.held == held0 + Ref(result) && result != NULL
    requires Grew(nodes0, rank0, clock0, c.nodes, c.rank, c.clock) && Building(nodes0, c.nodes, result, last, done)
    modifies c`nodes, c`freelist, c`avail, c`view, c`held, c`error
    ensures c.Settled() && c.held == held0 + Ref(value) && Grew(nodes0, rank0, clock0, c.nodes, c.rank, c.clock)
    ensures c.error == (old(c.error) || !At(line, ')')) && rest == if At(line, ')') then line[1..] else line
    ensures Parsed(nodes0, c.nodes, value, if At(line, ')') then Got.Got(Sexp.Seq(done)) else Nothing)
    ensures value != NULL <==> At(line, ')')
  {
    hide InOrder, FreeList, FreeExactly, Mirrors, Grew, LiveSet, NewSet, Building;
    value, rest := result, line;
    if At(rest, ')') {
      rest := rest[1..];
      ListDone(nodes0, c.nodes, value, last, done);
    } else {
      BuildingResult(nodes0, c.nodes, value, last, done);
      Abandon(c, value, nodes0, rank0, clock0, held0);
      value := NULL;
    }
  }

  /** ParseList: a list, or an error and nothing taken from the pool. Once astray, the run is over. */
  method ParseList(c: Context, lib: Arith, line: string) returns (value: int, rest: string, astray: bool)
    requires c.Settled() && At(line, '(')
    modifies c`nodes, c`freelist, c`blocks, c`avail, c`view, c`rank, c`clock, c`held, c`frames, c`error
    ensures c.Settled() && c.frames == old(c.frames)
    ensures astray == ReadExpr(lib, line).got.Astray? && (!astray ==> c.held == old(c.held) + Ref(value))
    ensures rest == ReadExpr(lib, line).rest && c.error == (old(c.error) || ReadExpr(lib, line).error)
    ensures Grew(old(c.nodes), old(c.rank), old(c.clock), c.nodes, c.rank, c.clock)
    ensures Parsed(old(c.nodes), c.nodes, value, ReadExpr(lib, line).got)
    ensures value != NULL <==> ReadExpr(lib, line).got.Got?
    decreases |line|, 0
  {
    hide InOrder, FreeList, FreeExactly, Mirrors, Grew, Handed, LiveSet, NewSet, IsValue, Building, Kept, ReadExpr, ReadItems, Parsed;
    ghost var nodes0, rank0, clock0, held0 := c.nodes, c.rank, c.clock, c.held;
    rest := line[1..];
    value := CreateValue(c, List(NULL));
    CreatedGrew(nodes0, rank0, clock0, c.nodes, c.rank, c.clock, value);
    OwnRef(value);
    BuildingStarts(nodes0, c.nodes, value);
    ListRead(lib, line, ReadItems(lib, rest));
    var last;
    ghost var done;
    last, rest, astray, done := ReadAll(c, lib, rest, value, nodes0, rank0, clock0);
    if astray {
      AnyAstray(nodes0, c.nodes);
      return NULL, [], true;
    }
    value, rest := CloseList(c, rest, value, last, done, nodes0, rank0, clock0, held0);
  }

  /** ParseExpression: an expression, if there is one before the text or the enclosing list ends. */
  method ParseExpression(c: Context, lib: Arith, line: string) returns (value: int, rest: string, astray: bool)
    requires c.Settled()
    modifies c`nodes, c`freelist, c`blocks, c`avail, c`view, c`rank, c`clock, c`held, c`frames, c`error
    ensures c.Settled() && c.frames == old(c.frames)
    ensures astray == ReadExpr(lib, line).got.Astray? && (!astray ==> c.held == old(c.held) + Ref(value))
    ensures rest == ReadExpr(lib, line).rest && c.error == (old(c.error) || ReadExpr(lib, line).error)
    ensures Grew(old(c.nodes), old(c.rank), old(c.clock), c.nodes, c.rank, c.clock)
    ensures Parsed(old(c.nodes), c.nodes, value, ReadExpr(lib, line).got)
    ensures value != NULL <==> ReadExpr(lib, line).got.Got?
    decreases |line|, 1
  {
    hide InOrder, FreeList, FreeExactly, Mirrors, Grew, LiveSet, NewSet, Kept, ReadItems;
    var text;
    text, astray := SkipBlanks(line);
    if astray {
      value, rest := NULL, [];
      GrewNot(c.nodes, c.rank, c.clock);
      return;
    }
    assert ReadExpr(lib, text) == ReadExpr(lib, line) by { SkipTwice(lib, line); }
    if text == [] || text[0] == ')' {
      value, rest := NULL, text;
      GrewNot(c.nodes, c.rank, c.clock);
      GivenBack(c.held, Ref(NULL));
    } else if text[0] == '(' {
      value, rest, astray := ParseList(c, lib, text);
    } else {
      value, rest := ParseLiteral(c, lib, text);
    }
  }

  lemma {:induction false} SkipAgain(s: string)
    ensures Skip(Skip(s)) == Skip(s) && !PastEnd(Skip(s))
  {
    var r := Skip(s);
    assert r == [] || (!Blank(r[0]) && r[0] != ';');
  }

  lemma SkipTwice(lib: Arith, s: string)
    requires !PastEnd(s)
    ensures ReadExpr(lib, Skip(s)) == ReadExpr(lib, s)
  {
    SkipAgain(s);
  }

  /** JLParse: one expression from the text; astray when the reader stepped over the end of the text, which is the end
      of what the model says. */
  method JLParse(c: Context, lib: Arith, line: string) returns (result: int, rest: string, astray: bool)
    requires c.Settled()
    modifies c`nodes, c`freelist, c`blocks, c`avail, c`view, c`rank, c`clock, c`held, c`frames, c`error
    ensures c.Settled() && c.frames == old(c.frames)
    ensures astray == ReadTop(lib, line).got.Astray? && (!OpenComment(line) ==> !astray)
    ensures !astray ==> c.held == old(c.held) + Ref(result)
    ensures !astray ==> rest == ReadTop(lib, line).rest && c.error == (old(c.error) || ReadTop(lib, line).error)
    ensures Kept(old(c.nodes), c.nodes) && Parsed(old(c.nodes), c.nodes, result, ReadTop(lib, line).got)
  {
    hide InOrder, FreeList, FreeExactly, Mirrors, Grew, LiveSet, NewSet, Kept, ReadExpr;
    result, rest, astray := ParseExpression(c, lib, line);
    if !OpenComment(line) {
      StaysInside(lib, line);
    }
    GrewKept(old(c.nodes), old(c.rank), old(c.clock), c.nodes, c.rank, c.clock);
    if At(rest, ')') {
      c.error := true;
      rest := rest[1..];
    }
  }

  // ----- printing -----

  lemma NextShown(lib: Arith, out: string, rest: seq<Sexp>, last: bool)
    requires rest != [] && (last <==> rest[1..] == [])
    ensures out + ShowAll(lib, rest) ==
            out + Show(lib, rest[0]) + (if last then [] else " ") + ShowAll(lib, rest[1..])
  {
  }

  lemma AllShown(lib: Arith, out: string)
    ensures out + ShowAll(lib, []) == out
  {
  }

  /** JLPrint, for nil and what the reader makes: e is what the value stands for. */
  method JLPrint(c: Context, lib: Arith, value: int, ghost e: Sexp, ghost a: set<int>) returns (out: string)
    requires value != NULL ==> 0 <= value < |c.nodes| && c.nodes[value].Value?
    requires value != NULL && c.nodes[value].content != Content.Nil ==> Stands(c.nodes, c.nodes[value].content, e, a)
    ensures out == if value == NULL || c.nodes[value].content == Content.Nil then "nil" else Show(lib, e)
    decreases e
  {
    hide ShowAll, ShowNumber;
    if value == NULL {
      return "nil";
    }
    match c.nodes[value].content
    case Nil =>
      out := "nil";
    case Number(x) =>
      out := ShowNumber(lib, x);
    case Str(str) =>
      out := "\"" + str + "\"";
    case Variable(name) =>
      out := name;
    case List(lst) =>
      out := "(";
      var temp := lst;
      ghost var rest := e.items;
      while temp != NULL
        invariant Rep(c.nodes, temp, rest, NULL, a)
        invariant forall k :: 0 <= k < |rest| ==> rest[k] < e
        invariant out + ShowAll(lib, rest) == "(" + ShowAll(lib, e.items)
        decreases rest
      {
        var item := JLPrint(c, lib, temp, rest[0], a);
        NextShown(lib, out, rest, c.nodes[temp].next == NULL);
        out := out + item;
        if c.nodes[temp].next != NULL {
          out := out + " ";
        }
        temp, rest := c.nodes[temp].next, rest[1..];
      }
      AllShown(lib, out);
      out := out + ")";
    case Special =>
      // Nothing the reader makes; the source prints addresses.
      out := "special";
  }
}
