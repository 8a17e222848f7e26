/** Contexts made, used and destroyed: what every run of the operations of JL keeps, and what it leaves. */
module JlRun {
  import opened JlHeap
  import opened JlScope
  import opened JlContext
  import opened JlBindings
  import opened JlNumber
  import opened JlReader
  import opened JlParser

  /** JLCreateContext, with its only predefined name that is not a function. */
  method JLCreateContext() returns (c: Context)
    ensures fresh(c) && c.Settled() && c.held == multiset{} && |c.frames| == 1 && !c.error
    ensures Seen(c.frames) == map["nil" := NULL]
  {
    c := new Context();
    JLEnterScope(c);
    FramesOf(c);
    assert Seen(c.frames) == map[];
    JLDefineValue(c, "nil", NULL);
  }

  /** Every node is free or live; nothing else is left of the blocks that were allocated. */
  lemma Conserved(c: Context)
    requires c.Settled()
    ensures |c.avail| + |LiveSet(c.nodes)| == BLOCK_SIZE * c.blocks
  {
    Conservation(c.nodes, c.freelist, c.avail);
  }

  /** A live node is reached from the current scope or from what the program still holds. */
  lemma NothingLost(c: Context, s: set<int>)
    requires c.Settled() && Closed(c.nodes, s) && (forall r :: r in c.held ==> r in s) && (c.scope != NULL ==> c.scope in s)
    ensures LiveSet(c.nodes) <= s
  {
    NoGarbage(c.view, c.rank, RootsOf(c.held, c.scope), s);
  }

  /** With no scope left and nothing held, the whole pool is on the free list. */
  lemma AllFree(c: Context)
    requires c.Settled() && c.held == multiset{} && c.frames == []
    ensures |c.avail| == BLOCK_SIZE * c.blocks
  {
    NothingLost(c, {});
    Conserved(c);
  }

  // ----- runs -----

  /** What a program does with a context; a handle is the place of a reference among those it holds. */
  datatype Command =
    | Enter
    | Leave
    | Parse(text: string)
    | Define(name: string, handle: nat)
    | Find(name: string)
    | Copy(handle: nat)
    | Release(handle: nat)

  ghost function Holding(handles: seq<int>): multiset<int> {
    if handles == [] then multiset{} else Holding(handles[..|handles| - 1]) + Ref(handles[|handles| - 1])
  }

  lemma {:induction false} Held(handles: seq<int>, k: nat)
    requires k < |handles|
    ensures Holding(handles) == Holding(handles[..k] + handles[k + 1..]) + Ref(handles[k])
  {
    hide Ref;
    var last := |handles| - 1;
    var without := handles[..k] + handles[k + 1..];
    if k == last {
      assert without == handles[..last];
    } else {
      Held(handles[..last], k);
      assert without[..|without| - 1] == handles[..last][..k] + handles[..last][k + 1..];
      assert without[|without| - 1] == handles[last];
    }
  }

  /** The program's references are its handles. */
  ghost predicate Holds(c: Context, handles: seq<int>)
    reads c
  {
    c.Settled() && c.held == Holding(handles) && forall k :: 0 <= k < |handles| ==> IsValue(c.nodes, handles[k])
  }

  lemma HandlesStay(c: Context, nodes: seq<Node>, handles: seq<int>)
    requires c.Settled() && c.held == Holding(handles) && SameValues(nodes, c.nodes)
    requires forall k :: 0 <= k < |handles| ==> IsValue(nodes, handles[k])
    ensures Holds(c, handles)
  {
    hide Holding;
    forall k | 0 <= k < |handles| ensures IsValue(c.nodes, handles[k]) {
      var h := handles[k];
      if h != NULL {
        Held(handles, k);
        assert Ref(h)[h] == 1;
        Counts(c.view, RootsOf(c.held, c.scope), h);
      }
    }
  }

  lemma HandleAdded(c: Context, nodes: seq<Node>, handles: seq<int>, h: int)
    requires c.Settled() && c.held == Holding(handles) + Ref(h) && SameValues(nodes, c.nodes) && IsValue(c.nodes, h)
    requires forall k :: 0 <= k < |handles| ==> IsValue(nodes, handles[k])
    ensures Holds(c, handles + [h])
  {
    var more := handles + [h];
    assert more[..|more| - 1] == handles;
    forall k | 0 <= k < |more| ensures IsValue(c.nodes, more[k]) {
      if k < |handles| && handles[k] != NULL {
        Held(handles, k);
        assert Ref(handles[k])[handles[k]] == 1;
        Counts(c.view, RootsOf(c.held, c.scope), handles[k]);
      }
    }
  }

  // ----- scopes as maps -----

  /** What each scope binds, innermost first. */
  ghost function Envs(frames: seq<Frame>): seq<map<string, int>> {
    if frames == [] then [] else [ToMap(frames[0].tree)] + Envs(frames[1..])
  }

  ghost function Innermost(envs: seq<map<string, int>>, name: string): int {
    if envs == [] then NULL else if name in envs[0] then envs[0][name] else Innermost(envs[1..], name)
  }

  lemma {:induction false} SeenInnermost(frames: seq<Frame>, name: string)
    ensures Innermost(Envs(frames), name) == if name in Seen(frames) then Seen(frames)[name] else NULL
  {
    if frames != [] {
      SeenInnermost(frames[1..], name);
    }
  }

  lemma EnvsBound(frames: seq<Frame>, name: string, value: int, a: int)
    requires frames != [] && Neat(frames[0].tree)
    ensures Envs(Bound(frames, name, value, a)) == [ToMap(frames[0].tree)[name := value]] + Envs(frames[1..])
  {
    PutMap(frames[0].tree, name, value, a);
    assert Bound(frames, name, value, a)[1..] == frames[1..];
  }

  lemma EnvsEnter(frames: seq<Frame>, s: int)
    ensures Envs([Frame(s, Leaf)] + frames) == [map[]] + Envs(frames)
  {
    assert ([Frame(s, Leaf)] + frames)[1..] == frames;
  }

  lemma {:induction false} EnvsSize(frames: seq<Frame>)
    ensures |Envs(frames)| == |frames|
  {
    if frames != [] {
      EnvsSize(frames[1..]);
    }
  }

  /** What the scopes bind are values. */
  ghost predicate AllValues(nodes: seq<Node>, envs: seq<map<string, int>>) {
    forall i, name :: 0 <= i < |envs| && name in envs[i] ==> IsValue(nodes, envs[i][name])
  }

  lemma {:induction false} BoundValues(view: seq<Node>, rank: seq<int>, s: int, frames: seq<Frame>)
    requires FramesShow(view, s, frames) && Sound(view, rank)
    ensures AllValues(view, Envs(frames))
    decreases frames
  {
    hide Sound;
    if frames != [] {
      var t := frames[0].tree;
      forall name | name in ToMap(t) ensures IsValue(view, ToMap(t)[name]) {
        MappedValue(view, rank, view[s].bindings, t, name);
      }
      BoundValues(view, rank, view[s].outer, frames[1..]);
    }
  }

  lemma {:induction false} MappedValue(view: seq<Node>, rank: seq<int>, p: int, t: Tree, name: string)
    requires Shows(view, p, t) && Sound(view, rank) && name in ToMap(t)
    ensures IsValue(view, ToMap(t)[name])
    decreases t
  {
    hide Sound;
    SoundAt(view, rank, p);
    if name != t.name {
      if name in ToMap(t.right) {
        MappedValue(view, rank, view[p].right, t.right, name);
      } else {
        MappedValue(view, rank, view[p].left, t.left, name);
      }
    }
  }

  lemma InnermostValue(nodes: seq<Node>, envs: seq<map<string, int>>, name: string)
    requires AllValues(nodes, envs)
    ensures IsValue(nodes, Innermost(envs, name))
  {
    if envs != [] && name !in envs[0] {
      assert AllValues(nodes, envs[1..]);
      InnermostValue(nodes, envs[1..], name);
    }
  }

  // ----- what values mean -----

  /** A reference without its place in the pool: NULL, the value nil, or the expression it stands for. */
  datatype Meaning = Null | Blank | Is(sexp: Sexp)

  ghost predicate Means(nodes: seq<Node>, p: int, m: Meaning) {
    match m
    case Null => p == NULL
    case Blank => 0 <= p < |nodes| && nodes[p].Value? && nodes[p].content == Content.Nil
    case Is(e) => 0 <= p < |nodes| && nodes[p].Value? && Stands(nodes, nodes[p].content, e, All(nodes))
  }

  /** While a value has an owner, so have the values it is made of: it stands for what it stood for. */
  lemma {:induction false} StandsStays(nodes: seq<Node>, nodes': seq<Node>, rank: seq<int>, content: Content, e: Sexp)
    requires Stands(nodes, content, e, All(nodes)) && SameValues(nodes, nodes') && Sound(nodes', rank)
    requires content.List? ==> IsValue(nodes', content.lst)
    ensures Stands(nodes', content, e, All(nodes'))
    decreases e
  {
    hide Sound;
    if e.Seq? {
      RepStays(nodes, nodes', rank, content.lst, e.items);
    }
  }

  lemma {:induction false} RepStays(nodes: seq<Node>, nodes': seq<Node>, rank: seq<int>, p: int, items: seq<Sexp>)
    requires Rep(nodes, p, items, NULL, All(nodes)) && SameValues(nodes, nodes') && Sound(nodes', rank)
    requires IsValue(nodes', p)
    ensures Rep(nodes', p, items, NULL, All(nodes'))
    decreases items
  {
    hide Sound;
    if items != [] {
      assert nodes'[p] == nodes[p].(count := nodes'[p].count);
      SoundAt(nodes', rank, p);
      StandsStays(nodes, nodes', rank, nodes[p].content, items[0]);
      RepStays(nodes, nodes', rank, nodes[p].next, items[1..]);
    }
  }

  lemma MeansStays(nodes: seq<Node>, nodes': seq<Node>, rank: seq<int>, p: int, m: Meaning)
    requires Means(nodes, p, m) && SameValues(nodes, nodes') && Sound(nodes', rank) && IsValue(nodes', p)
    ensures Means(nodes', p, m)
  {
    hide Sound;
    if m.Is? {
      assert nodes'[p] == nodes[p].(count := nodes'[p].count);
      SoundAt(nodes', rank, p);
      StandsStays(nodes, nodes', rank, nodes[p].content, m.sexp);
    }
  }

  // ----- a run without the pool -----

  /** The scopes, innermost first, what the program holds, and whether an error was reported. */
  datatype World = World(envs: seq<map<string, Meaning>>, held: seq<Meaning>, error: bool)

  const Start := World([map["nil" := Null]], [], false)

  /** What is seen of a name. */
  function See(envs: seq<map<string, Meaning>>, name: string): Meaning {
    if envs == [] then Null else if name in envs[0] then envs[0][name] else See(envs[1..], name)
  }

  predicate Unbound(envs: seq<map<string, Meaning>>, name: string) {
    forall i :: 0 <= i < |envs| ==> name !in envs[i]
  }

  function MeaningOf(got: Got): Meaning {
    if got.Got? then Is(got.sexp) else Null
  }

  /** What a command does to scopes, held values and the error flag; the last scope stays. */
  function After(lib: Arith, w: World, command: Command): (w': World)
    requires w.envs != []
    ensures w'.envs != []
  {
    match command
    case Enter => w.(envs := [map[]] + w.envs)
    case Leave => if |w.envs| > 1 then w.(envs := w.envs[1..]) else w
    case Parse(text) => w.(held := w.held + [MeaningOf(ReadTop(lib, text).got)], error := w.error || ReadTop(lib, text).error)
    case Define(name, k) => if k < |w.held| then w.(envs := [w.envs[0][name := w.held[k]]] + w.envs[1..]) else w
    case Find(name) => w.(held := w.held + [See(w.envs, name)], error := w.error || Unbound(w.envs, name))
    case Copy(k) => if k < |w.held| then w.(held := w.held + [if w.held[k] == Null then Blank else w.held[k]]) else w
    case Release(k) => if k < |w.held| then w.(held := w.held[..k] + w.held[k + 1..]) else w
  }

  /** The fold of After over the commands. */
  function AfterAll(lib: Arith, commands: seq<Command>): (w: World)
    ensures w.envs != []
  {
    if commands == [] then Start
    else After(lib, AfterAll(lib, commands[..|commands| - 1]), commands[|commands| - 1])
  }

  /** Scopes: a definition is what is found until the scope is left, and then what was there before is found again; other
      names are not touched. */
  lemma Scoped(lib: Arith, w: World, name: string, other: string, k: nat)
    requires w.envs != [] && k < |w.held| && other != name
    ensures var d := After(lib, w, Define(name, k));
      && d.held == w.held && d.error == w.error
      && After(lib, d, Find(name)).held == w.held + [w.held[k]] && After(lib, d, Find(name)).error == w.error
      && After(lib, d, Find(other)).held == After(lib, w, Find(other)).held
    ensures var inner := After(lib, After(lib, w, Enter), Define(name, k));
      && After(lib, inner, Find(name)).held == w.held + [w.held[k]]
      && After(lib, inner, Find(other)).held == After(lib, w, Find(other)).held
      && After(lib, inner, Leave) == w
  {
    var e := w.envs[0];
    var d, inner := [e[name := w.held[k]]] + w.envs[1..], [map[name := w.held[k]]] + w.envs;
    assert d[1..] == w.envs[1..] && inner[1..] == w.envs && ([map[]] + w.envs)[1..] == w.envs;
    assert w.envs == [e] + w.envs[1..];
    assert map[][name := w.held[k]] == map[name := w.held[k]];
    assert !Unbound(d, name) && !Unbound(inner, name) by { assert name in d[0] && name in inner[0]; }
  }

  /** A name nothing binds is found as null, and that is an error; nil is bound from the start. */
  lemma Missing(lib: Arith, w: World, name: string)
    requires w.envs != [] && forall i :: 0 <= i < |w.envs| ==> name !in w.envs[i]
    ensures After(lib, w, Find(name)).held == w.held + [Null] && After(lib, w, Find(name)).error
    ensures !After(lib, Start, Find("nil")).error && After(lib, Start, Find("nil")).held == [Null]
  {
    SeeMissing(w.envs, name);
    assert "nil" in Start.envs[0];
  }

  lemma {:induction false} SeeMissing(envs: seq<map<string, Meaning>>, name: string)
    requires forall i :: 0 <= i < |envs| ==> name !in envs[i]
    ensures See(envs, name) == Null
  {
    if envs != [] {
      assert forall i :: 0 <= i < |envs[1..]| ==> envs[1..][i] == envs[i + 1];
      SeeMissing(envs[1..], name);
    }
  }

  /** What is read, copied and released: a copy is the value once more, and a null copied is a blank value. */
  lemma HeldValues(lib: Arith, w: World, text: string, k: nat)
    requires w.envs != [] && k < |w.held|
    ensures var r := ReadTop(lib, text); var h := After(lib, w, Parse(text)).held;
      |h| == |w.held| + 1 && h[..|w.held|] == w.held && (r.got.Got? ==> h[|w.held|] == Is(r.got.sexp)) && (!r.got.Got? ==> h[|w.held|] == Null)
    ensures After(lib, w, Parse(text)).error <==> w.error || ReadTop(lib, text).error
    ensures w.held[k] != Null ==> After(lib, w, Copy(k)).held == w.held + [w.held[k]]
    ensures w.held[k] == Null ==> After(lib, w, Copy(k)).held == w.held + [Blank]
    ensures var h := After(lib, w, Release(k)).held; |h| == |w.held| - 1 && h[..k] == w.held[..k] && h[k..] == w.held[k + 1..]
  {
  }

  /** A text of the run takes the reader over its end. */
  predicate Strays(lib: Arith, commands: seq<Command>) {
    exists i :: 0 <= i < |commands| && commands[i].Parse? && ReadTop(lib, commands[i].text).got.Astray?
  }

  ghost predicate EnvMatches(nodes: seq<Node>, env: map<string, int>, meant: map<string, Meaning>) {
    env.Keys == meant.Keys && forall name :: name in env ==> Means(nodes, env[name], meant[name])
  }

  ghost predicate EnvsMatch(nodes: seq<Node>, envs: seq<map<string, int>>, meant: seq<map<string, Meaning>>) {
    |envs| == |meant| && forall i :: 0 <= i < |envs| ==> EnvMatches(nodes, envs[i], meant[i])
  }

  ghost predicate HeldMatch(nodes: seq<Node>, handles: seq<int>, held: seq<Meaning>) {
    |handles| == |held| && forall k :: 0 <= k < |handles| ==> Means(nodes, handles[k], held[k])
  }

  /** The context is in the state w. */
  ghost predicate Matches(c: Context, handles: seq<int>, w: World)
    reads c
  {
    && Holds(c, handles) && HeldMatch(c.nodes, handles, w.held)
    && EnvsMatch(c.nodes, Envs(c.frames), w.envs) && c.error == w.error
  }

  lemma {:induction false} SeeMatches(nodes: seq<Node>, envs: seq<map<string, int>>, meant: seq<map<string, Meaning>>, name: string)
    requires EnvsMatch(nodes, envs, meant)
    ensures Means(nodes, Innermost(envs, name), See(meant, name))
  {
    if envs != [] {
      assert EnvMatches(nodes, envs[0], meant[0]);
      assert EnvsMatch(nodes, envs[1..], meant[1..]);
      SeeMatches(nodes, envs[1..], meant[1..], name);
    }
  }

  lemma EnvMatchesStays(nodes: seq<Node>, nodes': seq<Node>, rank: seq<int>, env: map<string, int>, meant: map<string, Meaning>)
    requires EnvMatches(nodes, env, meant) && SameValues(nodes, nodes') && Sound(nodes', rank)
    requires forall name :: name in env ==> IsValue(nodes', env[name])
    ensures EnvMatches(nodes', env, meant)
  {
    hide Sound, SameValues, IsValue, Means;
    forall name | name in env ensures Means(nodes', env[name], meant[name]) {
      MeansStays(nodes, nodes', rank, env[name], meant[name]);
    }
  }

  lemma EnvsMatchStays(nodes: seq<Node>, nodes': seq<Node>, rank: seq<int>, envs: seq<map<string, int>>, meant: seq<map<string, Meaning>>)
    requires EnvsMatch(nodes, envs, meant) && SameValues(nodes, nodes') && Sound(nodes', rank) && AllValues(nodes', envs)
    ensures EnvsMatch(nodes', envs, meant)
  {
    hide Sound, SameValues, IsValue, EnvMatches;
    forall i | 0 <= i < |envs| ensures EnvMatches(nodes', envs[i], meant[i]) {
      EnvMatchesStays(nodes, nodes', rank, envs[i], meant[i]);
    }
  }

  lemma HeldMatchStays(nodes: seq<Node>, nodes': seq<Node>, rank: seq<int>, handles: seq<int>, held: seq<Meaning>)
    requires HeldMatch(nodes, handles, held) && SameValues(nodes, nodes') && Sound(nodes', rank)
    requires forall k :: 0 <= k < |handles| ==> IsValue(nodes', handles[k])
    ensures HeldMatch(nodes', handles, held)
  {
    hide Sound, SameValues, IsValue, Means;
    forall k | 0 <= k < |handles| ensures Means(nodes', handles[k], held[k]) {
      MeansStays(nodes, nodes', rank, handles[k], held[k]);
    }
  }

  /** A state that matched w in the old pool does so in the new one, as far as it is still owned. */
  lemma MatchStays(c: Context, nodes: seq<Node>, handles: seq<int>, w: World)
    requires Holds(c, handles) && SameValues(nodes, c.nodes) && c.error == w.error
    requires HeldMatch(nodes, handles, w.held) && EnvsMatch(nodes, Envs(c.frames), w.envs)
    ensures Matches(c, handles, w)
  {
    hide Sound, SameValues, EnvsMatch, HeldMatch, Envs;
    BoundValues(c.view, c.rank, c.scope, c.frames);
    EnvsMatchStays(nodes, c.nodes, c.rank, Envs(c.frames), w.envs);
    HeldMatchStays(nodes, c.nodes, c.rank, handles, w.held);
  }

  lemma BindMatches(nodes: seq<Node>, envs: seq<map<string, int>>, meant: seq<map<string, Meaning>>, name: string, h: int, m: Meaning)
    requires EnvsMatch(nodes, envs, meant) && envs != [] && Means(nodes, h, m)
    ensures EnvsMatch(nodes, [envs[0][name := h]] + envs[1..], [meant[0][name := m]] + meant[1..])
  {
    hide Means;
    var envs', meant' := [envs[0][name := h]] + envs[1..], [meant[0][name := m]] + meant[1..];
    assert EnvMatches(nodes, envs[0], meant[0]);
    forall i | 0 <= i < |envs'| ensures EnvMatches(nodes, envs'[i], meant'[i]) {
      if i > 0 {
        assert envs'[i] == envs[i] && meant'[i] == meant[i] && EnvMatches(nodes, envs[i], meant[i]);
      }
    }
  }

  lemma EnterMatches(nodes: seq<Node>, envs: seq<map<string, int>>, meant: seq<map<string, Meaning>>)
    requires EnvsMatch(nodes, envs, meant)
    ensures EnvsMatch(nodes, [map[]] + envs, [map[]] + meant)
    ensures envs != [] ==> EnvsMatch(nodes, envs[1..], meant[1..])
  {
    hide Means;
    var envs', meant' := [map[]] + envs, [map[]] + meant;
    forall i | 0 <= i < |envs'| ensures EnvMatches(nodes, envs'[i], meant'[i]) {
      if i > 0 {
        assert envs'[i] == envs[i - 1] && meant'[i] == meant[i - 1] && EnvMatches(nodes, envs[i - 1], meant[i - 1]);
      }
    }
  }

  lemma HeldOne(nodes: seq<Node>, handles: seq<int>, held: seq<Meaning>, h: int, m: Meaning)
    requires HeldMatch(nodes, handles, held) && Means(nodes, h, m)
    ensures HeldMatch(nodes, handles + [h], held + [m])
  {
  }

  lemma HeldWithout(nodes: seq<Node>, handles: seq<int>, held: seq<Meaning>, k: nat)
    requires HeldMatch(nodes, handles, held) && k < |handles|
    ensures HeldMatch(nodes, handles[..k] + handles[k + 1..], held[..k] + held[k + 1..])
  {
    hide Means;
  }

  // ----- one command -----

  /** Entering, leaving and defining act on the scopes as on a stack of maps. */
  method PerformScope(c: Context, ghost lib: Arith, handles: seq<int>, command: Command, ghost w: World)
    requires Matches(c, handles, w) && c.scope != NULL && w.envs != [] && (command.Enter? || command.Leave? || command.Define?)
    modifies c`nodes, c`freelist, c`blocks, c`avail, c`view, c`rank, c`clock, c`held, c`scope, c`frames
    ensures Matches(c, handles, After(lib, w, command)) && c.scope != NULL
  {
    hide Holding, InOrder, FreeList, FreeExactly, Mirrors, ToMap, Shows, Neat, IsValue, Bound, EnvsMatch, HeldMatch, SameValues, Kept, Fewer;
    FramesOf(c);
    FramesHead(c.view, c.scope, c.frames);
    ghost var nodes0, frames0, envs0 := c.nodes, c.frames, Envs(c.frames);
    EnvsSize(frames0[1..]);
    MatchSizes(nodes0, envs0, w.envs);
    EnterMatches(nodes0, envs0, w.envs);
    match command
    case Enter =>
      JLEnterScope(c);
      KeptSame(nodes0, c.nodes);
      EnvsEnter(frames0, c.scope);
      HandlesStay(c, nodes0, handles);
      MatchStays(c, nodes0, handles, After(lib, w, command));
    case Leave =>
      if c.nodes[c.scope].outer != NULL {
        FramesHead(c.view, c.nodes[c.scope].outer, frames0[1..]);
        JLLeaveScope(c);
        FewerSame(nodes0, c.nodes);
        HandlesStay(c, nodes0, handles);
        MatchStays(c, nodes0, handles, After(lib, w, command));
      } else {
        FramesEnd(c.view, frames0[1..]);
      }
    case Define(name, k) =>
      HeldSizes(nodes0, handles, w.held);
      if k < |handles| {
        JLDefineValue(c, name, handles[k]);
        ghost var a :| c.frames == Bound(frames0, name, handles[k], a);
        EnvsBound(frames0, name, handles[k], a);
        BindMatches(nodes0, envs0, w.envs, name, handles[k], w.held[k]);
        HandlesStay(c, nodes0, handles);
        MatchStays(c, nodes0, handles, After(lib, w, command));
      }
  }

  lemma MatchSizes(nodes: seq<Node>, envs: seq<map<string, int>>, meant: seq<map<string, Meaning>>)
    requires EnvsMatch(nodes, envs, meant)
    ensures |envs| == |meant|
  {
  }

  lemma HeldSizes(nodes: seq<Node>, handles: seq<int>, held: seq<Meaning>)
    requires HeldMatch(nodes, handles, held)
    ensures |handles| == |held| && forall k :: 0 <= k < |handles| ==> Means(nodes, handles[k], held[k])
  {
  }

  lemma KeptSame(nodes: seq<Node>, nodes': seq<Node>)
    requires Kept(nodes, nodes')
    ensures SameValues(nodes, nodes')
  {
  }

  lemma FewerSame(nodes: seq<Node>, nodes': seq<Node>)
    requires Fewer(nodes, nodes')
    ensures SameValues(nodes, nodes')
  {
    assert forall i :: 0 <= i < |nodes| && Live(nodes'[i]) ==> Less(nodes[i], nodes'[i]);
  }

  lemma ReleasedSame(nodes: seq<Node>, nodes': seq<Node>, s: set<int>)
    requires Released(nodes, nodes', s)
    ensures SameValues(nodes, nodes')
  {
    assert forall i :: 0 <= i < |nodes| ==> Less(nodes[i], nodes'[i]);
  }

  method ReleaseHandle(c: Context, handles: seq<int>, k: nat) returns (after: seq<int>)
    requires Holds(c, handles) && k < |handles|
    modifies c`nodes, c`freelist, c`avail, c`view, c`held
    ensures after == handles[..k] + handles[k + 1..] && Holds(c, after) && SameValues(old(c.nodes), c.nodes)
  {
    hide Holding, InOrder, FreeList, FreeExactly, Mirrors, SameValues;
    ghost var nodes0 := c.nodes;
    after := handles[..k] + handles[k + 1..];
    Held(handles, k);
    GivenBack(Holding(after), Ref(handles[k]));
    AllClosed(c.view, c.rank, c.clock, c.held, c.scope, c.frames);
    c.JLRelease(handles[k], All(c.view));
    ReleasedSettled(nodes0, c.nodes, c.view, All(nodes0));
    ReleasedSame(nodes0, c.nodes, All(nodes0));
    HandlesStay(c, nodes0, after);
  }

  /** A new reference beside the others. */
  lemma NewHandle(c: Context, nodes: seq<Node>, handles: seq<int>, w: World, h: int, m: Meaning, error: bool)
    requires c.Settled() && c.held == Holding(handles) + Ref(h) && SameValues(nodes, c.nodes)
    requires (forall k :: 0 <= k < |handles| ==> IsValue(nodes, handles[k])) && IsValue(c.nodes, h) && Means(c.nodes, h, m)
    requires HeldMatch(nodes, handles, w.held) && EnvsMatch(nodes, Envs(c.frames), w.envs) && c.error == error
    ensures Matches(c, handles + [h], w.(held := w.held + [m], error := error))
  {
    hide Sound, SameValues, EnvsMatch, Envs, Means, Holding;
    HandleAdded(c, nodes, handles, h);
    BoundValues(c.view, c.rank, c.scope, c.frames);
    EnvsMatchStays(nodes, c.nodes, c.rank, Envs(c.frames), w.envs);
    forall k | 0 <= k < |handles| ensures IsValue(c.nodes, handles[k]) {
      assert (handles + [h])[k] == handles[k];
    }
    HeldMatchStays(nodes, c.nodes, c.rank, handles, w.held);
    HeldOne(c.nodes, handles, w.held, h, m);
  }

  /** What JLParse built means what was read. */
  lemma ParsedMeans(nodes: seq<Node>, nodes': seq<Node>, value: int, got: Got)
    requires Parsed(nodes, nodes', value, got) && !got.Astray?
    ensures Means(nodes', value, MeaningOf(got)) && IsValue(nodes', value)
  {
    if got.Got? {
      StandsKept(nodes', nodes', nodes'[value].content, got.sexp, NewSet(nodes, nodes') - {value}, All(nodes'));
    }
  }

  method PerformParse(c: Context, lib: Arith, handles: seq<int>, text: string, ghost w: World)
    returns (after: seq<int>, astray: bool)
    requires Matches(c, handles, w) && w.envs != []
    modifies c`nodes, c`freelist, c`blocks, c`avail, c`view, c`rank, c`clock, c`held, c`frames, c`error
    ensures c.Settled() && c.frames == old(c.frames) && astray == ReadTop(lib, text).got.Astray?
    ensures !astray ==> Matches(c, after, After(lib, w, Parse(text)))
  {
    hide Holding, InOrder, FreeList, FreeExactly, Mirrors, Envs, ReadTop, EnvsMatch, HeldMatch, Means, Parsed, Kept, SameValues, IsValue;
    ghost var nodes0 := c.nodes;
    var value, rest;
    value, rest, astray := JLParse(c, lib, text);
    KeptSame(nodes0, c.nodes);
    after := handles + [value];
    if !astray {
      ghost var r := ReadTop(lib, text);
      ParsedMeans(nodes0, c.nodes, value, r.got);
      NewHandle(c, nodes0, handles, w, value, MeaningOf(r.got), w.error || r.error);
    }
  }

  lemma UnboundSeen(nodes: seq<Node>, frames: seq<Frame>, meant: seq<map<string, Meaning>>, name: string)
    requires EnvsMatch(nodes, Envs(frames), meant)
    ensures Unbound(meant, name) <==> name !in Seen(frames)
  {
    hide Means;
    if frames != [] {
      var envs := Envs(frames);
      assert EnvMatches(nodes, envs[0], meant[0]);
      assert EnvsMatch(nodes, envs[1..], meant[1..]) by {
        forall i | 0 <= i < |envs| - 1 ensures EnvMatches(nodes, envs[1..][i], meant[1..][i]) {
          assert EnvMatches(nodes, envs[i + 1], meant[i + 1]);
        }
      }
      UnboundSeen(nodes, frames[1..], meant[1..], name);
      assert forall i :: 0 <= i < |meant| - 1 ==> meant[1..][i] == meant[i + 1];
      assert forall i :: 1 <= i < |meant| ==> meant[i] == meant[1..][i - 1];
    }
  }

  method PerformFind(c: Context, ghost lib: Arith, handles: seq<int>, name: string, ghost w: World) returns (after: seq<int>)
    requires Matches(c, handles, w) && w.envs != []
    modifies c`nodes, c`view, c`held, c`error
    ensures Matches(c, after, After(lib, w, Find(name)))
  {
    hide Holding, InOrder, FreeList, FreeExactly, Mirrors, Envs, EnvsMatch, HeldMatch, Means, SameValues, IsValue, Seen, Innermost, See;
    ghost var nodes0 := c.nodes;
    var value := Lookup(c, name);
    SeenInnermost(c.frames, name);
    SeeMatches(nodes0, Envs(c.frames), w.envs, name);
    UnboundSeen(nodes0, c.frames, w.envs, name);
    BoundNow(c);
    InnermostValue(nodes0, Envs(c.frames), name);
    c.JLRetain(value);
    Retained(nodes0, c.nodes, value);
    after := handles + [value];
    RankedSound(c);
    MeansStays(nodes0, c.nodes, c.rank, value, See(w.envs, name));
    NewHandle(c, nodes0, handles, w, value, See(w.envs, name), w.error || Unbound(w.envs, name));
  }

  lemma BoundNow(c: Context)
    requires c.Settled()
    ensures AllValues(c.nodes, Envs(c.frames))
  {
    BoundValues(c.view, c.rank, c.scope, c.frames);
  }

  lemma RankedSound(c: Context)
    requires c.Settled()
    ensures Sound(c.nodes, c.rank)
  {
  }

  method PerformCopy(c: Context, ghost lib: Arith, handles: seq<int>, k: nat, ghost w: World) returns (after: seq<int>)
    requires Matches(c, handles, w) && w.envs != []
    modifies c`nodes, c`freelist, c`blocks, c`avail, c`view, c`rank, c`clock, c`held, c`frames
    ensures Matches(c, after, After(lib, w, Copy(k))) && c.frames == old(c.frames)
  {
    hide Holding, InOrder, FreeList, FreeExactly, Mirrors, Envs, EnvsMatch, HeldMatch, SameValues, IsValue, Means;
    after := handles;
    HeldSizes(c.nodes, handles, w.held);
    if k < |handles| {
      ghost var nodes0 := c.nodes;
      var value := CopyValue(c, handles[k]);
      OwnRef(value);
      RankedSound(c);
      CopyMeans(nodes0, c.nodes, c.rank, handles[k], value, w.held[k]);
      after := handles + [value];
      NewHandle(c, nodes0, handles, w, value, if w.held[k] == Null then Blank else w.held[k], w.error);
    }
  }

  lemma CopyMeans(nodes: seq<Node>, nodes': seq<Node>, rank: seq<int>, p: int, q: nat, m: Meaning)
    requires Means(nodes, p, m) && SameValues(nodes, nodes') && Sound(nodes', rank) && q < |nodes'|
    requires nodes'[q] == Value(1, if p == NULL then Content.Nil else nodes[p].content, NULL)
    ensures Means(nodes', q, if m == Null then Blank else m) && IsValue(nodes', q)
  {
    hide Sound;
    SoundAt(nodes', rank, q);
    if m.Is? {
      StandsStays(nodes, nodes', rank, nodes[p].content, m.sexp);
    }
  }

  method PerformRelease(c: Context, ghost lib: Arith, handles: seq<int>, k: nat, ghost w: World) returns (after: seq<int>)
    requires Matches(c, handles, w) && w.envs != []
    modifies c`nodes, c`freelist, c`avail, c`view, c`held
    ensures Matches(c, after, After(lib, w, Release(k)))
  {
    hide Holding, InOrder, FreeList, FreeExactly, Mirrors, Envs, EnvsMatch, HeldMatch, SameValues, IsValue, Means;
    after := handles;
    HeldSizes(c.nodes, handles, w.held);
    if k < |handles| {
      ghost var nodes0 := c.nodes;
      HeldWithout(nodes0, handles, w.held, k);
      after := ReleaseHandle(c, handles, k);
      MatchStays(c, nodes0, after, After(lib, w, Release(k)));
    }
  }

  /** One command on a context in the state w. */
  method Perform(c: Context, lib: Arith, handles: seq<int>, command: Command, ghost w: World)
    returns (after: seq<int>, astray: bool)
    requires Matches(c, handles, w) && c.scope != NULL && w.envs != []
    modifies c
    ensures astray <==> command.Parse? && ReadTop(lib, command.text).got.Astray?
    ensures c.Settled() && (!astray ==> Matches(c, after, After(lib, w, command)) && c.scope != NULL)
  {
    hide Holding, InOrder, FreeList, FreeExactly, Mirrors, Envs, EnvsMatch, HeldMatch, IsValue, Means, ReadTop, After;
    after, astray := handles, false;
    match command
    case Parse(text) => after, astray := PerformParse(c, lib, handles, text, w);
    case Find(name) => after := PerformFind(c, lib, handles, name, w);
    case Copy(k) => after := PerformCopy(c, lib, handles, k, w);
    case Release(k) => after := PerformRelease(c, lib, handles, k, w);
    case _ => PerformScope(c, lib, handles, command, w);
  }

  // ----- whole runs -----

  /** Every run ends in the state that After, folded over its commands, says, unless a text leads the reader astray. */
  method Play(lib: Arith, commands: seq<Command>) returns (c: Context, handles: seq<int>, astray: bool)
    ensures fresh(c) && c.Settled() && astray == Strays(lib, commands)
    ensures !astray ==> Matches(c, handles, AfterAll(lib, commands))
  {
    hide Context.Settled, Matches, ReadTop, After;
    c := JLCreateContext();
    handles, astray := [], false;
    StartMatches(c);
    for i := 0 to |commands|
      invariant fresh(c) && c.Settled() && c.scope != NULL && !Strays(lib, commands[..i])
      invariant Matches(c, handles, AfterAll(lib, commands[..i]))
    {
      assert commands[..i + 1][..i] == commands[..i];
      handles, astray := Perform(c, lib, handles, commands[i], AfterAll(lib, commands[..i]));
      if astray {
        assert commands[i].Parse?;
        return;
      }
    }
    assert commands[..|commands|] == commands;
  }

  lemma StartMatches(c: Context)
    requires c.Settled() && c.held == multiset{} && |c.frames| == 1 && !c.error && Seen(c.frames) == map["nil" := NULL]
    ensures Matches(c, [], Start) && c.scope != NULL
  {
    var envs := Envs(c.frames);
    assert c.frames[1..] == [] && Envs(c.frames[1..]) == [];
    assert envs == [ToMap(c.frames[0].tree)];
    assert Seen(c.frames) == map[] + ToMap(c.frames[0].tree) == ToMap(c.frames[0].tree);
    assert EnvMatches(c.nodes, envs[0], Start.envs[0]);
  }

  /** What JLPrint shows of it. */
  function Shown(lib: Arith, m: Meaning): string {
    if m.Is? then Show(lib, m.sexp) else "nil"
  }

  predicate TypedMeaning(lib: Arith, m: Meaning) {
    m.Is? ==> Typed(lib, m.sexp)
  }

  predicate AllTyped(lib: Arith, w: World) {
    && (forall k :: 0 <= k < |w.held| ==> TypedMeaning(lib, w.held[k]))
    && forall i, name :: 0 <= i < |w.envs| && name in w.envs[i] ==> TypedMeaning(lib, w.envs[i][name])
  }

  lemma {:induction false} SeeTyped(lib: Arith, envs: seq<map<string, Meaning>>, name: string)
    requires forall i, n :: 0 <= i < |envs| && n in envs[i] ==> TypedMeaning(lib, envs[i][n])
    ensures TypedMeaning(lib, See(envs, name))
  {
    if envs != [] && name !in envs[0] {
      assert forall i, n :: 0 <= i < |envs[1..]| && n in envs[1..][i] ==> n in envs[i + 1] && envs[1..][i][n] == envs[i + 1][n];
      SeeTyped(lib, envs[1..], name);
    }
  }

  lemma AfterTyped(lib: Arith, w: World, command: Command)
    requires w.envs != [] && AllTyped(lib, w)
    ensures AllTyped(lib, After(lib, w, command))
  {
    hide Typed, ReadExpr;
    match command
    case Enter =>
    case Leave =>
    case Parse(text) => ReadIsTyped(lib, text);
    case Define(_, _) =>
    case Find(name) => SeeTyped(lib, w.envs, name);
    case Copy(_) =>
    case Release(_) =>
  }

  /** Everything a run binds or holds is typed. */
  lemma {:induction false} RunTyped(lib: Arith, commands: seq<Command>)
    ensures AllTyped(lib, AfterAll(lib, commands))
  {
    if commands != [] {
      RunTyped(lib, commands[..|commands| - 1]);
      AfterTyped(lib, AfterAll(lib, commands[..|commands| - 1]), commands[|commands| - 1]);
    }
  }

  /** What a run prints of an expression is read as that expression again, and nothing is left over, exactly if printing
      keeps every part of it. */
  lemma PrintedBack(lib: Arith, commands: seq<Command>, k: nat)
    requires Sane(lib) && k < |AfterAll(lib, commands).held| && AfterAll(lib, commands).held[k].Is?
    ensures var m := AfterAll(lib, commands).held[k];
      ReadTop(lib, Shown(lib, m)) == Read(Got(m.sexp), [], false) <==> Readable(lib, m.sexp)
  {
    hide Sane, Readable, ReadExpr, AfterAll;
    RunTyped(lib, commands);
    var m := AfterAll(lib, commands).held[k];
    assert TypedMeaning(lib, m);
    ReadsBackExactly(lib, m.sexp, []);
    assert Shown(lib, m) + [] == Shown(lib, m);
  }

  method PrintAll(c: Context, lib: Arith, handles: seq<int>, ghost held: seq<Meaning>) returns (out: seq<string>)
    requires HeldMatch(c.nodes, handles, held)
    ensures |out| == |held| && forall k :: 0 <= k < |held| ==> out[k] == Shown(lib, held[k])
  {
    hide Show, Stands;
    out := [];
    for k := 0 to |handles|
      invariant |out| == k && forall i :: 0 <= i < k ==> out[i] == Shown(lib, held[i])
    {
      ghost var m := held[k];
      assert Means(c.nodes, handles[k], m);
      if handles[k] != NULL {
        StandsNotNil(c.nodes, handles[k], m);
      }
      var line := JLPrint(c, lib, handles[k], if m.Is? then m.sexp else Seq([]), All(c.nodes));
      out := out + [line];
    }
  }

  lemma StandsNotNil(nodes: seq<Node>, p: int, m: Meaning)
    requires Means(nodes, p, m) && p != NULL
    ensures nodes[p].content == Content.Nil <==> m == Blank
  {
  }

  /** A run, what it leaves to print, and the end of it: whatever was done, no node stays in use. */
  method Run(lib: Arith, commands: seq<Command>) returns (c: Context, out: seq<string>, error: bool, astray: bool)
    ensures fresh(c) && c.Settled() && astray == Strays(lib, commands)
    ensures !astray ==> |c.avail| == BLOCK_SIZE * c.blocks
    ensures !astray ==>
      var w := AfterAll(lib, commands);
      error == w.error && |out| == |w.held| && forall k :: 0 <= k < |out| ==> out[k] == Shown(lib, w.held[k])
  {
    hide Holding, InOrder, FreeList, FreeExactly, Mirrors, Envs, AfterAll, Strays, EnvsMatch, HeldMatch;
    var handles;
    out, error := [], false;
    c, handles, astray := Play(lib, commands);
    if astray { return; }
    out := PrintAll(c, lib, handles, AfterAll(lib, commands).held);
    error := c.error;
    while handles != []
      invariant fresh(c) && Holds(c, handles)
      decreases |handles|
    {
      handles := ReleaseHandle(c, handles, |handles| - 1);
    }
    assert Holding([]) == multiset{} by { NoHandles(); }
    while c.scope != NULL
      invariant fresh(c) && c.Settled() && c.held == multiset{}
      decreases |c.frames|
    {
      JLLeaveScope(c);
    }
    FramesOf(c);
    FramesEnd(c.view, c.frames);
    AllFree(c);
  }

  lemma NoHandles()
    ensures Holding([]) == multiset{}
  {
  }
}
