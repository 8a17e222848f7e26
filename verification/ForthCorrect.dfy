/** The item list of a word, and why running it means what the word means. */
module ForthCorrect {
  import opened ForthWords
  import opened ForthSource
  import opened ForthMachine

  /** The item list of a block. Branch offsets are relative, so it may lie anywhere. */
  function Code(b: Block): seq<Item> {
    match b
    case Nil => []
    case Seq(head, tail) => StmtCode(head) + Code(tail)
  }

  function StmtCode(st: Stmt): seq<Item> {
    match st
    case Push(n) => [Literal(n)]
    case Do(op) => [PrimWord(op)]
    case Index => [ControlWord(CIndex)]
    case Counter => [ControlWord(CCounter)]
    case If(chain) => [Branch(Offset(chain)), ControlWord(CIf)] + ChainCode(chain)
    case DoLoop(body) => [Label, ControlWord(CDo)] + Code(body) + [Label, ControlWord(CLoop)]
    case ForLoop(body) => [Label, ControlWord(CFor)] + Code(body) + [Label, ControlWord(CForLoop)]
    case Call(word) => [UserWord(word)]
    case Recurse => [Recursive]
  }

  /** The parts of a conditional, each with the elif or endif that closes it. */
  function ChainCode(c: Chain): seq<Item> {
    match c
    case Last(b) => Code(b) + [ControlWord(CEndif)]
    case Elif(b, rest) => Code(b) + [Branch(Offset(rest)), ControlWord(CElif)] + ChainCode(rest)
  }

  /** What the branch before a part jumps over: the part, and the items of an elif that closes it. */
  function Offset(c: Chain): nat {
    match c
    case Last(b) => |Code(b)|
    case Elif(b, _) => |Code(b)| + 2
  }

  function Compiled(b: Block): seq<Item> {
    Code(b) + [End]
  }

  /** The compiled form of all words. */
  function Link(e: Env): Program {
    Program(map w | w in e.words :: Compiled(e.words[w]), Compiled(e.self))
  }

  // ----- runs of the machine -----

  /** From ip the machine comes to ip' in k items, whatever happens then. */
  ghost predicate Reaches(p: Program, ip: int, st: State, ip': int, st': State, k: nat) {
    forall f: nat :: Run(p, ip, st, f) == if f < k then MTimeout else Run(p, ip', st', f - k)
  }

  ghost predicate Fails(p: Program, ip: int, st: State, k: nat) {
    forall f: nat :: Run(p, ip, st, f) == if f < k then MTimeout else MFault
  }

  /** From ip the machine does not end within n items. */
  ghost predicate Stalls(p: Program, ip: int, st: State, n: nat) {
    forall f: nat :: f <= n ==> Run(p, ip, st, f) == MTimeout
  }

  lemma ReachesNone(p: Program, ip: int, st: State)
    ensures Reaches(p, ip, st, ip, st, 0)
  {
  }

  lemma ReachesThen(p: Program, a: int, s: State, b: int, t: State, k: nat, c: int, u: State, j: nat)
    requires Reaches(p, a, s, b, t, k) && Reaches(p, b, t, c, u, j)
    ensures Reaches(p, a, s, c, u, k + j)
  {
    hide Run;
    forall f: nat
      ensures Run(p, a, s, f) == if f < k + j then MTimeout else Run(p, c, u, f - (k + j))
    {
      if f >= k {
        assert Run(p, b, t, f - k) == if f - k < j then MTimeout else Run(p, c, u, f - k - j);
      }
    }
  }

  lemma FailsThen(p: Program, a: int, s: State, b: int, t: State, k: nat, j: nat)
    requires Reaches(p, a, s, b, t, k) && Fails(p, b, t, j)
    ensures Fails(p, a, s, k + j)
  {
    hide Run;
    forall f: nat
      ensures Run(p, a, s, f) == if f < k + j then MTimeout else MFault
    {
      if f >= k {
        assert Run(p, b, t, f - k) == if f - k < j then MTimeout else MFault;
      }
    }
  }

  lemma StallsThen(p: Program, a: int, s: State, b: int, t: State, k: nat, n: nat)
    requires Reaches(p, a, s, b, t, k) && Stalls(p, b, t, n)
    ensures Stalls(p, a, s, n + k)
  {
    hide Run;
    forall f: nat | f <= n + k
      ensures Run(p, a, s, f) == MTimeout
    {
      if f >= k {
        assert Run(p, b, t, f - k) == MTimeout;
      }
    }
  }

  // ----- what the machine makes of a piece of code -----

  /** The machine's answer to the result r of the reference: from ip it comes to ip' with r's data stack and the loop
      stack l, or fails, or does not end within fuel items. */
  ghost predicate Agrees(p: Program, ip: int, st: State, ip': int, l: seq<int>, r: Result, fuel: nat, k: nat) {
    match r
    case Ok(s') => Reaches(p, ip, st, ip', State(s', l), k)
    case Fault => Fails(p, ip, st, k)
    case Timeout => Stalls(p, ip, st, fuel)
  }

  lemma AgreesAfter(p: Program, a: int, s: State, b: int, t: State, j: nat, c: int, l: seq<int>, r: Result, fuel: nat, k: nat)
    requires Reaches(p, a, s, b, t, j) && Agrees(p, b, t, c, l, r, fuel, k)
    ensures Agrees(p, a, s, c, l, r, fuel + j, j + k)
  {
    hide Reaches, Fails, Stalls;
    match r
    case Ok(s') => ReachesThen(p, a, s, b, t, j, c, State(s', l), k);
    case Fault => FailsThen(p, a, s, b, t, j, k);
    case Timeout => StallsThen(p, a, s, b, t, j, fuel);
  }

  lemma AgreesLess(p: Program, a: int, s: State, c: int, l: seq<int>, r: Result, fuel: nat, k: nat, m: nat)
    requires Agrees(p, a, s, c, l, r, fuel, k) && m <= fuel
    ensures Agrees(p, a, s, c, l, r, m, k)
  {
  }

  /** The loop stack holds the frames, each above the label of its loop. */
  ghost predicate Holds(l: seq<int>, fs: seq<Frame>)
    decreases |fs|
  {
    if fs == [] then l == []
    else match fs[|fs| - 1]
      case DoFrame(index, limit) => |l| >= 3 && l[|l| - 2] == index && l[|l| - 1] == limit && Holds(l[..|l| - 3], fs[..|fs| - 1])
      case ForFrame(a, b, c) => |l| >= 4 && l[|l| - 3] == c && l[|l| - 2] == b && l[|l| - 1] == a && Holds(l[..|l| - 4], fs[..|fs| - 1])
  }

  /** The items at ip are those of code. */
  ghost predicate At(p: Program, ip: int, code: seq<Item>) {
    0 <= ip && ip + |code| <= |p.code| && p.code[ip..ip + |code|] == code
  }

  lemma AtPart(p: Program, ip: int, a: seq<Item>, b: seq<Item>)
    requires At(p, ip, a + b)
    ensures At(p, ip, a) && At(p, ip + |a|, b)
  {
    var code := p.code[ip..ip + |a + b|];
    assert p.code[ip..ip + |a|] == code[..|a|];
    assert p.code[ip + |a|..ip + |a| + |b|] == code[|a|..];
  }

  lemma AtHead(p: Program, ip: int, x: Item, b: seq<Item>)
    requires At(p, ip, [x] + b)
    ensures 0 <= ip < |p.code| && p.code[ip] == x && At(p, ip + 1, b)
  {
    AtPart(p, ip, [x], b);
    assert p.code[ip..ip + 1][0] == x;
  }

  // ----- single items -----

  predicate IsCall(x: Item) {
    x.UserWord? || x.Recursive? || x.End?
  }

  /** Where an item other than a call or the end leads. */
  function Next(x: Item, ip: int, st: State): Option<(int, State)>
    requires !IsCall(x)
  {
    match x
    case Literal(n) => Some((ip + 1, State(st.s + [n], st.l)))
    case Branch(offset) => Some((ip + 1, State(st.s + [offset], st.l)))
    case Label => Some((ip + 1, State(st.s, st.l + [ip])))
    case PrimWord(op) =>
      var r := Apply(op, st.s);
      if r.Some? then Some((ip + 1, State(r.value, st.l))) else None
    case ControlWord(c) =>
      var m := Act(c, st);
      if m.Move? then Some((ip + m.ret + 1, m.st)) else None
  }

  lemma OneItem(p: Program, ip: int, st: State)
    requires 0 <= ip < |p.code| && !IsCall(p.code[ip])
    ensures var n := Next(p.code[ip], ip, st);
            if n.Some? then Reaches(p, ip, st, n.value.0, n.value.1, 1) else Fails(p, ip, st, 1)
  {
    hide Apply, Act;
  }

  /** A call runs the other word from its start to its end mark and goes on. */
  lemma CallAgrees(p: Program, ip: int, q: Program, n: int, st: State, r: Result, fuel: nat, k: nat)
    requires 0 <= ip < |p.code| && 0 <= n < |q.code| && q.code[n] == End
    requires if p.code[ip].UserWord?
             then p.code[ip].name in p.words && q == Program(p.words, p.words[p.code[ip].name])
             else p.code[ip] == Recursive && q == p
    requires Agrees(q, 0, st, n, st.l, r, fuel, k)
    ensures Agrees(p, ip, st, ip + 1, st.l, r, fuel + 1, if r.Ok? then k + 2 else k + 1)
  {
    match r
    case Ok(s') =>
      forall f: nat
        ensures Run(p, ip, st, f) == if f < k + 2 then MTimeout else Run(p, ip + 1, State(s', st.l), f - (k + 2))
      {
        if f > 0 {
          assert Run(q, 0, st, f - 1) == if f - 1 < k then MTimeout else Run(q, n, State(s', st.l), f - 1 - k);
        }
      }
    case Fault =>
      forall f: nat
        ensures Run(p, ip, st, f) == if f < k + 1 then MTimeout else MFault
      {
        if f > 0 {
          assert Run(q, 0, st, f - 1) == if f - 1 < k then MTimeout else MFault;
        }
      }
    case Timeout =>
      forall f: nat | f <= fuel + 1
        ensures Run(p, ip, st, f) == MTimeout
      {
        if f > 0 {
          assert Run(q, 0, st, f - 1) == MTimeout;
        }
      }
  }

  lemma HoldsMore(l: seq<int>, fs: seq<Frame>, lab: int)
    requires Holds(l, fs)
    ensures forall i, n :: Holds(l + [lab, i, n], fs + [DoFrame(i, n)])
    ensures forall a, b, c :: Holds(l + [lab, c, b, a], fs + [ForFrame(a, b, c)])
  {
    hide Holds;
    forall i, n
      ensures Holds(l + [lab, i, n], fs + [DoFrame(i, n)])
    {
      HoldsDo(l, fs, lab, i, n);
    }
    forall a, b, c
      ensures Holds(l + [lab, c, b, a], fs + [ForFrame(a, b, c)])
    {
      HoldsFor(l, fs, lab, a, b, c);
    }
  }

  lemma HoldsDo(l: seq<int>, fs: seq<Frame>, lab: int, i: int, n: int)
    requires Holds(l, fs)
    ensures Holds(l + [lab, i, n], fs + [DoFrame(i, n)])
  {
    assert (l + [lab, i, n])[..|l|] == l && (fs + [DoFrame(i, n)])[..|fs|] == fs;
  }

  lemma HoldsFor(l: seq<int>, fs: seq<Frame>, lab: int, a: int, b: int, c: int)
    requires Holds(l, fs)
    ensures Holds(l + [lab, c, b, a], fs + [ForFrame(a, b, c)])
  {
    assert (l + [lab, c, b, a])[..|l|] == l && (fs + [ForFrame(a, b, c)])[..|fs|] == fs;
  }

  lemma HoldsTop(l: seq<int>, fs: seq<Frame>)
    requires Holds(l, fs)
    ensures fs == [] ==> l == []
    ensures fs != [] ==> |l| >= 3 && IndexOf(fs) == Some(l[|l| - 2]) && CounterOf(fs) == Some(l[|l| - 1])
  {
  }

  // ----- the proof, along the syntax -----

  /** Running the code of a block does what the block means. */
  lemma {:induction false} BlockAgrees(e: Env, b: Block, ip: int, s: seq<int>, l: seq<int>, fs: seq<Frame>, fuel: nat)
      returns (k: nat)
    requires At(Link(e), ip, Code(b)) && Holds(l, fs)
    ensures Agrees(Link(e), ip, State(s, l), ip + |Code(b)|, l, ExecBlock(e, b, s, fs, fuel), fuel, k)
    decreases fuel, b, 0
  {
    hide Reaches, Fails, Stalls, Agrees, Holds, At, Run, Link, StmtCode, ExecStmt;
    var p := Link(e);
    match b
    case Nil =>
      k := 0;
      ReachesNone(p, ip, State(s, l));
      AgreesOk(p, ip, State(s, l), ip, l, s, fuel, 0);
    case Seq(head, tail) =>
      AtPart(p, ip, StmtCode(head), Code(tail));
      k := StmtAgrees(e, head, ip, s, l, fs, fuel);
      var r := ExecStmt(e, head, s, fs, fuel);
      if r.Ok? {
        var j := BlockAgrees(e, tail, ip + |StmtCode(head)|, r.stack, l, fs, fuel);
        AgreesThen(p, ip, State(s, l), ip + |StmtCode(head)|, l, r.stack, fuel, k, ip + |Code(b)|, l,
                   ExecBlock(e, tail, r.stack, fs, fuel), j);
        k := k + j;
      } else {
        AgreesEnd(p, ip, State(s, l), ip + |StmtCode(head)|, l, r, fuel, k, ip + |Code(b)|, l);
      }
  }

  lemma AgreesOk(p: Program, ip: int, st: State, ip': int, l: seq<int>, s: seq<int>, fuel: nat, k: nat)
    requires Reaches(p, ip, st, ip', State(s, l), k)
    ensures Agrees(p, ip, st, ip', l, Ok(s), fuel, k)
  {
  }

  /** A part that ends well, and then another. */
  lemma AgreesThen(p: Program, a: int, st: State, b: int, m: seq<int>, s: seq<int>, fuel: nat, k: nat,
                   c: int, l: seq<int>, r: Result, j: nat)
    requires Agrees(p, a, st, b, m, Ok(s), fuel, k) && Agrees(p, b, State(s, m), c, l, r, fuel, j)
    ensures Agrees(p, a, st, c, l, r, fuel, k + j)
  {
    hide Reaches, Fails, Stalls;
    AgreesAfter(p, a, st, b, State(s, m), k, c, l, r, fuel, j);
    AgreesLess(p, a, st, c, l, r, fuel + k, k + j, fuel);
  }

  /** A part that does not end well decides for what follows it. */
  lemma AgreesEnd(p: Program, a: int, st: State, b: int, m: seq<int>, r: Result, fuel: nat, k: nat, c: int, l: seq<int>)
    requires Agrees(p, a, st, b, m, r, fuel, k) && !r.Ok?
    ensures Agrees(p, a, st, c, l, r, fuel, k)
  {
  }

  lemma {:induction false} StmtAgrees(e: Env, st: Stmt, ip: int, s: seq<int>, l: seq<int>, fs: seq<Frame>, fuel: nat)
      returns (k: nat)
    requires At(Link(e), ip, StmtCode(st)) && Holds(l, fs)
    ensures Agrees(Link(e), ip, State(s, l), ip + |StmtCode(st)|, l, ExecStmt(e, st, s, fs, fuel), fuel, k)
    decreases fuel, st, 0
  {
    hide Reaches, Fails, Stalls, Holds, Run, Link, ExecChain, ExecDo, ExecFor, ExecBlock, Offset, ChainCode, Code, Apply;
    k := 1;
    var p := Link(e);
    match st
    case Push(_) => assert p.code[ip..ip + 1][0] == p.code[ip]; OneItem(p, ip, State(s, l));
    case Do(_) => assert p.code[ip..ip + 1][0] == p.code[ip]; OneItem(p, ip, State(s, l));
    case Index => assert p.code[ip..ip + 1][0] == p.code[ip]; OneItem(p, ip, State(s, l)); HoldsTop(l, fs);
    case Counter => assert p.code[ip..ip + 1][0] == p.code[ip]; OneItem(p, ip, State(s, l)); HoldsTop(l, fs);
    case If(chain) => k := IfAgrees(e, chain, ip, s, l, fs, fuel);
    case DoLoop(body) => k := DoLoopAgrees(e, body, ip, s, l, fs, fuel);
    case ForLoop(body) => k := ForLoopAgrees(e, body, ip, s, l, fs, fuel);
    case Call(word) =>
      if fuel > 0 && word in e.words {
        var q := Env(e.words, e.words[word]);
        WholeWord(q);
        k := BlockAgrees(q, e.words[word], 0, s, l, fs, fuel - 1);
        k := CallStmt(e, st, q, ip, s, l, fs, fuel, k);
      } else {
        CallFails(e, word, ip, s, l, fuel);
      }
    case Recurse =>
      if fuel > 0 {
        WholeWord(e);
        k := BlockAgrees(e, e.self, 0, s, l, fs, fuel - 1);
        k := CallStmt(e, st, e, ip, s, l, fs, fuel, k);
      } else {
        StallsAtOnce(p, ip, State(s, l));
      }
  }

  /** A word's item list is its code and the end mark. */
  lemma WholeWord(e: Env)
    ensures At(Link(e), 0, Code(e.self)) && |Link(e).code| == |Code(e.self)| + 1 && Link(e).code[|Code(e.self)|] == End
  {
    hide Code;
    assert Compiled(e.self)[0..|Code(e.self)|] == Code(e.self);
  }

  lemma StallsAtOnce(p: Program, ip: int, st: State)
    ensures Stalls(p, ip, st, 0)
  {
  }

  lemma CallStmt(e: Env, st: Stmt, q: Env, ip: int, s: seq<int>, l: seq<int>, fs: seq<Frame>, fuel: nat, j: nat) returns (k: nat)
    requires At(Link(e), ip, StmtCode(st)) && fuel > 0
    requires (st.Call? && st.word in e.words && q == Env(e.words, e.words[st.word])) || (st == Recurse && q == e)
    requires Agrees(Link(q), 0, State(s, l), |Code(q.self)|, l, ExecBlock(q, q.self, s, fs, fuel - 1), fuel - 1, j)
    ensures Agrees(Link(e), ip, State(s, l), ip + 1, l, ExecStmt(e, st, s, fs, fuel), fuel, k)
  {
    hide Agrees, Code, ExecBlock;
    var p := Link(e);
    assert p.code[ip..ip + 1][0] == p.code[ip];
    WholeWord(q);
    var r := ExecBlock(q, q.self, s, fs, fuel - 1);
    CallAgrees(p, ip, Link(q), |Code(q.self)|, State(s, l), r, fuel - 1, j);
    k := if r.Ok? then j + 2 else j + 1;
  }

  lemma CallFails(e: Env, word: string, ip: int, s: seq<int>, l: seq<int>, fuel: nat)
    requires At(Link(e), ip, [UserWord(word)]) && (fuel == 0 || word !in e.words)
    ensures Agrees(Link(e), ip, State(s, l), ip + 1, l, if fuel == 0 then Timeout else Fault, fuel, 1)
  {
    var p := Link(e);
    assert p.code[ip..ip + 1][0] == p.code[ip];
    if fuel == 0 {
      StallsAtOnce(p, ip, State(s, l));
    }
  }

  // ----- conditionals -----

  /** The branch offset is pushed, and if takes it when the flag is not true. */
  lemma {:induction false} IfAgrees(e: Env, c: Chain, ip: int, s: seq<int>, l: seq<int>, fs: seq<Frame>, fuel: nat) returns (k: nat)
    requires At(Link(e), ip, StmtCode(If(c))) && Holds(l, fs)
    ensures Agrees(Link(e), ip, State(s, l), ip + |StmtCode(If(c))|, l, ExecStmt(e, If(c), s, fs, fuel), fuel, k)
    decreases fuel, c, 2
  {
    hide Reaches, Fails, Stalls, Holds, Run, Link, ExecChain, Offset, ChainCode, At, Agrees;
    var p, n := Link(e), |s|;
    k := 2;
    assert StmtCode(If(c)) == [Branch(Offset(c))] + ([ControlWord(CIf)] + ChainCode(c));
    AtHead(p, ip, Branch(Offset(c)), [ControlWord(CIf)] + ChainCode(c));
    AtHead(p, ip + 1, ControlWord(CIf), ChainCode(c));
    var pushed := State(s + [Offset(c)], l);
    OneItem(p, ip, State(s, l));
    OneItem(p, ip + 1, pushed);
    if n < 1 {
      FailsThen(p, ip, State(s, l), ip + 1, pushed, 1, 1);
      AgreesFault(p, ip, State(s, l), ip + |StmtCode(If(c))|, l, fuel, 2);
    } else {
      var on := s[n - 1] == FORTH_TRUE;
      var start, st := if on then ip + 2 else ip + 2 + Offset(c), State(s[..n - 1], l);
      assert pushed.s[..n - 1] == s[..n - 1];
      ReachesThen(p, ip, State(s, l), ip + 1, pushed, 1, start, st, 1);
      k := ChainAgrees(e, c, ip + 2, on, s[..n - 1], l, fs, fuel);
      var r := ExecChain(e, c, on, s[..n - 1], fs, fuel);
      AgreesAfter(p, ip, State(s, l), start, st, 2, ip + |StmtCode(If(c))|, l, r, fuel, k);
      AgreesLess(p, ip, State(s, l), ip + |StmtCode(If(c))|, l, r, fuel + 2, k + 2, fuel);
      k := k + 2;
    }
  }

  lemma AgreesFault(p: Program, ip: int, st: State, ip': int, l: seq<int>, fuel: nat, k: nat)
    requires Fails(p, ip, st, k)
    ensures Agrees(p, ip, st, ip', l, Fault, fuel, k)
  {
  }

  /** A chain entered at its first part, or past that part when the part is off. */
  lemma {:induction false} ChainAgrees(e: Env, c: Chain, ip: int, on: bool, s: seq<int>, l: seq<int>, fs: seq<Frame>, fuel: nat)
      returns (k: nat)
    requires At(Link(e), ip, ChainCode(c)) && Holds(l, fs)
    ensures Agrees(Link(e), if on then ip else ip + Offset(c), State(s, l), ip + |ChainCode(c)|, l,
                   ExecChain(e, c, on, s, fs, fuel), fuel, k)
    decreases fuel, c, 1
  {
    hide Reaches, Fails, Stalls, Holds, Run, Link, ExecBlock, At, Agrees, Code;
    var p, n := Link(e), |Code(c.b)|;
    var tail := ChainCode(c)[n..];
    assert ChainCode(c) == Code(c.b) + tail;
    AtPart(p, ip, Code(c.b), tail);
    if on {
      k := BlockAgrees(e, c.b, ip, s, l, fs, fuel);
      var r := ExecBlock(e, c.b, s, fs, fuel);
      if r.Ok? {
        var j := ChainTail(e, c, ip, true, r.stack, l, fs, fuel);
        AgreesThen(p, ip, State(s, l), ip + n, l, r.stack, fuel, k, ip + |ChainCode(c)|, l,
                   if c.Elif? then ExecChain(e, c.rest, false, r.stack, fs, fuel) else r, j);
        k := k + j;
      } else {
        AgreesEnd(p, ip, State(s, l), ip + n, l, r, fuel, k, ip + |ChainCode(c)|, l);
      }
    } else {
      k := ChainTail(e, c, ip, false, s, l, fs, fuel);
    }
  }

  /** What follows a part that has run (at its elif or endif) or been jumped over (behind its elif, or at its endif). */
  lemma {:induction false} ChainTail(e: Env, c: Chain, ip: int, ran: bool, s: seq<int>, l: seq<int>, fs: seq<Frame>, fuel: nat)
      returns (k: nat)
    requires At(Link(e), ip + |Code(c.b)|, ChainCode(c)[|Code(c.b)|..]) && Holds(l, fs)
    ensures Agrees(Link(e), if ran then ip + |Code(c.b)| else ip + Offset(c), State(s, l), ip + |ChainCode(c)|, l,
                   if c.Elif? then ExecChain(e, c.rest, !ran, s, fs, fuel) else Ok(s), fuel, k)
    decreases fuel, c, 0
  {
    hide Reaches, Fails, Stalls, Holds, Run, Link, ExecChain, At, Agrees, Code;
    var p, m := Link(e), ip + |Code(c.b)|;
    match c
    case Last(b) =>
      assert ChainCode(c)[|Code(b)|..] == [ControlWord(CEndif)] + [];
      AtHead(p, m, ControlWord(CEndif), []);
      OneItem(p, m, State(s, l));
      AgreesOk(p, m, State(s, l), m + 1, l, s, fuel, 1);
      k := 1;
    case Elif(b, rest) =>
      var jump := Branch(Offset(rest));
      assert ChainCode(c)[|Code(b)|..] == [jump] + ([ControlWord(CElif)] + ChainCode(rest));
      AtHead(p, m, jump, [ControlWord(CElif)] + ChainCode(rest));
      AtHead(p, m + 1, ControlWord(CElif), ChainCode(rest));
      k := ChainAgrees(e, rest, m + 2, !ran, s, l, fs, fuel);
      if ran {
        var pushed, to := State(s + [Offset(rest)], l), m + 2 + Offset(rest);
        OneItem(p, m, State(s, l));
        OneItem(p, m + 1, pushed);
        assert pushed.s[..|s|] == s;
        ReachesThen(p, m, State(s, l), m + 1, pushed, 1, to, State(s, l), 1);
        var r := ExecChain(e, rest, false, s, fs, fuel);
        AgreesAfter(p, m, State(s, l), to, State(s, l), 2, ip + |ChainCode(c)|, l, r, fuel, k);
        AgreesLess(p, m, State(s, l), ip + |ChainCode(c)|, l, r, fuel + 2, k + 2, fuel);
        k := k + 2;
      }
  }

  // ----- loops -----

  /** Two items in a row that are not calls. */
  lemma TwoItems(p: Program, ip: int, st: State, mid: State, ip': int, st': State)
    requires 0 <= ip && ip + 1 < |p.code| && !IsCall(p.code[ip]) && !IsCall(p.code[ip + 1])
    requires Next(p.code[ip], ip, st) == Some((ip + 1, mid)) && Next(p.code[ip + 1], ip + 1, mid) == Some((ip', st'))
    ensures Reaches(p, ip, st, ip', st', 2)
  {
    hide Reaches, Fails;
    OneItem(p, ip, st);
    OneItem(p, ip + 1, mid);
    ReachesThen(p, ip, st, ip + 1, mid, 1, ip', st', 1);
  }

  /** The labels of a loop: the start word at ip, the end word behind the body. */
  lemma LoopItems(p: Program, ip: int, first: Control, body: seq<Item>, last: Control)
    requires At(p, ip, [Label, ControlWord(first)] + body + [Label, ControlWord(last)])
    ensures 0 <= ip && ip + |body| + 4 <= |p.code| && At(p, ip + 2, body)
    ensures p.code[ip] == Label && p.code[ip + 1] == ControlWord(first)
    ensures p.code[ip + 2 + |body|] == Label && p.code[ip + 3 + |body|] == ControlWord(last)
  {
    hide At;
    var head, tail := [Label, ControlWord(first)], [Label, ControlWord(last)];
    assert head + body + tail == [Label] + ([ControlWord(first)] + (body + tail));
    AtHead(p, ip, Label, [ControlWord(first)] + (body + tail));
    AtHead(p, ip + 1, ControlWord(first), body + tail);
    AtPart(p, ip + 2, body, tail);
    assert tail == [Label] + [ControlWord(last)] && [ControlWord(last)] == [ControlWord(last)] + [];
    AtHead(p, ip + 2 + |body|, Label, [ControlWord(last)]);
    AtHead(p, ip + 3 + |body|, ControlWord(last), []);
  }

  /** The end word of a do loop with the loop's three elements on the loop stack: out of the loop, or back to the body. */
  lemma LoopTurn(p: Program, ip: int, n: nat, s: seq<int>, l: seq<int>, index: int, limit: int)
    requires 0 <= ip && ip + n + 4 <= |p.code|
    requires p.code[ip + 2 + n] == Label && p.code[ip + 3 + n] == ControlWord(CLoop)
    ensures var st := State(s, l + [ip, index, limit]);
            if Wrap(index + 1) >= limit then Reaches(p, ip + 2 + n, st, ip + 4 + n, State(s, l), 2)
            else Reaches(p, ip + 2 + n, st, ip + 2, State(s, l + [ip, Wrap(index + 1), limit]), 2)
  {
    hide Reaches, Wrap;
    var st := State(s, l + [ip, index, limit]);
    var mid := State(s, l + [ip, index, limit] + [ip + 2 + n]);
    assert mid.l[..|l|] == l && mid.l[..|l| + 1] == l + [ip];
    assert mid.l[|l|] == ip && mid.l[|l| + 1] == index && mid.l[|l| + 2] == limit && mid.l[|l| + 3] == ip + 2 + n;
    assert l + [ip] + [Wrap(index + 1), limit] == l + [ip, Wrap(index + 1), limit];
    if Wrap(index + 1) >= limit {
      TwoItems(p, ip + 2 + n, st, mid, ip + 4 + n, State(s, l));
    } else {
      TwoItems(p, ip + 2 + n, st, mid, ip + 2, State(s, l + [ip, Wrap(index + 1), limit]));
    }
  }

  lemma ForTurn(p: Program, ip: int, n: nat, s: seq<int>, l: seq<int>, a: int, b: int, c: int)
    requires 0 <= ip && ip + n + 4 <= |p.code|
    requires p.code[ip + 2 + n] == Label && p.code[ip + 3 + n] == ControlWord(CForLoop)
    ensures var st := State(s, l + [ip, c, b, a]);
            if ForEnds(a, b, c) then Reaches(p, ip + 2 + n, st, ip + 4 + n, State(s, l), 2)
            else Reaches(p, ip + 2 + n, st, ip + 2, State(s, l + [ip, c, b, Wrap(a + c)]), 2)
  {
    hide Reaches, Wrap, ForEnds;
    var st := State(s, l + [ip, c, b, a]);
    var mid := State(s, l + [ip, c, b, a] + [ip + 2 + n]);
    assert mid.l[..|l|] == l && mid.l[..|l| + 3] == l + [ip, c, b];
    assert mid.l[|l|] == ip && mid.l[|l| + 1] == c && mid.l[|l| + 2] == b && mid.l[|l| + 3] == a && mid.l[|l| + 4] == ip + 2 + n;
    assert l + [ip, c, b] + [Wrap(a + c)] == l + [ip, c, b, Wrap(a + c)];
    if ForEnds(a, b, c) {
      TwoItems(p, ip + 2 + n, st, mid, ip + 4 + n, State(s, l));
    } else {
      TwoItems(p, ip + 2 + n, st, mid, ip + 2, State(s, l + [ip, c, b, Wrap(a + c)]));
    }
  }

  /** A body that runs with the loop's elements on the loop stack, the end word, and the turns that follow. */
  lemma {:induction false} DoAgrees(e: Env, body: Block, ip: int, index: int, limit: int,
                                    s: seq<int>, l: seq<int>, fs: seq<Frame>, fuel: nat) returns (k: nat)
    requires At(Link(e), ip, StmtCode(DoLoop(body))) && Holds(l, fs)
    ensures Agrees(Link(e), ip + 2, State(s, l + [ip, index, limit]), ip + 4 + |Code(body)|, l,
                   ExecDo(e, body, index, limit, s, fs, fuel), fuel, k)
    decreases fuel, body, 1
  {
    hide Reaches, Fails, Stalls, Holds, Run, Link, ExecBlock, At, Agrees, Code, Wrap;
    var p, n := Link(e), |Code(body)|;
    LoopItems(p, ip, CDo, Code(body), CLoop);
    HoldsMore(l, fs, ip);
    var inside := l + [ip, index, limit];
    k := BlockAgrees(e, body, ip + 2, s, inside, fs + [DoFrame(index, limit)], fuel);
    var r := ExecBlock(e, body, s, fs + [DoFrame(index, limit)], fuel);
    if !r.Ok? {
      AgreesEnd(p, ip + 2, State(s, inside), ip + 2 + n, inside, r, fuel, k, ip + 4 + n, l);
    } else {
      LoopTurn(p, ip, n, r.stack, l, index, limit);
      if Wrap(index + 1) >= limit {
        AgreesOk(p, ip + 2 + n, State(r.stack, inside), ip + 4 + n, l, r.stack, fuel, 2);
        AgreesThen(p, ip + 2, State(s, inside), ip + 2 + n, inside, r.stack, fuel, k, ip + 4 + n, l, r, 2);
        k := k + 2;
      } else if fuel == 0 {
        StallsNow(p, ip + 2, State(s, inside), ip + 4 + n, l, k);
      } else {
        var next := State(r.stack, l + [ip, Wrap(index + 1), limit]);
        var j := DoAgrees(e, body, ip, Wrap(index + 1), limit, r.stack, l, fs, fuel - 1);
        var x := ExecDo(e, body, Wrap(index + 1), limit, r.stack, fs, fuel - 1);
        AgreesAfter(p, ip + 2 + n, State(r.stack, inside), ip + 2, next, 2, ip + 4 + n, l, x, fuel - 1, j);
        AgreesLess(p, ip + 2 + n, State(r.stack, inside), ip + 4 + n, l, x, fuel + 1, j + 2, fuel);
        AgreesThen(p, ip + 2, State(s, inside), ip + 2 + n, inside, r.stack, fuel, k, ip + 4 + n, l, x, j + 2);
        k := k + j + 2;
      }
    }
  }

  lemma StallsNow(p: Program, ip: int, st: State, ip': int, l: seq<int>, k: nat)
    ensures Agrees(p, ip, st, ip', l, Timeout, 0, k)
  {
    StallsAtOnce(p, ip, st);
  }

  lemma {:induction false} ForAgrees(e: Env, body: Block, ip: int, a: int, b: int, c: int,
                                     s: seq<int>, l: seq<int>, fs: seq<Frame>, fuel: nat) returns (k: nat)
    requires At(Link(e), ip, StmtCode(ForLoop(body))) && Holds(l, fs)
    ensures Agrees(Link(e), ip + 2, State(s, l + [ip, c, b, a]), ip + 4 + |Code(body)|, l,
                   ExecFor(e, body, a, b, c, s, fs, fuel), fuel, k)
    decreases fuel, body, 1
  {
    hide Reaches, Fails, Stalls, Holds, Run, Link, ExecBlock, At, Agrees, Code, Wrap, ForEnds;
    var p, n := Link(e), |Code(body)|;
    LoopItems(p, ip, CFor, Code(body), CForLoop);
    HoldsMore(l, fs, ip);
    var inside := l + [ip, c, b, a];
    k := BlockAgrees(e, body, ip + 2, s, inside, fs + [ForFrame(a, b, c)], fuel);
    var r := ExecBlock(e, body, s, fs + [ForFrame(a, b, c)], fuel);
    if !r.Ok? {
      AgreesEnd(p, ip + 2, State(s, inside), ip + 2 + n, inside, r, fuel, k, ip + 4 + n, l);
    } else {
      ForTurn(p, ip, n, r.stack, l, a, b, c);
      if ForEnds(a, b, c) {
        AgreesOk(p, ip + 2 + n, State(r.stack, inside), ip + 4 + n, l, r.stack, fuel, 2);
        AgreesThen(p, ip + 2, State(s, inside), ip + 2 + n, inside, r.stack, fuel, k, ip + 4 + n, l, r, 2);
        k := k + 2;
      } else if fuel == 0 {
        StallsNow(p, ip + 2, State(s, inside), ip + 4 + n, l, k);
      } else {
        var next := State(r.stack, l + [ip, c, b, Wrap(a + c)]);
        var j := ForAgrees(e, body, ip, Wrap(a + c), b, c, r.stack, l, fs, fuel - 1);
        var x := ExecFor(e, body, Wrap(a + c), b, c, r.stack, fs, fuel - 1);
        AgreesAfter(p, ip + 2 + n, State(r.stack, inside), ip + 2, next, 2, ip + 4 + n, l, x, fuel - 1, j);
        AgreesLess(p, ip + 2 + n, State(r.stack, inside), ip + 4 + n, l, x, fuel + 1, j + 2, fuel);
        AgreesThen(p, ip + 2, State(s, inside), ip + 2 + n, inside, r.stack, fuel, k, ip + 4 + n, l, x, j + 2);
        k := k + j + 2;
      }
    }
  }

  lemma {:induction false} DoLoopAgrees(e: Env, body: Block, ip: int, s: seq<int>, l: seq<int>, fs: seq<Frame>, fuel: nat)
      returns (k: nat)
    requires At(Link(e), ip, StmtCode(DoLoop(body))) && Holds(l, fs)
    ensures Agrees(Link(e), ip, State(s, l), ip + |StmtCode(DoLoop(body))|, l, ExecStmt(e, DoLoop(body), s, fs, fuel), fuel, k)
    decreases fuel, body, 2
  {
    hide Reaches, Fails, Stalls, Holds, Run, Link, ExecDo, At, Agrees, Code;
    var p, n, end := Link(e), |s|, ip + |StmtCode(DoLoop(body))|;
    LoopItems(p, ip, CDo, Code(body), CLoop);
    var mid := State(s, l + [ip]);
    k := 2;
    if n < 2 {
      OneItem(p, ip, State(s, l));
      OneItem(p, ip + 1, mid);
      FailsThen(p, ip, State(s, l), ip + 1, mid, 1, 1);
      AgreesFault(p, ip, State(s, l), end, l, fuel, 2);
    } else {
      var to := State(s[..n - 2], l + [ip, s[n - 1], s[n - 2]]);
      assert to.l == l + [ip] + [s[n - 1], s[n - 2]];
      TwoItems(p, ip, State(s, l), mid, ip + 2, to);
      k := DoAgrees(e, body, ip, s[n - 1], s[n - 2], s[..n - 2], l, fs, fuel);
      var r := ExecDo(e, body, s[n - 1], s[n - 2], s[..n - 2], fs, fuel);
      AgreesAfter(p, ip, State(s, l), ip + 2, to, 2, end, l, r, fuel, k);
      AgreesLess(p, ip, State(s, l), end, l, r, fuel + 2, k + 2, fuel);
      k := k + 2;
    }
  }

  lemma {:induction false} ForLoopAgrees(e: Env, body: Block, ip: int, s: seq<int>, l: seq<int>, fs: seq<Frame>, fuel: nat)
      returns (k: nat)
    requires At(Link(e), ip, StmtCode(ForLoop(body))) && Holds(l, fs)
    ensures Agrees(Link(e), ip, State(s, l), ip + |StmtCode(ForLoop(body))|, l, ExecStmt(e, ForLoop(body), s, fs, fuel), fuel, k)
    decreases fuel, body, 2
  {
    hide Reaches, Fails, Stalls, Holds, Run, Link, ExecFor, At, Agrees, Code;
    var p, n, end := Link(e), |s|, ip + |StmtCode(ForLoop(body))|;
    LoopItems(p, ip, CFor, Code(body), CForLoop);
    var mid := State(s, l + [ip]);
    k := 2;
    if n < 3 {
      OneItem(p, ip, State(s, l));
      OneItem(p, ip + 1, mid);
      FailsThen(p, ip, State(s, l), ip + 1, mid, 1, 1);
      AgreesFault(p, ip, State(s, l), end, l, fuel, 2);
    } else {
      var to := State(s[..n - 3], l + [ip, s[n - 1], s[n - 2], s[n - 3]]);
      assert to.l == l + [ip] + [s[n - 1], s[n - 2], s[n - 3]];
      TwoItems(p, ip, State(s, l), mid, ip + 2, to);
      k := ForAgrees(e, body, ip, s[n - 3], s[n - 2], s[n - 1], s[..n - 3], l, fs, fuel);
      var r := ExecFor(e, body, s[n - 3], s[n - 2], s[n - 1], s[..n - 3], fs, fuel);
      AgreesAfter(p, ip, State(s, l), ip + 2, to, 2, end, l, r, fuel, k);
      AgreesLess(p, ip, State(s, l), end, l, r, fuel + 2, k + 2, fuel);
      k := k + 2;
    }
  }

  // ----- whole words -----

  /** A word that means s' is run to s' with the loop stack restored; one that goes wrong fails. */
  lemma WordRuns(e: Env, s: seq<int>, l: seq<int>, fs: seq<Frame>, fuel: nat) returns (k: nat)
    requires Holds(l, fs)
    ensures var r := ExecBlock(e, e.self, s, fs, fuel);
            && (r.Ok? ==> forall f: nat :: f >= k ==> Run(Link(e), 0, State(s, l), f) == Halt(State(r.stack, l), f - k))
            && (r.Fault? ==> forall f: nat :: f >= k ==> Run(Link(e), 0, State(s, l), f) == MFault)
            && (r.Timeout? ==> forall f: nat :: f <= fuel ==> Run(Link(e), 0, State(s, l), f) == MTimeout)
  {
    hide Link, ExecBlock, Holds, Code, At;
    WholeWord(e);
    var n, r, st := |Code(e.self)|, ExecBlock(e, e.self, s, fs, fuel), State(s, l);
    k := BlockAgrees(e, e.self, 0, s, l, fs, fuel);
    if r.Ok? {
      forall f: nat | f >= k + 1
        ensures Run(Link(e), 0, st, f) == Halt(State(r.stack, l), f - (k + 1))
      {
        assert Run(Link(e), 0, st, f) == Run(Link(e), n, State(r.stack, l), f - k);
      }
      k := k + 1;
    }
  }

  /** And a run that ends has done what the word means. */
  lemma RunsMean(e: Env, s: seq<int>, l: seq<int>, fs: seq<Frame>, fuel: nat)
    requires Holds(l, fs)
    ensures var o := Run(Link(e), 0, State(s, l), fuel);
            && (o.Halt? ==> ExecBlock(e, e.self, s, fs, fuel) == Ok(o.st.s) && o.st.l == l)
            && (o.MFault? ==> ExecBlock(e, e.self, s, fs, fuel) == Fault)
  {
    hide Link, ExecBlock, Holds, Run;
    var k := WordRuns(e, s, l, fs, fuel);
    var o, r := Run(Link(e), 0, State(s, l), fuel), ExecBlock(e, e.self, s, fs, fuel);
    if !o.MTimeout? && !r.Timeout? {
      RunMore(Link(e), 0, State(s, l), fuel, fuel + k);
    }
  }

  /** More fuel changes only what is left of it. */
  lemma {:induction false} RunMore(p: Program, ip: int, st: State, f: nat, g: nat)
    requires f <= g && !Run(p, ip, st, f).MTimeout?
    ensures var o := Run(p, ip, st, f);
            Run(p, ip, st, g) == if o.Halt? then Halt(o.st, o.left + (g - f)) else o
    decreases f
  {
    hide Apply, Act;
    if 0 <= ip < |p.code| {
      var x := p.code[ip];
      if !IsCall(x) {
        var n := Next(x, ip, st);
        OneItem(p, ip, st);
        if n.Some? {
          assert Run(p, ip, st, f) == Run(p, n.value.0, n.value.1, f - 1);
          RunMore(p, n.value.0, n.value.1, f - 1, g - 1);
        }
      } else if x != End && (x == Recursive || x.name in p.words) {
        var q := if x == Recursive then p else Program(p.words, p.words[x.name]);
        var o := Run(q, 0, st, f - 1);
        RunMore(q, 0, st, f - 1, g - 1);
        if o.Halt? {
          RunMore(p, ip + 1, o.st, o.left, o.left + (g - f));
        }
      }
    }
  }
}
