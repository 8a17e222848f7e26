/** kforth_compile_word and execute_word: the one-pass compiler that patches branches through the data stack, and the
    interpreter loop, both on the context they change. */
module ForthCompiler {
  import opened ForthWords
  import opened ForthSource
  import opened ForthMachine
  import opened ForthCorrect

  const MAX_COMPILE_WORDS: nat := 100

  /** A token, looked up: a control word, the name being defined, a word of the dictionary, a number, or none of these. */
  datatype Token = TFor | TForLoop | TDo | TLoop | TIf | TElif | TEndif | TSelf | TSemicolon | TIndex | TCounter
    | TPrim(op: Prim) | TUser(name: string) | TInt(n: int) | TUnknown

  /** A block as its author writes it. */
  function Text(b: Block): seq<Token> {
    match b
    case Nil => []
    case Seq(head, tail) => StmtText(head) + Text(tail)
  }

  function StmtText(st: Stmt): seq<Token> {
    match st
    case Push(n) => [TInt(n)]
    case Do(op) => [TPrim(op)]
    case Index => [TIndex]
    case Counter => [TCounter]
    case If(chain) => [TIf] + ChainText(chain)
    case DoLoop(body) => [TDo] + Text(body) + [TLoop]
    case ForLoop(body) => [TFor] + Text(body) + [TForLoop]
    case Call(word) => [TUser(word)]
    case Recurse => [TSelf]
  }

  function ChainText(c: Chain): seq<Token> {
    match c
    case Last(b) => Text(b) + [TEndif]
    case Elif(b, rest) => Text(b) + [TElif] + ChainText(rest)
  }

  /** Tokens that leave no trace. */
  predicate Ignored(t: Token) {
    t == TSemicolon || t == TUnknown
  }

  function Plain(ts: seq<Token>): seq<Token> {
    if ts == [] then [] else (if Ignored(ts[0]) then [] else [ts[0]]) + Plain(ts[1..])
  }

  // ----- the compiler on values -----

  /** The items so far and the data stack. */
  datatype Comp = Comp(items: seq<Item>, stack: seq<int>)

  /** What a token that patches no branch appends. */
  function Emitted(t: Token): seq<Item>
    requires t != TIf && t != TElif && t != TEndif
  {
    match t
    case TFor => [Label, ControlWord(CFor)]
    case TForLoop => [Label, ControlWord(CForLoop)]
    case TDo => [Label, ControlWord(CDo)]
    case TLoop => [Label, ControlWord(CLoop)]
    case TIndex => [ControlWord(CIndex)]
    case TCounter => [ControlWord(CCounter)]
    case TSelf => [Recursive]
    case TPrim(op) => [PrimWord(op)]
    case TUser(name) => [UserWord(name)]
    case TInt(n) => [Literal(n)]
    case _ => []
  }

  /** The stack's top is the place of a branch that waits for its offset. */
  predicate Waiting(c: Comp) {
    |c.stack| > 0 && 0 <= c.stack[|c.stack| - 1] < |c.items| && c.items[c.stack[|c.stack| - 1]].Branch?
  }

  function OneToken(t: Token, c: Comp): Option<Comp> {
    var n, m := |c.items|, |c.stack|;
    if t == TIf then Some(Comp(c.items + [Branch(0), ControlWord(CIf)], c.stack + [n]))
    else if t == TElif || t == TEndif then
      if !Waiting(c) then None
      else
        var at := c.stack[m - 1];
        if t == TElif
        then Some(Comp(c.items[at := Branch(n - at)] + [Branch(0), ControlWord(CElif)], c.stack[..m - 1] + [n]))
        else Some(Comp(c.items[at := Branch(n - at - 2)] + [ControlWord(CEndif)], c.stack[..m - 1]))
    else Some(Comp(c.items + Emitted(t), c.stack))
  }

  function Compile(ts: seq<Token>, c: Comp): Option<Comp> {
    if ts == [] then Some(c)
    else
      var r := OneToken(ts[0], c);
      if r.Some? then Compile(ts[1..], r.value) else None
  }

  lemma CompileHead(t: Token, ts: seq<Token>, c: Comp)
    ensures Compile([t] + ts, c) == if OneToken(t, c).Some? then Compile(ts, OneToken(t, c).value) else None
  {
    assert ([t] + ts)[1..] == ts;
  }

  lemma {:induction false} CompilePlain(ts: seq<Token>, c: Comp)
    ensures Compile(ts, c) == Compile(Plain(ts), c)
  {
    if ts != [] {
      if Ignored(ts[0]) {
        assert c.items + [] == c.items && [] + Plain(ts[1..]) == Plain(ts[1..]);
        CompilePlain(ts[1..], c);
      } else {
        CompileHead(ts[0], Plain(ts[1..]), c);
        var r := OneToken(ts[0], c);
        if r.Some? {
          CompilePlain(ts[1..], r.value);
        }
      }
    }
  }

  /** Compiling a block appends its code and leaves the data stack as it was, whatever comes before and after. */
  lemma {:induction false} BlockCompiles(b: Block, ts: seq<Token>, c: Comp)
    ensures Compile(Text(b) + ts, c) == Compile(ts, Comp(c.items + Code(b), c.stack))
    decreases b, 0
  {
    match b
    case Nil =>
      assert [] + ts == ts && c.items + [] == c.items;
    case Seq(head, tail) =>
      assert Text(b) + ts == StmtText(head) + (Text(tail) + ts);
      StmtCompiles(head, Text(tail) + ts, c);
      BlockCompiles(tail, ts, Comp(c.items + StmtCode(head), c.stack));
      assert c.items + StmtCode(head) + Code(tail) == c.items + Code(b);
  }

  lemma {:induction false} StmtCompiles(st: Stmt, ts: seq<Token>, c: Comp)
    ensures Compile(StmtText(st) + ts, c) == Compile(ts, Comp(c.items + StmtCode(st), c.stack))
    decreases st, 0
  {
    hide Compile, Code, Text, ChainText, ChainCode;
    match st
    case If(chain) => IfCompiles(chain, ts, c);
    case DoLoop(body) => LoopCompiles(TDo, CDo, body, TLoop, CLoop, ts, c);
    case ForLoop(body) => LoopCompiles(TFor, CFor, body, TForLoop, CForLoop, ts, c);
    case _ => CompileHead(StmtText(st)[0], ts, c);
  }

  lemma {:induction false} IfCompiles(chain: Chain, ts: seq<Token>, c: Comp)
    ensures Compile(StmtText(If(chain)) + ts, c) == Compile(ts, Comp(c.items + StmtCode(If(chain)), c.stack))
    decreases chain, 1
  {
    hide Compile, ChainText, ChainCode, Offset;
    var items := c.items + [Branch(0), ControlWord(CIf)];
    assert StmtText(If(chain)) + ts == [TIf] + (ChainText(chain) + ts);
    CompileHead(TIf, ChainText(chain) + ts, c);
    ChainCompiles(chain, ts, items, c.stack);
    assert items[|items| - 2 := Branch(Offset(chain))] + ChainCode(chain) == c.items + StmtCode(If(chain));
  }

  lemma {:induction false} LoopCompiles(t0: Token, c0: Control, body: Block, t1: Token, c1: Control, ts: seq<Token>, c: Comp)
    requires (t0 == TDo && c0 == CDo && t1 == TLoop && c1 == CLoop) || (t0 == TFor && c0 == CFor && t1 == TForLoop && c1 == CForLoop)
    ensures Compile([t0] + Text(body) + [t1] + ts, c) ==
            Compile(ts, Comp(c.items + ([Label, ControlWord(c0)] + Code(body) + [Label, ControlWord(c1)]), c.stack))
    decreases body, 1
  {
    hide Compile, Code, Text;
    var open := Comp(c.items + [Label, ControlWord(c0)], c.stack);
    assert [t0] + Text(body) + [t1] + ts == [t0] + (Text(body) + ([t1] + ts));
    CompileHead(t0, Text(body) + ([t1] + ts), c);
    BlockCompiles(body, [t1] + ts, open);
    CompileHead(t1, ts, Comp(open.items + Code(body), c.stack));
    assert open.items + Code(body) + [Label, ControlWord(c1)] ==
           c.items + ([Label, ControlWord(c0)] + Code(body) + [Label, ControlWord(c1)]);
  }

  /** The rest of a conditional fills in the branch before its first part, and every branch it makes itself. */
  lemma {:induction false} ChainCompiles(chain: Chain, ts: seq<Token>, items: seq<Item>, stack: seq<int>)
    requires |items| >= 2 && items[|items| - 2].Branch?
    ensures Compile(ChainText(chain) + ts, Comp(items, stack + [|items| - 2])) ==
            Compile(ts, Comp(items[|items| - 2 := Branch(Offset(chain))] + ChainCode(chain), stack))
    decreases chain, 0
  {
    hide Compile, Code, Text;
    var at, c := |items| - 2, Comp(items, stack + [|items| - 2]);
    var body := items + Code(chain.b);
    var full := items[at := Branch(Offset(chain))];
    assert c.stack[..|c.stack| - 1] == stack;
    match chain
    case Last(b) =>
      assert ChainText(chain) + ts == Text(b) + ([TEndif] + ts);
      BlockCompiles(b, [TEndif] + ts, c);
      CompileHead(TEndif, ts, Comp(body, c.stack));
      assert body[at := Branch(|Code(b)|)] + [ControlWord(CEndif)] == full + ChainCode(chain);
    case Elif(b, rest) =>
      assert ChainText(chain) + ts == Text(b) + ([TElif] + (ChainText(rest) + ts));
      BlockCompiles(b, [TElif] + (ChainText(rest) + ts), c);
      CompileHead(TElif, ChainText(rest) + ts, Comp(body, c.stack));
      var next := body[at := Branch(|Code(b)| + 2)] + [Branch(0), ControlWord(CElif)];
      ChainCompiles(rest, ts, next, stack);
      assert next[|next| - 2 := Branch(Offset(rest))] + ChainCode(rest) == full + ChainCode(chain);
  }

  lemma {:induction false} CompileGrows(ts: seq<Token>, c: Comp)
    requires Compile(ts, c).Some?
    ensures |c.items| <= |Compile(ts, c).value.items|
  {
    if ts != [] {
      CompileGrows(ts[1..], OneToken(ts[0], c).value);
    }
  }

  // ----- the context -----

  /** The n topmost elements, the top one first. */
  function TopDown(s: seq<int>, n: nat): (r: seq<int>)
    requires n <= |s|
    ensures |r| == n
  {
    seq(n, i requires 0 <= i < n => s[|s| - 1 - i])
  }

  datatype Ending = Ended | Failed | OutOfFuel

  class Context {
    var stack: seq<int>
    var loopStack: seq<int>
    const newWordList: array<Item>

    constructor ()
      ensures stack == [] && loopStack == [] && newWordList.Length == MAX_COMPILE_WORDS && fresh(newWordList)
    {
      stack, loopStack := [], [];
      newWordList := new Item[MAX_COMPILE_WORDS](_ => End);
    }

    method PushInt(item: int)
      modifies this`stack
      ensures stack == old(stack) + [item]
    {
      stack := stack + [item];
    }

    method PopInt() returns (item: int)
      requires |stack| > 0
      modifies this`stack
      ensures old(stack) == stack + [item]
    {
      item := stack[|stack| - 1];
      stack := stack[..|stack| - 1];
    }

    /** Appends the items of a token that patches no branch. */
    method Emit(t: Token, n: nat) returns (n': nat)
      requires t != TIf && t != TElif && t != TEndif && n + |Emitted(t)| <= newWordList.Length
      modifies newWordList
      ensures n' == n + |Emitted(t)| && newWordList[..n'] == old(newWordList[..n]) + Emitted(t)
    {
      var more := Emitted(t);
      forall i | 0 <= i < |more| {
        newWordList[n + i] := more[i];
      }
      n' := n + |more|;
    }

    /** One token of kforth_compile_word: a branch to come is a place on the data stack, patched from there. */
    method CompileToken(t: Token, n: nat) returns (n': nat)
      requires n <= newWordList.Length && OneToken(t, Comp(newWordList[..n], stack)).Some?
      requires |OneToken(t, Comp(newWordList[..n], stack)).value.items| <= newWordList.Length
      modifies this`stack, newWordList
      ensures n' <= newWordList.Length
      ensures OneToken(t, Comp(old(newWordList[..n]), old(stack))) == Some(Comp(newWordList[..n'], stack))
    {
      ghost var c := Comp(newWordList[..n], stack);
      if t == TIf {
        newWordList[n], newWordList[n + 1] := Branch(0), ControlWord(CIf);
        PushInt(n);
        n' := n + 2;
        assert newWordList[..n'] == c.items + [Branch(0), ControlWord(CIf)];
      } else if t == TElif {
        var temp := PopInt();
        assert stack == c.stack[..|c.stack| - 1];
        newWordList[temp] := Branch(n - temp);
        newWordList[n], newWordList[n + 1] := Branch(0), ControlWord(CElif);
        PushInt(n);
        n' := n + 2;
        assert newWordList[..n'] == c.items[temp := Branch(n - temp)] + [Branch(0), ControlWord(CElif)];
      } else if t == TEndif {
        var temp := PopInt();
        assert stack == c.stack[..|c.stack| - 1];
        newWordList[temp] := Branch(n - temp - 2);
        newWordList[n] := ControlWord(CEndif);
        n' := n + 1;
        assert newWordList[..n'] == c.items[temp := Branch(n - temp - 2)] + [ControlWord(CEndif)];
      } else {
        n' := Emit(t, n);
      }
    }

    /** kforth_compile_word: the items of a well-nested statement, with the data stack as it was. */
    method CompileWord(tokens: seq<Token>, ghost b: Block) returns (n: nat)
      requires Plain(tokens) == Text(b)
      requires newWordList.Length == MAX_COMPILE_WORDS && |Compiled(b)| <= MAX_COMPILE_WORDS
      modifies this`stack, newWordList
      ensures n <= newWordList.Length && newWordList[..n] == Compiled(b)
      ensures stack == old(stack)
    {
      hide OneToken, Code;
      n := 0;
      ghost var result := Comp(Code(b), stack);
      CompilePlain(tokens, Comp([], stack));
      BlockCompiles(b, [], Comp([], stack));
      assert Text(b) + [] == Text(b) && [] + Code(b) == Code(b);
      var i := 0;
      while i < |tokens|
        invariant 0 <= i <= |tokens| && n <= newWordList.Length
        invariant Compile(tokens[i..], Comp(newWordList[..n], stack)) == Some(result)
      {
        ghost var c := Comp(newWordList[..n], stack);
        CompileGrows(tokens[i..][1..], OneToken(tokens[i], c).value);
        n := CompileToken(tokens[i], n);
        assert tokens[i..][1..] == tokens[i + 1..];
        i := i + 1;
      }
      newWordList[n] := End;
      n := n + 1;
    }

    method LoopPush(x: int)
      modifies this`loopStack
      ensures loopStack == old(loopStack) + [x]
    {
      loopStack := loopStack + [x];
    }

    method LoopDrop(n: nat)
      requires n <= |loopStack|
      modifies this`loopStack
      ensures loopStack == old(loopStack)[..|old(loopStack)| - n]
    {
      loopStack := loopStack[..|loopStack| - n];
    }

    /** fn_loop: label2, label1, index and limit are read through the loop stack. */
    method FnLoop() returns (ret: int)
      requires |loopStack| >= 4
      modifies this`loopStack
      ensures Act(CLoop, State(stack, old(loopStack))) == Move(State(stack, loopStack), ret)
    {
      var label2 := loopStack[|loopStack| - 1];
      LoopDrop(1);
      var m := |loopStack|;
      loopStack := loopStack[m - 2 := Wrap(loopStack[m - 2] + 1)];
      if loopStack[m - 2] >= loopStack[m - 1] {
        LoopDrop(3);
        return 0;
      }
      return loopStack[m - 3] - label2;
    }

    /** fn_for_loop. */
    method FnForLoop() returns (ret: int)
      requires |loopStack| >= 5
      modifies this`loopStack
      ensures Act(CForLoop, State(stack, old(loopStack))) == Move(State(stack, loopStack), ret)
    {
      var label2 := loopStack[|loopStack| - 1];
      LoopDrop(1);
      var m := |loopStack|;
      var a, b, c := loopStack[m - 1], loopStack[m - 2], loopStack[m - 3];
      if (a <= b && Wrap(a + c) >= b) || (a >= b && Wrap(a + c) <= b) {
        LoopDrop(4);
        return 0;
      }
      loopStack := loopStack[m - 1 := Wrap(a + c)];
      return loopStack[m - 4] - label2;
    }

    /** fn_do and fn_for: the operands move to the loop stack, the top one first. */
    method FnEnter(n: nat)
      requires n <= |stack|
      modifies this`stack, this`loopStack
      ensures stack == old(stack)[..|old(stack)| - n]
      ensures loopStack == old(loopStack) + TopDown(old(stack), n)
    {
      var i := 0;
      while i < n
        invariant 0 <= i <= n && |old(stack)| >= n
        invariant stack == old(stack)[..|old(stack)| - i]
        invariant loopStack == old(loopStack) + TopDown(old(stack), i)
      {
        var x := PopInt();
        assert x == old(stack)[|old(stack)| - 1 - i];
        LoopPush(x);
        i := i + 1;
      }
    }

    /** A control word, if the stacks hold what it reads. */
    method Control(c: Control) returns (ok: bool, ret: int)
      modifies this`stack, this`loopStack
      ensures var m := Act(c, State(old(stack), old(loopStack)));
              if m.Move? then ok && m == Move(State(stack, loopStack), ret) else !ok
    {
      ok, ret := Act(c, State(stack, loopStack)).Move?, 0;
      if !ok { return; }
      match c
      case CIf =>
        var offset := PopInt();
        var flag := PopInt();
        if flag != FORTH_TRUE { ret := offset; }
      case CElif => ret := PopInt();
      case CEndif =>
      case CDo => FnEnter(2);
      case CLoop => ret := FnLoop();
      case CFor => FnEnter(3);
      case CForLoop => ret := FnForLoop();
      case CIndex => PushInt(loopStack[|loopStack| - 2]);
      case CCounter => PushInt(loopStack[|loopStack| - 1]);
    }

    /** execute_word for a word with an item list, for at most fuel items. */
    method ExecuteWord(words: map<string, seq<Item>>, code: seq<Item>, fuel: nat) returns (ending: Ending, left: nat)
      modifies this`stack, this`loopStack
      ensures match Run(Program(words, code), 0, State(old(stack), old(loopStack)), fuel)
              case Halt(st, rest) => ending == Ended && st == State(stack, loopStack) && left == rest
              case MFault => ending == Failed
              case MTimeout => ending == OutOfFuel
      decreases fuel
    {
      hide Act, Apply;
      ghost var p := Program(words, code);
      ghost var result := Run(p, 0, State(stack, loopStack), fuel);
      left := fuel;
      var ip := 0;
      while left > 0
        invariant left <= fuel && result == Run(p, ip, State(stack, loopStack), left)
        decreases left
      {
        if ip < 0 || ip >= |code| { return Failed, left; }
        left := left - 1;
        match code[ip] {
          case End =>
            return Ended, left;
          case Literal(n) =>
            PushInt(n);
          case Branch(offset) =>
            PushInt(offset);
          case Label =>
            LoopPush(ip);
          case PrimWord(op) =>
            var r := Apply(op, stack);
            if r.None? { return Failed, left; }
            stack := r.value;
          case ControlWord(c) =>
            var ok, ret := Control(c);
            if !ok { return Failed, left; }
            ip := ip + ret;
          case UserWord(name) =>
            if name !in words { return Failed, left; }
            var called;
            called, left := ExecuteWord(words, words[name], left);
            if called != Ended { return called, left; }
          case Recursive =>
            var called;
            called, left := ExecuteWord(words, code, left);
            if called != Ended { return called, left; }
        }
        ip := ip + 1;
      }
      ending := OutOfFuel;
    }

    /** kforth_execute_statement on a line that defines no word: compile it, then run it. If the run ends, it has done to
        the data stack what the line means, and nothing to the loop stack. */
    method ExecuteStatement(tokens: seq<Token>, words: map<string, seq<Item>>, fuel: nat, ghost e: Env, ghost fs: seq<Frame>)
        returns (ending: Ending)
      requires Plain(tokens) == Text(e.self) && words == Link(e).words && Holds(loopStack, fs)
      requires newWordList.Length == MAX_COMPILE_WORDS && |Compiled(e.self)| <= MAX_COMPILE_WORDS
      modifies this`stack, this`loopStack, newWordList
      ensures var r := ExecBlock(e, e.self, old(stack), fs, fuel);
              && (ending == Ended ==> r == Ok(stack) && loopStack == old(loopStack))
              && (ending == Failed ==> r == Fault)
    {
      hide Text, Compiled, ExecBlock, Holds, Run;
      var n := CompileWord(tokens, e.self);
      RunsMean(e, stack, loopStack, fs, fuel);
      var left;
      ending, left := ExecuteWord(words, newWordList[..n], fuel);
    }
  }
}
