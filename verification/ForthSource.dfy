/** A kforth word as its author means it: nested statements with a structured meaning. */
module ForthSource {
  import opened ForthWords

  datatype Stmt =
    | Push(n: int)
    | Do(op: Prim)
    | Index                 // I
    | Counter               // A
    | If(chain: Chain)
    | DoLoop(body: Block)
    | ForLoop(body: Block)
    | Call(word: string)
    | Recurse

  datatype Block = Nil | Seq(head: Stmt, tail: Block)

  /** if b endif, or if b elif ... endif. */
  datatype Chain = Last(b: Block) | Elif(b: Block, rest: Chain)

  /** A loop in progress. */
  datatype Frame = DoFrame(index: int, limit: int) | ForFrame(a: int, b: int, c: int)

  datatype Result = Ok(stack: seq<int>) | Fault | Timeout

  /** The defined words, and the one being run. */
  datatype Env = Env(words: map<string, Block>, self: Block)

  /** What I pushes inside the loops fs: the second element from the top of the loop stack. */
  function IndexOf(fs: seq<Frame>): Option<int> {
    if fs == [] then None
    else match fs[|fs| - 1]
      case DoFrame(index, _) => Some(index)
      case ForFrame(_, b, _) => Some(b)
  }

  /** What A pushes: the top of the loop stack. */
  function CounterOf(fs: seq<Frame>): Option<int> {
    if fs == [] then None
    else match fs[|fs| - 1]
      case DoFrame(_, limit) => Some(limit)
      case ForFrame(a, _, _) => Some(a)
  }

  function Pushed(s: seq<int>, v: Option<int>): Result {
    if v.Some? then Ok(s + [v.value]) else Fault
  }

  /** Whether a for loop at a ends rather than steps by c. */
  predicate ForEnds(a: int, b: int, c: int) {
    (a <= b && Wrap(a + c) >= b) || (a >= b && Wrap(a + c) <= b)
  }

  /** The data stack a block leaves; loops and calls use up fuel. */
  function ExecBlock(e: Env, b: Block, s: seq<int>, fs: seq<Frame>, fuel: nat): Result
    decreases fuel, b, 0
  {
    match b
    case Nil => Ok(s)
    case Seq(head, tail) =>
      var r := ExecStmt(e, head, s, fs, fuel);
      if r.Ok? then ExecBlock(e, tail, r.stack, fs, fuel) else r
  }

  function ExecStmt(e: Env, st: Stmt, s: seq<int>, fs: seq<Frame>, fuel: nat): Result
    decreases fuel, st, 0
  {
    match st
    case Push(n) => Ok(s + [n])
    case Do(op) =>
      var r := Apply(op, s);
      if r.Some? then Ok(r.value) else Fault
    case Index => Pushed(s, IndexOf(fs))
    case Counter => Pushed(s, CounterOf(fs))
    case If(chain) =>
      if |s| < 1 then Fault else ExecChain(e, chain, s[|s| - 1] == FORTH_TRUE, s[..|s| - 1], fs, fuel)
    case DoLoop(body) =>
      if |s| < 2 then Fault else ExecDo(e, body, s[|s| - 1], s[|s| - 2], s[..|s| - 2], fs, fuel)
    case ForLoop(body) =>
      if |s| < 3 then Fault else ExecFor(e, body, s[|s| - 3], s[|s| - 2], s[|s| - 1], s[..|s| - 3], fs, fuel)
    case Call(word) =>
      if fuel == 0 then Timeout
      else if word in e.words then ExecBlock(Env(e.words, e.words[word]), e.words[word], s, fs, fuel - 1) else Fault
    case Recurse =>
      if fuel == 0 then Timeout else ExecBlock(e, e.self, s, fs, fuel - 1)
  }

  /** elif ends the part before it and starts one that runs exactly when that part did not: parts alternate. */
  function ExecChain(e: Env, c: Chain, on: bool, s: seq<int>, fs: seq<Frame>, fuel: nat): Result
    decreases fuel, c, 0
  {
    var r := if on then ExecBlock(e, c.b, s, fs, fuel) else Ok(s);
    if c.Elif? && r.Ok? then ExecChain(e, c.rest, !on, r.stack, fs, fuel) else r
  }

  /** The body runs at least once, then until the index reaches the limit. */
  function ExecDo(e: Env, body: Block, index: int, limit: int, s: seq<int>, fs: seq<Frame>, fuel: nat): Result
    decreases fuel, body, 1
  {
    var r := ExecBlock(e, body, s, fs + [DoFrame(index, limit)], fuel);
    if !r.Ok? then r
    else if Wrap(index + 1) >= limit then r
    else if fuel == 0 then Timeout
    else ExecDo(e, body, Wrap(index + 1), limit, r.stack, fs, fuel - 1)
  }

  function ExecFor(e: Env, body: Block, a: int, b: int, c: int, s: seq<int>, fs: seq<Frame>, fuel: nat): Result
    decreases fuel, body, 1
  {
    var r := ExecBlock(e, body, s, fs + [ForFrame(a, b, c)], fuel);
    if !r.Ok? then r
    else if ForEnds(a, b, c) then r
    else if fuel == 0 then Timeout
    else ExecFor(e, body, Wrap(a + c), b, c, r.stack, fs, fuel - 1)
  }
}
