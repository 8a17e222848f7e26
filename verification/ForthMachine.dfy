/** The inner interpreter of kforth (execute_word) and the control words that move its instruction pointer. */
module ForthMachine {
  import opened ForthWords
  import opened ForthSource

  datatype Control = CIf | CElif | CEndif | CDo | CLoop | CFor | CForLoop | CIndex | CCounter

  datatype Item =
    | Literal(n: int)
    | PrimWord(op: Prim)
    | ControlWord(control: Control)
    | UserWord(name: string)
    | Label
    | Branch(offset: int)
    | Recursive
    | End

  /** The data stack and the loop stack. */
  datatype State = State(s: seq<int>, l: seq<int>)

  /** A word's item list among those of all words. */
  datatype Program = Program(words: map<string, seq<Item>>, code: seq<Item>)

  datatype Outcome = Halt(st: State, left: nat) | MFault | MTimeout

  datatype Move = Move(st: State, ret: int) | Bad

  /** A control word: the stacks after it and the value it returns, by which the instruction pointer moves on. */
  function Act(c: Control, st: State): Move {
    var s, l, n, m := st.s, st.l, |st.s|, |st.l|;
    match c
    case CIf =>
      if n < 2 then Bad
      else Move(State(s[..n - 2], l), if s[n - 2] == FORTH_TRUE then 0 else s[n - 1])
    case CElif => if n < 1 then Bad else Move(State(s[..n - 1], l), s[n - 1])
    case CEndif => Move(st, 0)
    case CDo => if n < 2 then Bad else Move(State(s[..n - 2], l + [s[n - 1], s[n - 2]]), 0)
    case CLoop =>
      if m < 4 then Bad
      else
        var index := Wrap(l[m - 3] + 1);
        if index >= l[m - 2] then Move(State(s, l[..m - 4]), 0)
        else Move(State(s, l[..m - 3] + [index, l[m - 2]]), l[m - 4] - l[m - 1])
    case CFor => if n < 3 then Bad else Move(State(s[..n - 3], l + [s[n - 1], s[n - 2], s[n - 3]]), 0)
    case CForLoop =>
      if m < 5 then Bad
      else if ForEnds(l[m - 2], l[m - 3], l[m - 4]) then Move(State(s, l[..m - 5]), 0)
      else Move(State(s, l[..m - 2] + [Wrap(l[m - 2] + l[m - 4])]), l[m - 5] - l[m - 1])
    case CIndex => if m < 2 then Bad else Move(State(s + [l[m - 2]], l), 0)
    case CCounter => if m < 1 then Bad else Move(State(s + [l[m - 1]], l), 0)
  }

  /** execute_word from the instruction pointer ip on, for at most fuel items. */
  function Run(p: Program, ip: int, st: State, fuel: nat): (o: Outcome)
    ensures o.Halt? ==> o.left < fuel
    decreases fuel
  {
    if fuel == 0 then MTimeout
    else if ip < 0 || ip >= |p.code| then MFault
    else match p.code[ip]
      case End => Halt(st, fuel - 1)
      case Literal(n) => Run(p, ip + 1, State(st.s + [n], st.l), fuel - 1)
      case Branch(offset) => Run(p, ip + 1, State(st.s + [offset], st.l), fuel - 1)
      case Label => Run(p, ip + 1, State(st.s, st.l + [ip]), fuel - 1)
      case PrimWord(op) =>
        var r := Apply(op, st.s);
        if r.Some? then Run(p, ip + 1, State(r.value, st.l), fuel - 1) else MFault
      case ControlWord(c) =>
        var m := Act(c, st);
        if m.Move? then Run(p, ip + m.ret + 1, m.st, fuel - 1) else MFault
      case UserWord(name) =>
        if name in p.words then After(p, ip, Run(Program(p.words, p.words[name]), 0, st, fuel - 1), fuel) else MFault
      case Recursive => After(p, ip, Run(p, 0, st, fuel - 1), fuel)
  }

  /** Goes on after a call that ended with o. */
  function After(p: Program, ip: int, o: Outcome, fuel: nat): (o': Outcome)
    requires fuel > 0 && (o.Halt? ==> o.left < fuel - 1)
    ensures o'.Halt? ==> o'.left < fuel
    decreases fuel - 1
  {
    if o.Halt? then Run(p, ip + 1, o.st, o.left) else o
  }
}
