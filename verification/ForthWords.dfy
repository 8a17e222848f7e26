/** The primitive words of kforth (dictionary_1.c) on the data stack and the loop stack; the last element is the top. */
module ForthWords {

  const FORTH_TRUE: int := -1
  const FORTH_FALSE: int := 0

  /** A 32-bit int after an operation that may have left its range. */
  function Wrap(x: int): int {
    (x + 0x8000_0000) % 0x1_0000_0000 - 0x8000_0000
  }

  datatype Prim = Plus | Minus | Times | Increment | Equal | NotEqual | Less | Greater | GreaterEqual
    | Max | Dup | Drop | Swap | Rot | Over | Tuck | Pick | Roll

  datatype Option<T> = Some(value: T) | None

  function Flag(b: bool): int {
    if b then FORTH_TRUE else FORTH_FALSE
  }

  function Binary(op: Prim, x: int, y: int): int
    requires op.Plus? || op.Minus? || op.Times? || op.Equal? || op.NotEqual? || op.Less? || op.Greater? || op.GreaterEqual? || op.Max?
  {
    match op
    case Plus => Wrap(x + y)
    case Minus => Wrap(x - y)
    case Times => Wrap(x * y)
    case Equal => Flag(x == y)
    case NotEqual => Flag(x != y)
    case Less => Flag(x < y)
    case Greater => Flag(x > y)
    case GreaterEqual => Flag(x >= y)
    case Max => if y > x then y else x
  }

  /** How many elements a primitive reads. */
  function Needs(op: Prim): nat {
    match op
    case Drop => 0
    case Increment => 1
    case Dup => 1
    case Pick => 1
    case Roll => 1
    case Rot => 3
    case _ => 2
  }

  /** The data stack after a primitive; None where the C code would read outside the stack. */
  function Apply(op: Prim, s: seq<int>): Option<seq<int>> {
    if |s| < Needs(op) then None
    else
      var n := |s|;
      match op
      case Increment => Some(s[n - 1 := Wrap(s[n - 1] + 1)])
      case Dup => Some(s + [s[n - 1]])
      case Drop => Some(if n > 0 then s[..n - 1] else s)
      case Swap => Some(s[..n - 2] + [s[n - 1], s[n - 2]])
      case Rot => Some(s[..n - 3] + [s[n - 2], s[n - 1], s[n - 3]])
      case Over => Some(s + [s[n - 2]])
      case Tuck => Some(s[..n - 2] + [s[n - 1], s[n - 2], s[n - 1]])
      case Pick =>
        var k := n - 2 - s[n - 1];
        if 0 <= k < n then Some(s[n - 1 := s[k]]) else None
      case Roll =>
        var k := n - 2 - s[n - 1];
        if 0 <= k <= n - 2 then Some(s[..k] + s[k + 1..n - 1] + [s[k]])
        else if n >= 2 && k == n - 1 then Some(s[..n - 2] + [s[k]]) // top is -1: nothing is rolled, and what is below it goes
        else None
      case _ => Some(s[..n - 2] + [Binary(op, s[n - 2], s[n - 1])])
  }
}
