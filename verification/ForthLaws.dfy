/** What the words of kforth and its loops do, stated on stacks and numbers alone. */
module ForthLaws {
  import opened ForthWords
  import opened ForthSource
  import opened ForthCompiler

  predicate IsInt(x: int) {
    -0x8000_0000 <= x < 0x8000_0000
  }

  /** r is the 32-bit int that differs from x by a multiple of 2^32. */
  predicate Cut(r: int, x: int) {
    IsInt(r) && (r - x) % 0x1_0000_0000 == 0
  }

  lemma WrapCuts(x: int)
    ensures Cut(Wrap(x), x) && (IsInt(x) ==> Wrap(x) == x)
  {
  }

  /** The stack that is left has s below one element v. */
  predicate Leaves(r: Option<seq<int>>, s: seq<int>, v: int) {
    r == Some(s + [v])
  }

  // ----- arithmetic and comparison -----

  lemma Sums(s: seq<int>, x: int, y: int) returns (plus: int, minus: int, times: int, more: int)
    ensures Leaves(Apply(Plus, s + [x, y]), s, plus) && Cut(plus, x + y)
    ensures Leaves(Apply(Minus, s + [x, y]), s, minus) && Cut(minus, x - y)
    ensures Leaves(Apply(Times, s + [x, y]), s, times) && Cut(times, x * y)
    ensures Leaves(Apply(Increment, s + [x]), s, more) && Cut(more, x + 1)
  {
    WrapCuts(x + y);
    WrapCuts(x - y);
    WrapCuts(x * y);
    WrapCuts(x + 1);
    plus, minus, times, more := Wrap(x + y), Wrap(x - y), Wrap(x * y), Wrap(x + 1);
    assert (s + [x])[|s| := more] == s + [more];
  }

  /** x y - y + gives x back. */
  lemma MinusThenPlus(s: seq<int>, x: int, y: int)
    requires IsInt(x)
    ensures Apply(Minus, s + [x, y]).Some?
    ensures Apply(Plus, Apply(Minus, s + [x, y]).value + [y]) == Some(s + [x])
  {
    hide Wrap, Apply, Cut;
    var _, d, _, _ := Sums(s, x, y);
    var z, _, _, _ := Sums(s, d, y);
    assert s + [d] + [y] == s + [d, y];
    CutBack(x, y, d, z);
  }

  lemma CutBack(x: int, y: int, d: int, z: int)
    requires IsInt(x) && Cut(d, x - y) && Cut(z, d + y)
    ensures z == x
  {
  }

  lemma Comparisons(s: seq<int>, x: int, y: int)
    ensures Apply(Equal, s + [x, y]) == Some(s + [if x == y then -1 else 0])
    ensures Apply(NotEqual, s + [x, y]) == Some(s + [if x == y then 0 else -1])
    ensures Apply(Less, s + [x, y]) == Some(s + [if x < y then -1 else 0])
    ensures Apply(Greater, s + [x, y]) == Some(s + [if y < x then -1 else 0])
    ensures Apply(GreaterEqual, s + [x, y]) == Some(s + [if x < y then 0 else -1])
  {
  }

  lemma Maximum(s: seq<int>, x: int, y: int) returns (m: int)
    ensures Leaves(Apply(Max, s + [x, y]), s, m) && (m == x || m == y) && m >= x && m >= y
  {
    m := if y > x then y else x;
  }

  // ----- the stack words -----

  lemma StackWords(s: seq<int>, x: int, y: int, z: int)
    ensures Apply(Dup, s + [x]) == Some(s + [x, x])
    ensures Apply(Drop, s + [x]) == Some(s) && Apply(Drop, []) == Some([])
    ensures Apply(Swap, s + [x, y]) == Some(s + [y, x])
    ensures Apply(Over, s + [x, y]) == Some(s + [x, y, x])
    ensures Apply(Tuck, s + [x, y]) == Some(s + [y, x, y])
    ensures Apply(Rot, s + [x, y, z]) == Some(s + [y, z, x])
  {
    assert s + [x] + [x] == s + [x, x] && s + [x, y] + [x] == s + [x, y, x];
    assert (s + [x])[..|s|] == (s + [x, y])[..|s|] == (s + [x, y, z])[..|s|] == s;
  }

  lemma SwapTwice(s: seq<int>, x: int, y: int)
    ensures Apply(Swap, s + [x, y]).Some? && Apply(Swap, Apply(Swap, s + [x, y]).value) == Some(s + [x, y])
  {
    StackWords(s, x, y, 0);
    StackWords(s, y, x, 0);
  }

  lemma RotThrice(s: seq<int>, x: int, y: int, z: int)
    ensures Apply(Rot, s + [x, y, z]).Some? && Apply(Rot, Apply(Rot, s + [x, y, z]).value).Some?
    ensures Apply(Rot, Apply(Rot, Apply(Rot, s + [x, y, z]).value).value) == Some(s + [x, y, z])
  {
    StackWords(s, x, y, z);
    StackWords(s, y, z, x);
    StackWords(s, z, x, y);
  }

  /** k pick copies the element with k others above it, k roll brings it up. */
  lemma PickAndRoll(s: seq<int>, x: int, t: seq<int>)
    ensures Apply(Pick, s + [x] + t + [|t|]) == Some(s + [x] + t + [x])
    ensures Apply(Roll, s + [x] + t + [|t|]) == Some(s + t + [x])
    ensures multiset(s + t + [x]) == multiset(s + [x] + t)
  {
    var w := s + [x] + t + [|t|];
    assert w[|s|] == x && w[..|s|] == s && w[|s| + 1..|w| - 1] == t;
    assert w[|w| - 1 := x] == s + [x] + t + [x];
  }

  /** The words that need more than there is, or an element that is not there, fail. */
  lemma TooFew(op: Prim, s: seq<int>)
    ensures op.Rot? ==> (Apply(op, s) == None <==> |s| < 3)
    ensures op.Dup? || op.Increment? ==> (Apply(op, s) == None <==> s == [])
    ensures op.Drop? ==> Apply(op, s) != None
    ensures op.Pick? ==> (Apply(op, s) == None <==> s == [] || !(-1 <= s[|s| - 1] < |s| - 1))
    ensures op.Roll? ==> (Apply(op, s) == None <==> s == [] || !(0 <= s[|s| - 1] < |s| - 1 || (s[|s| - 1] == -1 && |s| >= 2)))
    ensures !(op.Rot? || op.Dup? || op.Increment? || op.Drop? || op.Pick? || op.Roll?) ==> (Apply(op, s) == None <==> |s| < 2)
  {
  }

  // ----- branches and loops -----

  /** if takes the first part after -1 and the second after anything else. */
  lemma IfElse(e: Env, a: Block, b: Block, s: seq<int>, x: int, fs: seq<Frame>, fuel: nat)
    ensures ExecStmt(e, If(Elif(a, Last(b))), s + [x], fs, fuel) ==
            if x == -1 then ExecBlock(e, a, s, fs, fuel) else ExecBlock(e, b, s, fs, fuel)
    ensures ExecStmt(e, If(Last(a)), s + [x], fs, fuel) == if x == -1 then ExecBlock(e, a, s, fs, fuel) else Ok(s)
  {
    assert (s + [x])[..|s|] == s;
    ChainEnd(e, b, s, fs, fuel);
    ChainEnd(e, a, s, fs, fuel);
    var r := ExecBlock(e, a, s, fs, fuel);
    if r.Ok? { ChainEnd(e, b, r.stack, fs, fuel); }
  }

  lemma ChainEnd(e: Env, b: Block, s: seq<int>, fs: seq<Frame>, fuel: nat)
    ensures ExecChain(e, Last(b), true, s, fs, fuel) == ExecBlock(e, b, s, fs, fuel)
    ensures ExecChain(e, Last(b), false, s, fs, fuel) == Ok(s)
  {
  }

  /** How statements are spelled. */
  lemma Spelled(n: int, op: Prim, word: string, a: Block)
    ensures Text(Nil) == [] && Text(Seq(Push(n), a)) == [TInt(n)] + Text(a) && Text(Seq(Do(op), a)) == [TPrim(op)] + Text(a)
    ensures Text(Seq(Index, a)) == [TIndex] + Text(a) && Text(Seq(Counter, a)) == [TCounter] + Text(a)
    ensures Text(Seq(Call(word), a)) == [TUser(word)] + Text(a) && Text(Seq(Recurse, a)) == [TSelf] + Text(a)
    ensures Text(Seq(DoLoop(a), Nil)) == [TDo] + Text(a) + [TLoop] && Text(Seq(ForLoop(a), Nil)) == [TFor] + Text(a) + [TForLoop]
  {
  }

  lemma BranchSpelled(a: Block, b: Block)
    ensures StmtText(If(Last(a))) == [TIf] + Text(a) + [TEndif]
    ensures StmtText(If(Elif(a, Last(b)))) == [TIf] + Text(a) + [TElif] + Text(b) + [TEndif]
  {
    assert ChainText(Last(a)) == Text(a) + [TEndif] && ChainText(Last(b)) == Text(b) + [TEndif];
    assert ChainText(Elif(a, Last(b))) == Text(a) + [TElif] + ChainText(Last(b));
  }

  /** from, from + 1, and so on, n numbers. */
  function Numbers(from: int, n: nat): seq<int>
    decreases n
  {
    if n == 0 then [] else [from] + Numbers(from + 1, n - 1)
  }

  /** limit index do I loop leaves index, index + 1, up to limit - 1, and one number if the index is at the limit already. */
  lemma DoCounts(e: Env, s: seq<int>, limit: int, index: int, fs: seq<Frame>, fuel: nat)
    requires IsInt(index) && index < 0x7fff_ffff && IsInt(limit) && fuel >= limit - index
    ensures ExecStmt(e, DoLoop(Seq(Index, Nil)), s + [limit, index], fs, fuel)
            == Ok(s + Numbers(index, if index < limit then limit - index else 1))
  {
    assert (s + [limit, index])[..|s|] == s;
    DoCountsFrom(e, s, limit, index, fs, fuel);
  }

  lemma {:induction false} DoCountsFrom(e: Env, s: seq<int>, limit: int, index: int, fs: seq<Frame>, fuel: nat)
    requires IsInt(index) && index < 0x7fff_ffff && IsInt(limit) && fuel >= limit - index
    ensures ExecDo(e, Seq(Index, Nil), index, limit, s, fs, fuel)
            == Ok(s + Numbers(index, if index < limit then limit - index else 1))
    decreases fuel
  {
    hide Wrap, ExecBlock;
    WrapCuts(index + 1);
    BodyPushes(e, Index, s, fs + [DoFrame(index, limit)], fuel, index);
    if index + 1 < limit {
      DoCountsFrom(e, s + [index], limit, index + 1, fs, fuel - 1);
      assert s + [index] + Numbers(index + 1, limit - (index + 1)) == s + Numbers(index, limit - index);
    } else {
      assert Numbers(index + 1, 0) == [] && Numbers(index, 1) == [index];
    }
  }

  lemma BodyPushes(e: Env, st: Stmt, s: seq<int>, fs: seq<Frame>, fuel: nat, v: int)
    requires fs != [] && (st == Index || st == Counter)
    requires var f := fs[|fs| - 1];
      if f.DoFrame? then st == Index && f.index == v else if st == Index then f.b == v else f.a == v
    ensures ExecBlock(e, Seq(st, Nil), s, fs, fuel) == Ok(s + [v])
  {
  }

  /** I is the index of the innermost do loop and the limit of the innermost for loop, A the limit of a do loop and the
      counter of a for loop; outside of loops both fail. */
  lemma LoopValues(e: Env, s: seq<int>, fs: seq<Frame>, index: int, limit: int, a: int, b: int, c: int, fuel: nat)
    ensures ExecStmt(e, Index, s, fs + [DoFrame(index, limit)], fuel) == Ok(s + [index])
    ensures ExecStmt(e, Counter, s, fs + [DoFrame(index, limit)], fuel) == Ok(s + [limit])
    ensures ExecStmt(e, Index, s, fs + [ForFrame(a, b, c)], fuel) == Ok(s + [b])
    ensures ExecStmt(e, Counter, s, fs + [ForFrame(a, b, c)], fuel) == Ok(s + [a])
    ensures ExecStmt(e, Index, s, [], fuel) == Fault == ExecStmt(e, Counter, s, [], fuel)
  {
  }

  /** Whether a for loop ends: the limit lies between the counter and the next one. */
  lemma ForStops(a: int, b: int, c: int)
    requires IsInt(a + c)
    ensures ForEnds(a, b, c) <==> a <= b <= a + c || a + c <= b <= a
  {
    WrapCuts(a + c);
  }

  /** w counts from a in steps of c while that stays before b. */
  predicate Counts(w: seq<int>, a: int, b: int, c: int) {
    && w != [] && w[0] == a && (forall i :: 0 < i < |w| ==> w[i] == w[i - 1] + c)
    && (forall i :: 0 < i < |w| ==> if c > 0 then w[i] < b else w[i] > b)
    && (if c > 0 then w[|w| - 1] + c >= b else w[|w| - 1] + c <= b)
  }

  /** a b c for A loop leaves a, and after it the numbers in steps of c before b, upwards or downwards. */
  lemma ForCounts(e: Env, s: seq<int>, a: int, b: int, c: int, fs: seq<Frame>, fuel: nat) returns (w: seq<int>)
    requires IsInt(a) && IsInt(b + c) && fuel >= (if a < b then b - a else a - b)
    requires if c > 0 then a <= b else c < 0 && b <= a
    ensures Counts(w, a, b, c)
    ensures ExecStmt(e, ForLoop(Seq(Counter, Nil)), s + [a, b, c], fs, fuel) == Ok(s + w)
  {
    assert (s + [a, b, c])[..|s|] == s;
    w := ForCountsFrom(e, s, a, b, c, fs, fuel);
  }

  lemma {:induction false} ForCountsFrom(e: Env, s: seq<int>, a: int, b: int, c: int, fs: seq<Frame>, fuel: nat) returns (w: seq<int>)
    requires IsInt(a) && IsInt(b + c) && fuel >= (if a < b then b - a else a - b)
    requires if c > 0 then a <= b else c < 0 && b <= a
    ensures Counts(w, a, b, c)
    ensures ExecFor(e, Seq(Counter, Nil), a, b, c, s, fs, fuel) == Ok(s + w)
    decreases fuel
  {
    hide Wrap, ExecBlock, ForEnds;
    WrapCuts(a + c);
    BodyPushes(e, Counter, s, fs + [ForFrame(a, b, c)], fuel, a);
    ForStops(a, b, c);
    if ForEnds(a, b, c) {
      w := [a];
    } else {
      var v := ForCountsFrom(e, s + [a], a + c, b, c, fs, fuel - 1);
      w := [a] + v;
      assert s + [a] + v == s + w;
      forall i | 0 < i < |w| ensures w[i] == w[i - 1] + c && if c > 0 then w[i] < b else w[i] > b {
        assert w[i] == v[i - 1] && (i > 1 ==> w[i - 1] == v[i - 2]);
      }
      assert w[|w| - 1] == v[|v| - 1];
    }
  }
}
