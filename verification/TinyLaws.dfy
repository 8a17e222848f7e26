/** What programs of tinylisp mean, stated on the expressions as they are typed. */
module TinyLaws {
  import opened TinyStore
  import opened TinyMeaning

  /** The list of xs. */
  function List(xs: seq<Sexp>, nil: Boxed): Sexp {
    if xs == [] then Leaf(nil) else Pair(false, xs[0], List(xs[1..], nil))
  }

  function Leaves(xs: seq<Boxed>): (r: seq<Sexp>)
    ensures |r| == |xs| && forall i :: 0 <= i < |xs| ==> r[i] == Leaf(xs[i])
  {
    seq(|xs|, i requires 0 <= i < |xs| => Leaf(xs[i]))
  }

  // ----- looking up and binding -----

  lemma FoundFirst(v: Boxed, w: Boxed, x: Sexp, e: Sexp, err: Boxed)
    ensures Lookup(v, Pair(false, Pair(false, Leaf(v), x), e), err) == x
    ensures w != v ==> Lookup(w, Pair(false, Pair(false, Leaf(v), x), e), err) == Lookup(w, e, err)
    ensures e.Leaf? ==> Lookup(w, e, err) == Leaf(err)
  {
  }

  /** A name that is no parameter means what it did. */
  lemma {:induction false} OthersKept(ps: seq<Boxed>, t: Sexp, e: Sexp, nil: Boxed, err: Boxed, w: Boxed)
    requires Tag(nil) == NIL && w !in ps
    ensures Lookup(w, BoundTo(List(Leaves(ps), nil), t, e, err), err) == Lookup(w, e, err)
    decreases |ps|
  {
    if ps != [] {
      assert Leaves(ps)[1..] == Leaves(ps[1..]);
      FoundFirst(ps[0], w, CarOf(t, err), e, err);
      OthersKept(ps[1..], CdrOf(t, err), Bound(Leaf(ps[0]), CarOf(t, err), e), nil, err, w);
    }
  }

  /** Inside a closure each parameter means its argument. */
  lemma {:induction false} ParametersBound(ps: seq<Boxed>, xs: seq<Sexp>, e: Sexp, nil: Boxed, err: Boxed, i: nat)
    requires Tag(nil) == NIL && |ps| == |xs| && i < |ps| && forall j, l :: 0 <= j < l < |ps| ==> ps[j] != ps[l]
    ensures Lookup(ps[i], BoundTo(List(Leaves(ps), nil), List(xs, nil), e, err), err) == xs[i]
    decreases |ps|
  {
    assert Leaves(ps)[1..] == Leaves(ps[1..]);
    var e' := Bound(Leaf(ps[0]), xs[0], e);
    if i == 0 {
      FoundFirst(ps[0], ps[0], xs[0], e, err);
      OthersKept(ps[1..], List(xs[1..], nil), e', nil, err, ps[0]);
    } else {
      ParametersBound(ps[1..], xs[1..], e', nil, err, i - 1);
    }
  }

  /** The name behind a dot means the arguments that are left. */
  lemma RestBound(p: Boxed, r: Boxed, x: Sexp, xs: Sexp, e: Sexp, err: Boxed)
    requires Tag(r) == ATOM && p != r
    ensures var b := BoundTo(Pair(false, Leaf(p), Leaf(r)), Pair(false, x, xs), e, err);
      Lookup(r, b, err) == xs && Lookup(p, b, err) == x
    ensures Lookup(r, BoundTo(Leaf(r), xs, e, err), err) == xs
  {
  }

  lemma Truths(k: Consts)
    ensures Truth(k, true) == Leaf(k.tru) && Truth(k, false) == Leaf(k.nil)
  {
  }

  // ----- calls -----

  /** In e the atom a is the name of primitive p. */
  predicate Names(k: Consts, e: Sexp, a: Boxed, p: nat) {
    Tag(a) == ATOM && p < PRIMS && Lookup(a, e, k.err).Leaf?
    && Tag(Lookup(a, e, k.err).bits) == PRIM && Ord(Lookup(a, e, k.err).bits) == p
  }

  /** (x . t). */
  function Dot(x: Sexp, t: Sexp): Sexp {
    Pair(false, x, t)
  }

  lemma CallPrimitive(k: Consts, n: nat, a: Boxed, p: nat, t: Sexp, e: Sexp, g: Sexp, v: Sexp, g': Sexp) returns (m: nat)
    requires Names(k, e, a, p) && Evals(k, n, Dot(Leaf(a), t), e, g, v, g')
    ensures n == m + 2 && Primes(k, m, p, t, e, g, v, g')
  {
    var x := Dot(Leaf(a), t);
    var l: nat, f, g1 :| n == l + 1 && Evals(k, l, x.car, e, g, f, g1) && Applies(k, l, f, x.cdr, e, g1, v, g');
    m := l - 1;
  }

  /** (quote x). */
  lemma Quote(k: Consts, n: nat, a: Boxed, x: Sexp, e: Sexp, g: Sexp, v: Sexp, g': Sexp)
    requires Names(k, e, a, 1) && Evals(k, n, Dot(Leaf(a), Dot(x, Leaf(k.nil))), e, g, v, g')
    ensures v == x && g' == g
  {
    var m := CallPrimitive(k, n, a, 1, Dot(x, Leaf(k.nil)), e, g, v, g');
  }

  /** (if c x y) is x if the value of c is not (), else y. */
  lemma If(k: Consts, n: nat, a: Boxed, c: Sexp, x: Sexp, y: Sexp, e: Sexp, g: Sexp, v: Sexp, g': Sexp)
      returns (m: nat, w: Sexp, g1: Sexp)
    requires Names(k, e, a, 16) && Evals(k, n, Dot(Leaf(a), Dot(c, Dot(x, Dot(y, Leaf(k.nil))))), e, g, v, g')
    ensures Evals(k, m, c, e, g, w, g1) && Evals(k, m, if IsNil(w) then y else x, e, g1, v, g')
  {
    var t := Dot(c, Dot(x, Dot(y, Leaf(k.nil))));
    var l := CallPrimitive(k, n, a, 16, t, e, g, v, g');
    assert Ifs(k, l, t, e, g, v, g');
    m, w, g1 :| l == m + 1 && Evals(k, m, CarOf(t, k.err), e, g, w, g1)
      && Evals(k, m, CarOf(CdrOf(if IsNil(w) then CdrOf(t, k.err) else t, k.err), k.err), e, g1, v, g');
  }

  /** (define s x) puts a binding of s to the value of x in front of the global environment x has left, and gives s. */
  lemma Define(k: Consts, n: nat, a: Boxed, s: Sexp, x: Sexp, e: Sexp, g: Sexp, v: Sexp, g': Sexp)
      returns (m: nat, w: Sexp, g1: Sexp)
    requires Names(k, e, a, 19) && Evals(k, n, Dot(Leaf(a), Dot(s, Dot(x, Leaf(k.nil)))), e, g, v, g')
    ensures v == s && Evals(k, m, x, e, g, w, g1) && g' == Dot(Dot(s, w), g1)
  {
    var t := Dot(s, Dot(x, Leaf(k.nil)));
    var l := CallPrimitive(k, n, a, 19, t, e, g, v, g');
    assert Defines(k, l, t, e, g, v, g');
    m, w, g1 :| l == m + 1 && Evals(k, m, CarOf(CdrOf(t, k.err), k.err), e, g, w, g1) && g' == Bound(v, w, g1);
  }

  /** (lambda ps b) is the closure of ps and b with the environment; the global one may be left out. */
  lemma Lambda(k: Consts, n: nat, a: Boxed, ps: Sexp, b: Sexp, e: Sexp, g: Sexp, v: Sexp, g': Sexp)
    requires Names(k, e, a, 18) && Evals(k, n, Dot(Leaf(a), Dot(ps, Dot(b, Leaf(k.nil)))), e, g, v, g')
    ensures g' == g && (v == Pair(true, Dot(ps, b), e) || (e == g && v == Pair(true, Dot(ps, b), Leaf(k.nil))))
  {
    var m := CallPrimitive(k, n, a, 18, Dot(ps, Dot(b, Leaf(k.nil))), e, g, v, g');
  }

  /** (let* (s x) b) is b with s bound to the value of x. */
  lemma LetOne(k: Consts, n: nat, a: Boxed, s: Sexp, x: Sexp, b: Sexp, e: Sexp, g: Sexp, v: Sexp, g': Sexp)
      returns (m: nat, w: Sexp, g1: Sexp)
    requires Names(k, e, a, 17) && Tag(k.nil) == NIL
    requires Evals(k, n, Dot(Leaf(a), Dot(Dot(s, Dot(x, Leaf(k.nil))), Dot(b, Leaf(k.nil)))), e, g, v, g')
    ensures m > 0 && Evals(k, m, x, e, g, w, g1) && Evals(k, m - 1, b, Dot(Dot(s, w), e), g1, v, g')
  {
    var t := Dot(Dot(s, Dot(x, Leaf(k.nil))), Dot(b, Leaf(k.nil)));
    var l := CallPrimitive(k, n, a, 17, t, e, g, v, g');
    assert Lets(k, l, t, e, g, v, g');
    var binding := CarOf(t, k.err);
    m, w, g1 :| l == m + 1 && Evals(k, m, CarOf(CdrOf(binding, k.err), k.err), e, g, w, g1)
      && Lets(k, m, CdrOf(t, k.err), Bound(CarOf(binding, k.err), w, e), g1, v, g');
  }

  /** (or x y) is the value of x unless that is (), else that of y; (and x y) the other way round. */
  lemma OrAnd(k: Consts, n: nat, a: Boxed, isOr: bool, x: Sexp, y: Sexp, e: Sexp, g: Sexp, v: Sexp, g': Sexp)
      returns (m: nat, w: Sexp, g1: Sexp)
    requires Names(k, e, a, if isOr then 12 else 13) && Tag(k.nil) == NIL
    requires Evals(k, n, Dot(Leaf(a), Dot(x, Dot(y, Leaf(k.nil)))), e, g, v, g')
    ensures Evals(k, m, x, e, g, w, g1)
    ensures if isOr != IsNil(w) then v == w && g' == g1 else m > 0 && Evals(k, m - 1, y, e, g1, v, g')
  {
    var t := Dot(x, Dot(y, Leaf(k.nil)));
    var l := CallPrimitive(k, n, a, if isOr then 12 else 13, t, e, g, v, g');
    assert Chooses(k, l, t, e, isOr, Leaf(k.nil), g, v, g');
    m, w, g1 := OneChoice(k, l, t, e, isOr, Leaf(k.nil), g, v, g');
    if IsNil(w) == isOr {
      var j, u, g2 := OneChoice(k, m, Dot(y, Leaf(k.nil)), e, isOr, w, g1, v, g');
      if IsNil(u) == isOr { LastChoice(k, j, e, isOr, u, g2, v, g'); }
    }
  }

  lemma OneChoice(k: Consts, n: nat, t: Sexp, e: Sexp, isOr: bool, last: Sexp, g: Sexp, v: Sexp, g': Sexp)
      returns (m: nat, w: Sexp, g1: Sexp)
    requires Chooses(k, n, t, e, isOr, last, g, v, g') && !IsNil(t)
    ensures n == m + 1 && Evals(k, m, CarOf(t, k.err), e, g, w, g1)
    ensures if IsNil(w) != isOr then v == w && g' == g1 else Chooses(k, m, CdrOf(t, k.err), e, isOr, w, g1, v, g')
  {
    m, w, g1 :| n == m + 1 && Evals(k, m, CarOf(t, k.err), e, g, w, g1)
      && if IsNil(w) != isOr then v == w && g' == g1 else Chooses(k, m, CdrOf(t, k.err), e, isOr, w, g1, v, g');
  }

  lemma LastChoice(k: Consts, n: nat, e: Sexp, isOr: bool, last: Sexp, g: Sexp, v: Sexp, g': Sexp)
    requires Chooses(k, n, Leaf(k.nil), e, isOr, last, g, v, g') && Tag(k.nil) == NIL
    ensures v == last && g' == g
  {
  }

  /** (cond (c x) (d y)): x if the value of c is not (), else y, if the value of d is not (). */
  lemma CondTwo(k: Consts, n: nat, a: Boxed, c: Sexp, x: Sexp, d: Sexp, y: Sexp, e: Sexp, g: Sexp, v: Sexp, g': Sexp)
      returns (m: nat, w: Sexp, g1: Sexp, u: Sexp, g2: Sexp)
    requires Names(k, e, a, 15) && Tag(k.nil) == NIL
    requires Evals(k, n, Dot(Leaf(a), Dot(Dot(c, Dot(x, Leaf(k.nil))), Dot(Dot(d, Dot(y, Leaf(k.nil))), Leaf(k.nil)))), e, g, v, g')
    ensures Evals(k, m, c, e, g, w, g1)
    ensures if !IsNil(w) then Evals(k, m, x, e, g1, v, g')
            else m > 0 && Evals(k, m - 1, d, e, g1, u, g2) && (!IsNil(u) ==> Evals(k, m - 1, y, e, g2, v, g'))
  {
    var rest := Dot(Dot(d, Dot(y, Leaf(k.nil))), Leaf(k.nil));
    var t := Dot(Dot(c, Dot(x, Leaf(k.nil))), rest);
    var l := CallPrimitive(k, n, a, 15, t, e, g, v, g');
    assert Conds(k, l, t, e, g, v, g');
    m, w, g1 := OneCond(k, l, t, e, g, v, g');
    u, g2 := w, g1;
    if IsNil(w) {
      var j;
      j, u, g2 := OneCond(k, m, rest, e, g1, v, g');
    }
  }

  lemma OneCond(k: Consts, n: nat, t: Sexp, e: Sexp, g: Sexp, v: Sexp, g': Sexp) returns (m: nat, w: Sexp, g1: Sexp)
    requires Conds(k, n, t, e, g, v, g') && !IsNil(t)
    ensures n == m + 1 && Evals(k, m, CarOf(CarOf(t, k.err), k.err), e, g, w, g1)
    ensures if IsNil(w) then Conds(k, m, CdrOf(t, k.err), e, g1, v, g')
            else Evals(k, m, CarOf(CdrOf(CarOf(t, k.err), k.err), k.err), e, g1, v, g')
  {
    var clause := CarOf(t, k.err);
    var body := CarOf(CdrOf(clause, k.err), k.err);
    m, w, g1 :| n == m + 1 && Evals(k, m, CarOf(clause, k.err), e, g, w, g1)
      && if IsNil(w) then Conds(k, m, CdrOf(t, k.err), e, g1, v, g') else Evals(k, m, body, e, g1, v, g');
  }

  // ----- arguments -----

  lemma FirstValue(k: Consts, n: nat, x: Sexp, t: Sexp, e: Sexp, g: Sexp, v: Sexp, g': Sexp)
      returns (m: nat, w: Sexp, g1: Sexp, r: Sexp)
    requires Lists(k, n, Dot(x, t), e, g, v, g')
    ensures n == m + 1 && Evals(k, m, x, e, g, w, g1) && Lists(k, m, t, e, g1, r, g') && v == Dot(w, r)
  {
    var t' := Dot(x, t);
    m, w, g1, r :| n == m + 1 && Evals(k, m, t'.car, e, g, w, g1) && Lists(k, m, t'.cdr, e, g1, r, g') && v == Pair(false, w, r);
  }

  lemma NoMore(k: Consts, n: nat, e: Sexp, g: Sexp, v: Sexp, g': Sexp)
    requires Tag(k.nil) == NIL && Lists(k, n, Leaf(k.nil), e, g, v, g')
    ensures v == Leaf(k.nil) && g' == g
  {
  }

  /** A call of a closure of one parameter: its body, with the parameter bound to the value of the argument, in the
      environment of the closure, or in the global one if it has none. */
  lemma CallClosure(k: Consts, n: nat, p: Boxed, b: Sexp, scope: Sexp, x: Sexp, e: Sexp, g: Sexp, v: Sexp, g': Sexp)
      returns (m: nat, w: Sexp, g1: Sexp)
    requires Tag(k.nil) == NIL && Tag(p) == ATOM
    requires Evals(k, n, Dot(Pair(true, Dot(Dot(Leaf(p), Leaf(k.nil)), b), scope), Dot(x, Leaf(k.nil))), e, g, v, g')
    ensures Evals(k, m, x, e, g, w, g1)
    ensures Evals(k, m + 1, b, Dot(Dot(Leaf(p), w), if IsNil(scope) then g1 else scope), g1, v, g')
  {
    var f, t := Pair(true, Dot(Dot(Leaf(p), Leaf(k.nil)), b), scope), Dot(x, Leaf(k.nil));
    var l, args, g2 := ClosureParts(k, n, f, t, e, g, v, g');
    var r;
    m, w, g1, r := FirstValue(k, l, x, Leaf(k.nil), e, g, args, g2);
    NoMore(k, m, e, g1, r, g2);
    BoundOne(p, w, if IsNil(scope) then g1 else scope, k.nil, k.err);
  }

  lemma BoundOne(p: Boxed, w: Sexp, e: Sexp, nil: Boxed, err: Boxed)
    requires Tag(nil) == NIL
    ensures BoundTo(Dot(Leaf(p), Leaf(nil)), Dot(w, Leaf(nil)), e, err) == Dot(Dot(Leaf(p), w), e)
  {
  }

  lemma ClosureParts(k: Consts, n: nat, f: Sexp, t: Sexp, e: Sexp, g: Sexp, v: Sexp, g': Sexp) returns (m: nat, args: Sexp, g1: Sexp)
    requires f.Pair? && f.closure && f.car.Pair? && Evals(k, n, Dot(f, t), e, g, v, g')
    ensures Lists(k, m, t, e, g, args, g1)
    ensures Evals(k, m, f.car.cdr, BoundTo(f.car.car, args, if IsNil(f.cdr) then g1 else f.cdr, k.err), g1, v, g')
  {
    var x := Dot(f, t);
    var l: nat, f', g0 :| n == l + 1 && Evals(k, l, x.car, e, g, f', g0) && Applies(k, l, f', x.cdr, e, g0, v, g');
    assert Reduces(k, l - 1, f, t, e, g, v, g');
    var lambda, scope := CarOf(f, k.err), CdrOf(f, k.err);
    m, args, g1 :|
      && l - 1 == m + 1 && Lists(k, m, t, e, g, args, g1)
      && Evals(k, m, CdrOf(lambda, k.err), BoundTo(CarOf(lambda, k.err), args, if IsNil(scope) then g1 else scope, k.err), g1, v, g');
  }

  /** The strict primitives: their arguments have been evaluated. */
  lemma Arguments(k: Consts, n: nat, a: Boxed, p: nat, t: Sexp, e: Sexp, g: Sexp, v: Sexp, g': Sexp)
      returns (m: nat, args: Sexp, g1: Sexp)
    requires Names(k, e, a, p) && IsStrict(p) && Evals(k, n, Dot(Leaf(a), t), e, g, v, g')
    ensures Lists(k, m, t, e, g, args, g1) && Stricts(k, m + 1, p, args, e, g1, v, g')
  {
    var l := CallPrimitive(k, n, a, p, t, e, g, v, g');
    m, args, g1 :| l == m + 1 && Lists(k, m, t, e, g, args, g1) && Stricts(k, l, p, args, e, g1, v, g');
  }

  /** (cons x y), (< x y) and (eq? x y), after both have been evaluated from left to right. */
  lemma OfTwoValues(k: Consts, n: nat, a: Boxed, p: nat, x: Sexp, y: Sexp, e: Sexp, g: Sexp, v: Sexp, g': Sexp)
      returns (m: nat, c: Sexp, g1: Sexp, d: Sexp)
    requires Names(k, e, a, p) && Tag(k.nil) == NIL && (p == 2 || p == 10 || p == 11)
    requires Evals(k, n, Dot(Leaf(a), Dot(x, Dot(y, Leaf(k.nil)))), e, g, v, g')
    ensures m > 0 && Evals(k, m, x, e, g, c, g1) && Evals(k, m - 1, y, e, g1, d, g')
    ensures p == 2 ==> v == Dot(c, d)
    ensures p == 10 && c.Leaf? && d.Leaf? ==> v == Leaf(if k.less(c.bits, d.bits) then k.tru else k.nil)
    ensures p == 11 && (c.Leaf? || d.Leaf?) ==> v == Leaf(if c == d then k.tru else k.nil)
  {
    var l, args, g2 := Arguments(k, n, a, p, Dot(x, Dot(y, Leaf(k.nil))), e, g, v, g');
    var r, j, g3, r';
    m, c, g1, r := FirstValue(k, l, x, Dot(y, Leaf(k.nil)), e, g, args, g2);
    j, d, g3, r' := FirstValue(k, m, y, Leaf(k.nil), e, g1, r, g2);
    NoMore(k, j, e, g3, r', g2);
  }

  /** (eval x), (car x), (cdr x) and (not x), after x has been evaluated. */
  lemma OfOneValue(k: Consts, n: nat, a: Boxed, p: nat, x: Sexp, e: Sexp, g: Sexp, v: Sexp, g': Sexp)
      returns (m: nat, c: Sexp, g1: Sexp)
    requires Names(k, e, a, p) && Tag(k.nil) == NIL && (p == 0 || p == 3 || p == 4 || p == 14)
    requires Evals(k, n, Dot(Leaf(a), Dot(x, Leaf(k.nil))), e, g, v, g')
    ensures Evals(k, m, x, e, g, c, g1)
    ensures p == 0 ==> Evals(k, m + 1, c, e, g1, v, g')
    ensures p == 3 && c.Pair? ==> v == c.car && g' == g1
    ensures p == 4 && c.Pair? ==> v == c.cdr && g' == g1
    ensures p == 14 ==> v == Leaf(if IsNil(c) then k.tru else k.nil) && g' == g1
  {
    var l, args, g2 := Arguments(k, n, a, p, Dot(x, Leaf(k.nil)), e, g, v, g');
    var r;
    m, c, g1, r := FirstValue(k, l, x, Leaf(k.nil), e, g, args, g2);
    NoMore(k, m, e, g1, r, g2);
  }

  // ----- arithmetic -----

  /** The result of arithmetic is the floating-point unit's if that is a number; else an operand is passed through. */
  lemma ArithmeticExact(fpu: (nat, Boxed, Boxed) -> Boxed, op: nat, x: Boxed, y: Boxed)
    ensures IsNumber(fpu(op, x, y)) || fpu(op, x, y) == y ==> Arithmetic(fpu, op, x, y) == fpu(op, x, y)
    ensures !IsNumber(fpu(op, x, y)) && fpu(op, x, y) != y ==> Arithmetic(fpu, op, x, y) == x
  {
  }

  /** ((x op xs[0]) op xs[1]) and so on. */
  function LeftFold(fpu: (nat, Boxed, Boxed) -> Boxed, op: nat, x: Boxed, xs: seq<Boxed>): Boxed
    decreases |xs|
  {
    if xs == [] then x else LeftFold(fpu, op, fpu(op, x, xs[0]), xs[1..])
  }

  /** All the partial results are numbers. */
  predicate AllNumbers(fpu: (nat, Boxed, Boxed) -> Boxed, op: nat, x: Boxed, xs: seq<Boxed>)
    decreases |xs|
  {
    xs == [] || (IsNumber(fpu(op, x, xs[0])) && AllNumbers(fpu, op, fpu(op, x, xs[0]), xs[1..]))
  }

  lemma {:induction false} FoldValue(k: Consts, n: nat, op: nat, x: Boxed, xs: seq<Boxed>, v: Sexp)
    requires op != 9 && Tag(k.nil) == NIL && AllNumbers(k.fpu, op, x, xs)
    requires Folds(k, n, op, Leaf(x), List(Leaves(xs), k.nil), v)
    ensures v == Leaf(LeftFold(k.fpu, op, x, xs))
    decreases |xs|
  {
    if xs != [] {
      assert Leaves(xs)[1..] == Leaves(xs[1..]);
      var t := List(Leaves(xs), k.nil);
      var m: nat, s :| n == m + 1 && Computes(k, op, Leaf(x), CarOf(t, k.err), s) && Folds(k, m, op, s, CdrOf(t, k.err), v);
      ArithmeticExact(k.fpu, op, x, xs[0]);
      FoldValue(k, m, op, k.fpu(op, x, xs[0]), xs[1..], v);
    }
  }

  lemma {:induction false} ListOfNumbers(k: Consts, n: nat, xs: seq<Boxed>, e: Sexp, g: Sexp, v: Sexp, g': Sexp)
    requires Tag(k.nil) == NIL && forall i :: 0 <= i < |xs| ==> !IsTagged(xs[i])
    requires Lists(k, n, List(Leaves(xs), k.nil), e, g, v, g')
    ensures v == List(Leaves(xs), k.nil) && g' == g
    decreases |xs|
  {
    if xs == [] {
      NoMore(k, n, e, g, v, g');
    } else {
      assert Leaves(xs)[1..] == Leaves(xs[1..]);
      var m, w, g1, r := FirstValue(k, n, Leaf(xs[0]), List(Leaves(xs[1..]), k.nil), e, g, v, g');
      ListOfNumbers(k, m, xs[1..], e, g1, r, g');
    }
  }

  /** (+ x1 .. xk), and so for -, * and /: on numbers whose partial results are numbers, the value is what the
      floating-point unit makes of them from left to right. */
  lemma OperatorValue(k: Consts, n: nat, a: Boxed, op: nat, x: Boxed, xs: seq<Boxed>, e: Sexp, g: Sexp, v: Sexp, g': Sexp)
    requires Names(k, e, a, op) && 5 <= op <= 8 && Tag(k.nil) == NIL
    requires !IsTagged(x) && (forall i :: 0 <= i < |xs| ==> !IsTagged(xs[i])) && AllNumbers(k.fpu, op, x, xs)
    requires Evals(k, n, Dot(Leaf(a), List(Leaves([x] + xs), k.nil)), e, g, v, g')
    ensures v == Leaf(LeftFold(k.fpu, op, x, xs)) && g' == g
  {
    var all := [x] + xs;
    var m, args, g1 := Arguments(k, n, a, op, List(Leaves(all), k.nil), e, g, v, g');
    ListOfNumbers(k, m, all, e, g, args, g1);
    assert Leaves(all)[1..] == Leaves(xs);
    FoldValue(k, m + 1, op, x, xs, v);
  }
}
