/** The language of lisp2.c on trees: evaluation as a relation, with no cells, addresses or collection. */
module TinyMeaning {
  import opened TinyStore

  /** The constants, and what the floating-point unit makes of operands. */
  datatype Consts = Consts(nil: Boxed, tru: Boxed, err: Boxed, fpu: (nat, Boxed, Boxed) -> Boxed, less: (Boxed, Boxed) -> bool)

  /** ((v . x) . e). */
  function Bound(v: Sexp, x: Sexp, e: Sexp): Sexp {
    Pair(false, Pair(false, v, x), e)
  }

  function CarOf(t: Sexp, err: Boxed): Sexp {
    if t.Pair? then t.car else Leaf(err)
  }

  function CdrOf(t: Sexp, err: Boxed): Sexp {
    if t.Pair? then t.cdr else Leaf(err)
  }

  predicate IsNil(t: Sexp) {
    t.Leaf? && Tag(t.bits) == NIL
  }

  /** The value of atom v in the list of pairs e: that of the first pair with v, or the error atom. */
  function Lookup(v: Boxed, e: Sexp, err: Boxed): Sexp {
    if e.Leaf? || e.closure then Leaf(err)
    else if CarOf(e.car, err) == Leaf(v) then CdrOf(e.car, err)
    else Lookup(v, e.cdr, err)
  }

  /** The environment e with the parameters v bound to the arguments t. */
  function BoundTo(v: Sexp, t: Sexp, e: Sexp, err: Boxed): Sexp {
    match v
    case Leaf(bits) => if Tag(bits) == NIL then e else Bound(v, t, e)
    case Pair(closure, car, cdr) =>
      if closure then Bound(v, t, e) else BoundTo(cdr, CdrOf(t, err), Bound(car, CarOf(t, err), e), err)
  }

  lemma BoundCases(v: Sexp, t: Sexp, e: Sexp, err: Boxed)
    ensures IsNil(v) ==> BoundTo(v, t, e, err) == e
    ensures (v.Leaf? && !IsNil(v)) || (v.Pair? && v.closure) ==> BoundTo(v, t, e, err) == Bound(v, t, e)
    ensures v.Pair? && !v.closure ==>
      BoundTo(v, t, e, err) == BoundTo(v.cdr, CdrOf(t, err), Bound(v.car, CarOf(t, err), e), err)
  {
  }

  /** Whether x is a boxed value of one of the five kinds rather than a number. */
  predicate IsTagged(x: Boxed) {
    ATOM <= Tag(x) <= NIL
  }

  /** A number, the NaN without a payload among them. */
  predicate IsNumber(x: Boxed) {
    !IsTagged(x) || IsNan(x)
  }

  /** The result of floating-point arithmetic: a number, or an operand that is not a number passed through. */
  function Arithmetic(fpu: (nat, Boxed, Boxed) -> Boxed, op: nat, x: Boxed, y: Boxed): (r: Boxed)
    ensures r == x || r == y || IsNumber(r)
  {
    var z := fpu(op, x, y);
    if IsNumber(z) || z == y then z else x
  }

  /** The same on trees; of operands that are pairs only their being passed through is said. */
  ghost predicate Computes(k: Consts, op: nat, x: Sexp, y: Sexp, r: Sexp) {
    if x.Leaf? && y.Leaf? then r == Leaf(Arithmetic(k.fpu, op, x.bits, y.bits))
    else r == x || r == y || (r.Leaf? && IsNumber(r.bits))
  }

  function Truth(k: Consts, b: bool): Sexp {
    Leaf(if b then k.tru else k.nil)
  }

  /** eq? on values that are not both pairs; two pairs that are the same are equal. */
  ghost predicate Same(k: Consts, x: Sexp, y: Sexp, v: Sexp) {
    if x.Leaf? || y.Leaf? then v == Truth(k, x == y)
    else v == Truth(k, false) || (v == Truth(k, true) && x == y)
  }

  /** In n steps x has in the environment e the value v, and the global environment has become g' from g. */
  ghost predicate Evals(k: Consts, n: nat, x: Sexp, e: Sexp, g: Sexp, v: Sexp, g': Sexp)
    decreases n, 0
  {
    && n > 0
    && match x
       case Leaf(bits) => g' == g && v == if Tag(bits) == ATOM then Lookup(bits, e, k.err) else x
       case Pair(closure, car, cdr) =>
         if closure then v == x && g' == g
         else exists m: nat, f, g1 :: n == m + 1 && Evals(k, m, car, e, g, f, g1) && Applies(k, m, f, cdr, e, g1, v, g')
  }

  /** f applied to the unevaluated arguments t. */
  ghost predicate Applies(k: Consts, n: nat, f: Sexp, t: Sexp, e: Sexp, g: Sexp, v: Sexp, g': Sexp)
    decreases n, 0
  {
    && n > 0
    && match f
       case Leaf(bits) =>
         if Tag(bits) == PRIM then Primes(k, n - 1, Ord(bits), t, e, g, v, g') else v == Leaf(k.err) && g' == g
       case Pair(closure, _, _) =>
         if closure then Reduces(k, n - 1, f, t, e, g, v, g') else v == Leaf(k.err) && g' == g
  }

  /** A closure: its body in its environment, or in the global one, with the parameters bound to the values of t. */
  ghost predicate Reduces(k: Consts, n: nat, f: Sexp, t: Sexp, e: Sexp, g: Sexp, v: Sexp, g': Sexp)
    decreases n, 0
  {
    var lambda, scope := CarOf(f, k.err), CdrOf(f, k.err);
    exists m: nat, args, g1 ::
      && n == m + 1 && Lists(k, m, t, e, g, args, g1)
      && Evals(k, m, CdrOf(lambda, k.err), BoundTo(CarOf(lambda, k.err), args, if IsNil(scope) then g1 else scope, k.err), g1, v, g')
  }

  /** The list of the values of the list t, from left to right. */
  ghost predicate Lists(k: Consts, n: nat, t: Sexp, e: Sexp, g: Sexp, v: Sexp, g': Sexp)
    decreases n, 0
  {
    if t.Pair? && !t.closure then
      exists m: nat, x, g1, r ::
        n == m + 1 && Evals(k, m, t.car, e, g, x, g1) && Lists(k, m, t.cdr, e, g1, r, g') && v == Pair(false, x, r)
    else n > 0 && Evals(k, n - 1, t, e, g, v, g')
  }

  /** Primitive p on the unevaluated arguments t. */
  ghost predicate Primes(k: Consts, n: nat, p: nat, t: Sexp, e: Sexp, g: Sexp, v: Sexp, g': Sexp)
    decreases n, 5
  {
    match p
    case 1 => v == CarOf(t, k.err) && g' == g
    case 12 => Chooses(k, n, t, e, true, Leaf(k.nil), g, v, g')
    case 13 => Chooses(k, n, t, e, false, Leaf(k.nil), g, v, g')
    case 15 => Conds(k, n, t, e, g, v, g')
    case 16 => Ifs(k, n, t, e, g, v, g')
    case 17 => Lets(k, n, t, e, g, v, g')
    case 18 => Lambdas(k, t, e, g, v) && g' == g
    case 19 => Defines(k, n, t, e, g, v, g')
    case _ => exists m: nat, args, g1 :: n == m + 1 && Lists(k, m, t, e, g, args, g1) && Stricts(k, n, p, args, e, g1, v, g')
  }

  /** The primitives that evaluate all their arguments first. */
  predicate IsStrict(p: nat) {
    p == 0 || 2 <= p <= 11 || p == 14
  }

  /** The closure of f_lambda; the global environment is left out of it. */
  ghost predicate Lambdas(k: Consts, t: Sexp, e: Sexp, g: Sexp, v: Sexp) {
    var lambda := Pair(false, CarOf(t, k.err), CarOf(CdrOf(t, k.err), k.err));
    v == Pair(true, lambda, e) || (v == Pair(true, lambda, Leaf(k.nil)) && e == g)
  }

  /** f_define: the global environment gains a binding in front. */
  ghost predicate Defines(k: Consts, n: nat, t: Sexp, e: Sexp, g: Sexp, v: Sexp, g': Sexp)
    decreases n, 2
  {
    && v == CarOf(t, k.err)
    && exists m: nat, x, g1 :: n == m + 1 && Evals(k, m, CarOf(CdrOf(t, k.err), k.err), e, g, x, g1) && g' == Bound(v, x, g1)
  }

  /** f_or (the first value that is not ()) and f_and (the first that is), or the last value. */
  ghost predicate Chooses(k: Consts, n: nat, t: Sexp, e: Sexp, isOr: bool, last: Sexp, g: Sexp, v: Sexp, g': Sexp)
    decreases n, 2
  {
    if IsNil(t) then v == last && g' == g
    else
      exists m: nat, x, g1 ::
        && n == m + 1 && Evals(k, m, CarOf(t, k.err), e, g, x, g1)
        && if IsNil(x) != isOr then v == x && g' == g1 else Chooses(k, m, CdrOf(t, k.err), e, isOr, x, g1, v, g')
  }

  ghost predicate Conds(k: Consts, n: nat, t: Sexp, e: Sexp, g: Sexp, v: Sexp, g': Sexp)
    decreases n, 2
  {
    var clause := CarOf(t, k.err);
    var body := CarOf(CdrOf(clause, k.err), k.err);
    if IsNil(t) then n > 0 && Evals(k, n - 1, body, e, g, v, g')
    else
      exists m: nat, x, g1 ::
        && n == m + 1 && Evals(k, m, CarOf(clause, k.err), e, g, x, g1)
        && if IsNil(x) then Conds(k, m, CdrOf(t, k.err), e, g1, v, g') else Evals(k, m, body, e, g1, v, g')
  }

  ghost predicate Ifs(k: Consts, n: nat, t: Sexp, e: Sexp, g: Sexp, v: Sexp, g': Sexp)
    decreases n, 2
  {
    exists m: nat, x, g1 ::
      && n == m + 1 && Evals(k, m, CarOf(t, k.err), e, g, x, g1)
      && Evals(k, m, CarOf(CdrOf(if IsNil(x) then CdrOf(t, k.err) else t, k.err), k.err), e, g1, v, g')
  }

  ghost predicate Lets(k: Consts, n: nat, t: Sexp, e: Sexp, g: Sexp, v: Sexp, g': Sexp)
    decreases n, 2
  {
    var binding := CarOf(t, k.err);
    if IsNil(t) || IsNil(CdrOf(t, k.err)) then n > 0 && Evals(k, n - 1, binding, e, g, v, g')
    else
      exists m: nat, x, g1 ::
        && n == m + 1 && Evals(k, m, CarOf(CdrOf(binding, k.err), k.err), e, g, x, g1)
        && Lets(k, m, CdrOf(t, k.err), Bound(CarOf(binding, k.err), x, e), g1, v, g')
  }

  /** The primitives on the list of their values. */
  ghost predicate Stricts(k: Consts, n: nat, p: nat, args: Sexp, e: Sexp, g: Sexp, v: Sexp, g': Sexp)
    decreases n, 1
  {
    var x, rest := CarOf(args, k.err), CdrOf(args, k.err);
    var y := CarOf(rest, k.err);
    match p
    case 0 => n > 0 && Evals(k, n - 1, x, e, g, v, g')
    case 2 => v == Pair(false, x, y) && g' == g
    case 3 => v == CarOf(x, k.err) && g' == g
    case 4 => v == CdrOf(x, k.err) && g' == g
    case 10 => g' == g && if x.Leaf? && y.Leaf? then v == Truth(k, k.less(x.bits, y.bits)) else v == Truth(k, true) || v == Truth(k, false)
    case 11 => Same(k, x, y, v) && g' == g
    case 14 => v == Truth(k, IsNil(x)) && g' == g
    case _ => Folds(k, n, p, x, rest, v) && g' == g
  }

  /** f_add, f_sub, f_mul and f_div over their arguments; f_int on its first. */
  ghost predicate Folds(k: Consts, n: nat, op: nat, sum: Sexp, t: Sexp, v: Sexp)
    decreases n
  {
    if op == 9 then Computes(k, op, sum, sum, v)
    else if IsNil(t) then v == sum
    else exists m: nat, s :: n == m + 1 && Computes(k, op, sum, CarOf(t, k.err), s) && Folds(k, m, op, s, CdrOf(t, k.err), v)
  }

  // ----- the rules, one by one -----

  ghost predicate EvalsTo(k: Consts, n: nat, x: Sexp, e: Sexp, g: Sexp, v: Sexp, g': Sexp) {
    Evals(k, n, x, e, g, v, g')
  }

  ghost predicate AppliesTo(k: Consts, n: nat, f: Sexp, t: Sexp, e: Sexp, g: Sexp, v: Sexp, g': Sexp) {
    Applies(k, n, f, t, e, g, v, g')
  }

  ghost predicate ReducesTo(k: Consts, n: nat, f: Sexp, t: Sexp, e: Sexp, g: Sexp, v: Sexp, g': Sexp) {
    Reduces(k, n, f, t, e, g, v, g')
  }

  ghost predicate ListsTo(k: Consts, n: nat, t: Sexp, e: Sexp, g: Sexp, v: Sexp, g': Sexp) {
    Lists(k, n, t, e, g, v, g')
  }

  ghost predicate PrimesTo(k: Consts, n: nat, p: nat, t: Sexp, e: Sexp, g: Sexp, v: Sexp, g': Sexp) {
    Primes(k, n, p, t, e, g, v, g')
  }

  ghost predicate ChoosesTo(k: Consts, n: nat, t: Sexp, e: Sexp, isOr: bool, last: Sexp, g: Sexp, v: Sexp, g': Sexp) {
    Chooses(k, n, t, e, isOr, last, g, v, g')
  }

  ghost predicate CondsTo(k: Consts, n: nat, t: Sexp, e: Sexp, g: Sexp, v: Sexp, g': Sexp) {
    Conds(k, n, t, e, g, v, g')
  }

  ghost predicate IfsTo(k: Consts, n: nat, t: Sexp, e: Sexp, g: Sexp, v: Sexp, g': Sexp) {
    Ifs(k, n, t, e, g, v, g')
  }

  ghost predicate LetsTo(k: Consts, n: nat, t: Sexp, e: Sexp, g: Sexp, v: Sexp, g': Sexp) {
    Lets(k, n, t, e, g, v, g')
  }

  ghost predicate DefinesTo(k: Consts, n: nat, t: Sexp, e: Sexp, g: Sexp, v: Sexp, g': Sexp) {
    Defines(k, n, t, e, g, v, g')
  }

  ghost predicate StrictsTo(k: Consts, n: nat, p: nat, args: Sexp, e: Sexp, g: Sexp, v: Sexp, g': Sexp) {
    Stricts(k, n, p, args, e, g, v, g')
  }

  ghost predicate FoldsTo(k: Consts, n: nat, op: nat, sum: Sexp, t: Sexp, v: Sexp) {
    Folds(k, n, op, sum, t, v)
  }

  /** How the rules of the language make the predicates; what a rule supposes is shown for the values given. */
  lemma EvalRule(k: Consts, n: nat, x: Sexp, e: Sexp, g: Sexp, f: Sexp, g1: Sexp, v: Sexp, g': Sexp)
    requires n > 0
    ensures x.Leaf? && Tag(x.bits) == ATOM ==> EvalsTo(k, n, x, e, g, Lookup(x.bits, e, k.err), g)
    ensures (if x.Leaf? then Tag(x.bits) != ATOM else x.closure) ==> EvalsTo(k, n, x, e, g, x, g)
    ensures x.Pair? && !x.closure && EvalsTo(k, n - 1, x.car, e, g, f, g1) && AppliesTo(k, n - 1, f, x.cdr, e, g1, v, g') ==>
      EvalsTo(k, n, x, e, g, v, g')
  {
  }

  lemma ApplyRule(k: Consts, n: nat, f: Sexp, t: Sexp, e: Sexp, g: Sexp, v: Sexp, g': Sexp)
    requires n > 0
    ensures f.Leaf? && Tag(f.bits) == PRIM && PrimesTo(k, n - 1, Ord(f.bits), t, e, g, v, g') ==> AppliesTo(k, n, f, t, e, g, v, g')
    ensures f.Pair? && f.closure && ReducesTo(k, n - 1, f, t, e, g, v, g') ==> AppliesTo(k, n, f, t, e, g, v, g')
    ensures (if f.Leaf? then Tag(f.bits) != PRIM else !f.closure) ==> AppliesTo(k, n, f, t, e, g, Leaf(k.err), g)
  {
  }

  lemma ReduceRule(k: Consts, n: nat, f: Sexp, t: Sexp, e: Sexp, g: Sexp, args: Sexp, g1: Sexp, v: Sexp, g': Sexp)
    requires n > 0
    requires ListsTo(k, n - 1, t, e, g, args, g1)
    requires var lambda, scope := CarOf(f, k.err), CdrOf(f, k.err);
      EvalsTo(k, n - 1, CdrOf(lambda, k.err), BoundTo(CarOf(lambda, k.err), args, if IsNil(scope) then g1 else scope, k.err), g1, v, g')
    ensures ReducesTo(k, n, f, t, e, g, v, g')
  {
  }

  lemma ListRule(k: Consts, n: nat, t: Sexp, e: Sexp, g: Sexp, x: Sexp, g1: Sexp, r: Sexp, g': Sexp)
    requires n > 0
    ensures t.Pair? && !t.closure && EvalsTo(k, n - 1, t.car, e, g, x, g1) && ListsTo(k, n - 1, t.cdr, e, g1, r, g') ==>
      ListsTo(k, n, t, e, g, Pair(false, x, r), g')
    ensures (t.Leaf? || t.closure) && EvalsTo(k, n - 1, t, e, g, r, g') ==> ListsTo(k, n, t, e, g, r, g')
  {
  }

  lemma StrictRule(k: Consts, n: nat, p: nat, t: Sexp, e: Sexp, g: Sexp, args: Sexp, g1: Sexp, v: Sexp, g': Sexp)
    requires n > 0
    requires IsStrict(p)
    requires ListsTo(k, n - 1, t, e, g, args, g1) && StrictsTo(k, n, p, args, e, g1, v, g')
    ensures PrimesTo(k, n, p, t, e, g, v, g')
  {
  }

  lemma DefineRule(k: Consts, n: nat, t: Sexp, e: Sexp, g: Sexp, x: Sexp, g1: Sexp)
    requires n > 0
    requires EvalsTo(k, n - 1, CarOf(CdrOf(t, k.err), k.err), e, g, x, g1)
    ensures DefinesTo(k, n, t, e, g, CarOf(t, k.err), Bound(CarOf(t, k.err), x, g1))
  {
  }

  lemma ChooseRule(k: Consts, n: nat, t: Sexp, e: Sexp, isOr: bool, last: Sexp, g: Sexp, x: Sexp, g1: Sexp)
    requires IsNil(t) || (n > 0 && EvalsTo(k, n - 1, CarOf(t, k.err), e, g, x, g1))
    ensures IsNil(t) ==> ChoosesTo(k, n, t, e, isOr, last, g, last, g)
    ensures !IsNil(t) && IsNil(x) != isOr ==> ChoosesTo(k, n, t, e, isOr, last, g, x, g1)
    ensures !IsNil(t) && IsNil(x) == isOr ==> forall v, g' ::
      ChoosesTo(k, n - 1, CdrOf(t, k.err), e, isOr, x, g1, v, g') ==> ChoosesTo(k, n, t, e, isOr, last, g, v, g')
  {
  }

  lemma CondRule(k: Consts, n: nat, t: Sexp, e: Sexp, g: Sexp, x: Sexp, g1: Sexp)
    requires n > 0 && if IsNil(t) then g1 == g else EvalsTo(k, n - 1, CarOf(CarOf(t, k.err), k.err), e, g, x, g1)
    ensures !IsNil(t) && IsNil(x) ==> forall v, g' ::
      CondsTo(k, n - 1, CdrOf(t, k.err), e, g1, v, g') ==> CondsTo(k, n, t, e, g, v, g')
    ensures IsNil(t) || !IsNil(x) ==> forall v, g' ::
      EvalsTo(k, n - 1, CarOf(CdrOf(CarOf(t, k.err), k.err), k.err), e, g1, v, g') ==> CondsTo(k, n, t, e, g, v, g')
  {
  }

  lemma IfRule(k: Consts, n: nat, t: Sexp, e: Sexp, g: Sexp, x: Sexp, g1: Sexp, v: Sexp, g': Sexp)
    requires n > 0
    requires EvalsTo(k, n - 1, CarOf(t, k.err), e, g, x, g1)
    requires EvalsTo(k, n - 1, CarOf(CdrOf(if IsNil(x) then CdrOf(t, k.err) else t, k.err), k.err), e, g1, v, g')
    ensures IfsTo(k, n, t, e, g, v, g')
  {
  }

  lemma LetRule(k: Consts, n: nat, t: Sexp, e: Sexp, g: Sexp, x: Sexp, g1: Sexp)
    requires n > 0
    requires IsNil(t) || IsNil(CdrOf(t, k.err)) || EvalsTo(k, n - 1, CarOf(CdrOf(CarOf(t, k.err), k.err), k.err), e, g, x, g1)
    ensures IsNil(t) || IsNil(CdrOf(t, k.err)) ==> forall v, g' ::
      EvalsTo(k, n - 1, CarOf(t, k.err), e, g, v, g') ==> LetsTo(k, n, t, e, g, v, g')
    ensures !IsNil(t) && !IsNil(CdrOf(t, k.err)) ==> forall v, g' ::
      LetsTo(k, n - 1, CdrOf(t, k.err), Bound(CarOf(CarOf(t, k.err), k.err), x, e), g1, v, g') ==> LetsTo(k, n, t, e, g, v, g')
  {
  }

  lemma FoldRule(k: Consts, n: nat, op: nat, sum: Sexp, t: Sexp, s: Sexp)
    requires if op == 9 then Computes(k, 9, sum, sum, s) else IsNil(t) || (n > 0 && Computes(k, op, sum, CarOf(t, k.err), s))
    ensures op == 9 ==> FoldsTo(k, n, 9, sum, t, s)
    ensures op != 9 && IsNil(t) ==> FoldsTo(k, n, op, sum, t, sum)
    ensures op != 9 && !IsNil(t) ==> forall v :: FoldsTo(k, n - 1, op, s, CdrOf(t, k.err), v) ==> FoldsTo(k, n, op, sum, t, v)
  {
  }

  lemma PrimeRule(k: Consts, n: nat, p: nat, t: Sexp, e: Sexp, g: Sexp, v: Sexp, g': Sexp)
    ensures p == 1 ==> PrimesTo(k, n, p, t, e, g, CarOf(t, k.err), g)
    ensures (p == 12 || p == 13) && ChoosesTo(k, n, t, e, p == 12, Leaf(k.nil), g, v, g') ==> PrimesTo(k, n, p, t, e, g, v, g')
    ensures p == 15 && CondsTo(k, n, t, e, g, v, g') ==> PrimesTo(k, n, p, t, e, g, v, g')
    ensures p == 16 && IfsTo(k, n, t, e, g, v, g') ==> PrimesTo(k, n, p, t, e, g, v, g')
    ensures p == 17 && LetsTo(k, n, t, e, g, v, g') ==> PrimesTo(k, n, p, t, e, g, v, g')
    ensures p == 18 && Lambdas(k, t, e, g, v) && g' == g ==> PrimesTo(k, n, p, t, e, g, v, g')
    ensures p == 19 && DefinesTo(k, n, t, e, g, v, g') ==> PrimesTo(k, n, p, t, e, g, v, g')
  {
  }

  lemma ValuesRule(k: Consts, n: nat, p: nat, args: Sexp, e: Sexp, g: Sexp, v: Sexp, g': Sexp)
    ensures var x, rest := CarOf(args, k.err), CdrOf(args, k.err);
      var y := CarOf(rest, k.err);
      && (p == 0 && n > 0 && EvalsTo(k, n - 1, x, e, g, v, g') ==> StrictsTo(k, n, p, args, e, g, v, g'))
      && (p == 2 ==> StrictsTo(k, n, p, args, e, g, Pair(false, x, y), g))
      && (p == 3 ==> StrictsTo(k, n, p, args, e, g, CarOf(x, k.err), g))
      && (p == 4 ==> StrictsTo(k, n, p, args, e, g, CdrOf(x, k.err), g))
      && (p == 14 ==> StrictsTo(k, n, p, args, e, g, Truth(k, IsNil(x)), g))
      && (p == 11 && Same(k, x, y, v) ==> StrictsTo(k, n, p, args, e, g, v, g))
      && (p == 10 && (v == Truth(k, true) || v == Truth(k, false)) && (x.Leaf? && y.Leaf? ==> v == Truth(k, k.less(x.bits, y.bits))) ==>
            StrictsTo(k, n, p, args, e, g, v, g))
      && (5 <= p <= 9 && FoldsTo(k, n, p, x, rest, v) ==> StrictsTo(k, n, p, args, e, g, v, g))
  {
  }

  // ----- what evaluation does to the global environment -----

  /** g' is g with bindings in front. */
  predicate Grown(g: Sexp, g': Sexp) {
    g' == g || (g'.Pair? && !g'.closure && g'.car.Pair? && !g'.car.closure && Grown(g, g'.cdr))
  }

  lemma {:induction false} GrownTwice(a: Sexp, b: Sexp, c: Sexp)
    requires Grown(a, b) && Grown(b, c)
    ensures Grown(a, c)
    decreases c
  {
    if c != b {
      GrownTwice(a, b, c.cdr);
    }
  }

  /** Whatever is evaluated, the global environment only gains bindings in front. */
  lemma {:induction false} EvalsGrow(k: Consts, n: nat, x: Sexp, e: Sexp, g: Sexp, v: Sexp, g': Sexp)
    requires Evals(k, n, x, e, g, v, g')
    ensures Grown(g, g')
    decreases n, 0
  {
    if x.Pair? && !x.closure {
      var m: nat, f, g1 :| n == m + 1 && Evals(k, m, x.car, e, g, f, g1) && Applies(k, m, f, x.cdr, e, g1, v, g');
      EvalsGrow(k, m, x.car, e, g, f, g1);
      AppliesGrow(k, m, f, x.cdr, e, g1, v, g');
      GrownTwice(g, g1, g');
    }
  }

  lemma {:induction false} AppliesGrow(k: Consts, n: nat, f: Sexp, t: Sexp, e: Sexp, g: Sexp, v: Sexp, g': Sexp)
    requires Applies(k, n, f, t, e, g, v, g')
    ensures Grown(g, g')
    decreases n, 0
  {
    if f.Leaf? && Tag(f.bits) == PRIM {
      PrimesGrow(k, n - 1, Ord(f.bits), t, e, g, v, g');
    } else if f.Pair? && f.closure {
      ReducesGrow(k, n - 1, f, t, e, g, v, g');
    }
  }

  lemma {:induction false} ReducesGrow(k: Consts, n: nat, f: Sexp, t: Sexp, e: Sexp, g: Sexp, v: Sexp, g': Sexp)
    requires Reduces(k, n, f, t, e, g, v, g')
    ensures Grown(g, g')
    decreases n, 0
  {
    var lambda, scope := CarOf(f, k.err), CdrOf(f, k.err);
    var m: nat, args, g1 :|
      && n == m + 1 && Lists(k, m, t, e, g, args, g1)
      && Evals(k, m, CdrOf(lambda, k.err), BoundTo(CarOf(lambda, k.err), args, if IsNil(scope) then g1 else scope, k.err), g1, v, g');
    ListsGrow(k, m, t, e, g, args, g1);
    EvalsGrow(k, m, CdrOf(lambda, k.err), BoundTo(CarOf(lambda, k.err), args, if IsNil(scope) then g1 else scope, k.err), g1, v, g');
    GrownTwice(g, g1, g');
  }

  lemma {:induction false} ListsGrow(k: Consts, n: nat, t: Sexp, e: Sexp, g: Sexp, v: Sexp, g': Sexp)
    requires Lists(k, n, t, e, g, v, g')
    ensures Grown(g, g')
    decreases n, 0
  {
    if t.Pair? && !t.closure {
      var m: nat, x, g1, r :|
        n == m + 1 && Evals(k, m, t.car, e, g, x, g1) && Lists(k, m, t.cdr, e, g1, r, g') && v == Pair(false, x, r);
      EvalsGrow(k, m, t.car, e, g, x, g1);
      ListsGrow(k, m, t.cdr, e, g1, r, g');
      GrownTwice(g, g1, g');
    } else {
      EvalsGrow(k, n - 1, t, e, g, v, g');
    }
  }

  lemma {:induction false} PrimesGrow(k: Consts, n: nat, p: nat, t: Sexp, e: Sexp, g: Sexp, v: Sexp, g': Sexp)
    requires Primes(k, n, p, t, e, g, v, g')
    ensures Grown(g, g')
    decreases n, 5
  {
    match p
    case 1 =>
    case 12 => ChoosesGrow(k, n, t, e, true, Leaf(k.nil), g, v, g');
    case 13 => ChoosesGrow(k, n, t, e, false, Leaf(k.nil), g, v, g');
    case 15 => CondsGrow(k, n, t, e, g, v, g');
    case 16 => IfsGrow(k, n, t, e, g, v, g');
    case 17 => LetsGrow(k, n, t, e, g, v, g');
    case 18 =>
    case 19 => DefinesGrow(k, n, t, e, g, v, g');
    case _ =>
      var m: nat, args, g1 :| n == m + 1 && Lists(k, m, t, e, g, args, g1) && Stricts(k, n, p, args, e, g1, v, g');
      ListsGrow(k, m, t, e, g, args, g1);
      if p == 0 {
        EvalsGrow(k, n - 1, CarOf(args, k.err), e, g1, v, g');
      }
      GrownTwice(g, g1, g');
  }

  lemma {:induction false} DefinesGrow(k: Consts, n: nat, t: Sexp, e: Sexp, g: Sexp, v: Sexp, g': Sexp)
    requires Defines(k, n, t, e, g, v, g')
    ensures Grown(g, g')
    decreases n, 2
  {
    var m: nat, x, g1 :| n == m + 1 && Evals(k, m, CarOf(CdrOf(t, k.err), k.err), e, g, x, g1) && g' == Bound(v, x, g1);
    EvalsGrow(k, m, CarOf(CdrOf(t, k.err), k.err), e, g, x, g1);
    GrownTwice(g, g1, g');
  }

  lemma {:induction false} ChoosesGrow(k: Consts, n: nat, t: Sexp, e: Sexp, isOr: bool, last: Sexp, g: Sexp, v: Sexp, g': Sexp)
    requires Chooses(k, n, t, e, isOr, last, g, v, g')
    ensures Grown(g, g')
    decreases n, 2
  {
    if !IsNil(t) {
      var m: nat, x, g1 :|
        && n == m + 1 && Evals(k, m, CarOf(t, k.err), e, g, x, g1)
        && if IsNil(x) != isOr then v == x && g' == g1 else Chooses(k, m, CdrOf(t, k.err), e, isOr, x, g1, v, g');
      EvalsGrow(k, m, CarOf(t, k.err), e, g, x, g1);
      if IsNil(x) == isOr {
        ChoosesGrow(k, m, CdrOf(t, k.err), e, isOr, x, g1, v, g');
        GrownTwice(g, g1, g');
      }
    }
  }

  lemma {:induction false} CondsGrow(k: Consts, n: nat, t: Sexp, e: Sexp, g: Sexp, v: Sexp, g': Sexp)
    requires Conds(k, n, t, e, g, v, g')
    ensures Grown(g, g')
    decreases n, 2
  {
    var clause := CarOf(t, k.err);
    var body := CarOf(CdrOf(clause, k.err), k.err);
    if IsNil(t) {
      EvalsGrow(k, n - 1, body, e, g, v, g');
    } else {
      var m: nat, x, g1 :|
        && n == m + 1 && Evals(k, m, CarOf(clause, k.err), e, g, x, g1)
        && if IsNil(x) then Conds(k, m, CdrOf(t, k.err), e, g1, v, g') else Evals(k, m, body, e, g1, v, g');
      EvalsGrow(k, m, CarOf(clause, k.err), e, g, x, g1);
      if IsNil(x) {
        CondsGrow(k, m, CdrOf(t, k.err), e, g1, v, g');
      } else {
        EvalsGrow(k, m, body, e, g1, v, g');
      }
      GrownTwice(g, g1, g');
    }
  }

  lemma {:induction false} IfsGrow(k: Consts, n: nat, t: Sexp, e: Sexp, g: Sexp, v: Sexp, g': Sexp)
    requires Ifs(k, n, t, e, g, v, g')
    ensures Grown(g, g')
    decreases n, 2
  {
    var m: nat, x, g1 :|
      && n == m + 1 && Evals(k, m, CarOf(t, k.err), e, g, x, g1)
      && Evals(k, m, CarOf(CdrOf(if IsNil(x) then CdrOf(t, k.err) else t, k.err), k.err), e, g1, v, g');
    EvalsGrow(k, m, CarOf(t, k.err), e, g, x, g1);
    EvalsGrow(k, m, CarOf(CdrOf(if IsNil(x) then CdrOf(t, k.err) else t, k.err), k.err), e, g1, v, g');
    GrownTwice(g, g1, g');
  }

  lemma {:induction false} LetsGrow(k: Consts, n: nat, t: Sexp, e: Sexp, g: Sexp, v: Sexp, g': Sexp)
    requires Lets(k, n, t, e, g, v, g')
    ensures Grown(g, g')
    decreases n, 2
  {
    var binding := CarOf(t, k.err);
    if IsNil(t) || IsNil(CdrOf(t, k.err)) {
      EvalsGrow(k, n - 1, binding, e, g, v, g');
    } else {
      var m: nat, x, g1 :|
        && n == m + 1 && Evals(k, m, CarOf(CdrOf(binding, k.err), k.err), e, g, x, g1)
        && Lets(k, m, CdrOf(t, k.err), Bound(CarOf(binding, k.err), x, e), g1, v, g');
      EvalsGrow(k, m, CarOf(CdrOf(binding, k.err), k.err), e, g, x, g1);
      LetsGrow(k, m, CdrOf(t, k.err), Bound(CarOf(binding, k.err), x, e), g1, v, g');
      GrownTwice(g, g1, g');
    }
  }

  lemma GrowRule(k: Consts, n: nat, x: Sexp, e: Sexp, g: Sexp, v: Sexp, g': Sexp)
    requires EvalsTo(k, n, x, e, g, v, g')
    ensures Grown(g, g')
  {
    EvalsGrow(k, n, x, e, g, v, g');
  }
}
