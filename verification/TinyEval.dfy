/** The evaluator of tinylisp (lisp2.c) on the store: it keeps the store's invariant and computes what the language of
    trees says, wherever pairs come to lie. */
module TinyEval {
  import opened Bytes
  import opened TinyStore
  import opened TinyMeaning

  /** A value, the end of the run for lack of memory, or no answer within the fuel. */
  datatype Res = Val(x: Boxed) | Aborted | OutOfFuel

  // ----- values and states -----

  /** The pairs at some point of a run. */
  datatype Snap = Snap(c: seq<Boxed>, sp: nat)

  ghost function Now(st: Store): Snap
    reads st`sp, st.cell
  {
    Snap(st.cell[..], st.sp)
  }

  /** The tree x stood for. */
  ghost function Was(s: Snap, x: Boxed): Sexp {
    Stood(s.c, s.sp, x)
  }

  /** The tree x stands for. */
  ghost function Is(st: Store, x: Boxed): Sexp
    reads st`sp, st.cell
  {
    Was(Now(st), x)
  }

  /** x may be used: it refers into the stack, and to a name if it is an atom. */
  ghost predicate Fine(st: Store, x: Boxed)
    reads st`sp, st`names
  {
    Good(x, st.sp) && Atomic(x, st.names)
  }

  /** k holds the constants of the run. */
  ghost predicate Uses(st: Store, k: Consts)
    reads st`nil, st`tru, st`err
  {
    k.nil == st.nil && k.tru == st.tru && k.err == st.err && k.fpu == st.fpu && k.less == st.less
  }

  /** From s0 to s1 pairs have only been added. */
  ghost predicate After(s0: Snap, s1: Snap) {
    && |s0.c| == |s1.c| == N && s1.sp <= s0.sp <= N && s1.c[s0.sp..] == s0.c[s0.sp..]
    && Heap(s0.c, s0.sp) && Heap(s1.c, s1.sp)
  }

  /** The store is valid, and since s pairs have only been added. */
  ghost predicate Since(st: Store, s: Snap)
    reads st, st.cell
  {
    st.Valid() && After(s, Now(st))
  }

  lemma Begin(st: Store)
    requires st.Valid()
    ensures Since(st, Now(st))
  {
  }

  lemma AfterTwice(s0: Snap, s1: Snap, s2: Snap)
    requires After(s0, s1) && After(s1, s2)
    ensures After(s0, s2)
  {
    assert s2.c[s0.sp..] == s2.c[s1.sp..][s0.sp - s1.sp..];
    assert s1.c[s0.sp..] == s1.c[s1.sp..][s0.sp - s1.sp..];
  }

  lemma SinceTwice(st: Store, s0: Snap, s1: Snap)
    requires After(s0, s1) && Since(st, s1)
    ensures Since(st, s0)
  {
    AfterTwice(s0, s1, Now(st));
  }

  /** A value from before may be used now, and stands for what it stood for. */
  lemma Still(st: Store, s: Snap, x: Boxed)
    requires Since(st, s) && Good(x, s.sp) && Atomic(x, st.names)
    ensures Fine(st, x) && Is(st, x) == Was(s, x)
  {
    TreeFrame(s.c, s.sp, st.cell[..], st.sp, s.sp, x);
  }

  /** What the tag of a value says about its tree. */
  lemma Kinds(st: Store, x: Boxed)
    requires st.Valid() && Fine(st, x)
    ensures Tag(x) == CONS <==> Is(st, x).Pair? && !Is(st, x).closure
    ensures Tag(x) == CLOS <==> Is(st, x).Pair? && Is(st, x).closure
    ensures Is(st, x).Leaf? ==> Is(st, x) == Leaf(x)
    ensures Tag(x) == NIL <==> IsNil(Is(st, x))
  {
  }

  lemma Constants(st: Store)
    requires st.Valid()
    ensures Fine(st, st.env) && Fine(st, st.nil) && Fine(st, st.tru) && Fine(st, st.err)
    ensures Is(st, st.nil) == Leaf(st.nil) && Is(st, st.tru) == Leaf(st.tru) && Is(st, st.err) == Leaf(st.err)
    ensures Tag(st.nil) == NIL
  {
    hide Tag, Ord, Named, Heap, Tree, Atomic;
    NotAtom(st.nil, st.names);
    NotAtom(st.env, st.names);
    PlainTree(Now(st), st.nil);
    PlainTree(Now(st), st.tru);
    PlainTree(Now(st), st.err);
  }

  lemma PlainTree(s: Snap, x: Boxed)
    requires !IsRef(x)
    ensures Was(s, x) == Leaf(x)
  {
  }

  lemma NumberFine(st: Store, x: Boxed)
    requires st.Valid() && IsNumber(x)
    ensures Fine(st, x) && Is(st, x) == Leaf(x)
  {
    hide Tag, Ord, Named, Heap, Tree, Atomic;
    if IsNan(x) {
      NanAtomic(st.err, x, st.names);
    } else {
      NotAtom(x, st.names);
    }
    PlainTree(Now(st), x);
  }

  // ----- car, cdr and cons -----

  function Car(st: Store, p: Boxed): (x: Boxed)
    requires st.Valid() && Fine(st, p)
    reads st, st.cell
    ensures Fine(st, x) && Is(st, x) == CarOf(Is(st, p), st.err)
  {
    hide Store.Valid, Store.Sound, Heap, Good, Atomic, Was;
    CarMeans(st, p);
    st.Car(p)
  }

  lemma CarMeans(st: Store, p: Boxed)
    requires st.Valid() && Fine(st, p)
    ensures Fine(st, st.Car(p)) && Is(st, st.Car(p)) == CarOf(Is(st, p), st.err)
  {
    hide Named, Atomic, AllAtomic;
  }

  function Cdr(st: Store, p: Boxed): (x: Boxed)
    requires st.Valid() && Fine(st, p)
    reads st, st.cell
    ensures Fine(st, x) && Is(st, x) == CdrOf(Is(st, p), st.err)
  {
    hide Store.Valid, Store.Sound, Heap, Good, Atomic, Was;
    CdrMeans(st, p);
    st.Cdr(p)
  }

  lemma CdrMeans(st: Store, p: Boxed)
    requires st.Valid() && Fine(st, p)
    ensures Fine(st, st.Cdr(p)) && Is(st, st.Cdr(p)) == CdrOf(Is(st, p), st.err)
  {
    hide Named, Atomic, AllAtomic;
  }

  method Cons(st: Store, x: Boxed, y: Boxed) returns (r: Res)
    requires st.Valid() && Fine(st, x) && Fine(st, y)
    modifies st`sp, st.cell
    ensures !r.OutOfFuel?
    ensures r.Val? ==> Since(st, old(Now(st))) && Fine(st, r.x) && Tag(r.x) == CONS
                       && Is(st, r.x) == Pair(false, old(Is(st, x)), old(Is(st, y)))
                       && Is(st, st.env) == old(Is(st, st.env))
  {
    hide Named, Heap, Atomic;
    ghost var s0 := Now(st);
    var ok, p := st.Cons(x, y);
    if !ok { return Aborted; }
    NotAtom(p, st.names);
    st.ConsTree(s0.c, s0.sp, x, y, p);
    Still(st, s0, st.env);
    r := Val(p);
  }

  /** pair: ((v . x) . e). */
  method MakePair(st: Store, v: Boxed, x: Boxed, e: Boxed) returns (r: Res)
    requires st.Valid() && Fine(st, v) && Fine(st, x) && Fine(st, e)
    modifies st`sp, st.cell
    ensures !r.OutOfFuel?
    ensures r.Val? ==> Since(st, old(Now(st))) && Fine(st, r.x) && Tag(r.x) == CONS
                       && Is(st, r.x) == Bound(old(Is(st, v)), old(Is(st, x)), old(Is(st, e)))
                       && Is(st, st.env) == old(Is(st, st.env))
  {
    hide Store.Valid, Store.Sound, Heap, Good, Atomic, Was, After;
    ghost var s0 := Now(st);
    r := Cons(st, v, x);
    if !r.Val? { return; }
    ghost var s1 := Now(st);
    Still(st, s0, e);
    r := Cons(st, r.x, e);
    if r.Val? { SinceTwice(st, s0, s1); }
  }

  /** assoc: the walk ends because the list leads upwards. */
  method Assoc(st: Store, v: Boxed, e: Boxed) returns (x: Boxed)
    requires st.Valid() && Fine(st, e) && Tag(v) == ATOM
    ensures Fine(st, x) && Is(st, x) == Lookup(v, Is(st, e), st.err)
  {
    hide Named, Heap, Atomic, Store.Valid, Good, Was;
    Constants(st);
    var at := e;
    while true
      invariant Fine(st, at) && Lookup(v, Is(st, e), st.err) == Lookup(v, Is(st, at), st.err)
      decreases Is(st, at)
    {
      Kinds(st, at);
      if Tag(at) != CONS { return st.err; }
      var p := Car(st, at);
      var key := Car(st, p);
      Kinds(st, key);
      if v == key {
        x := Cdr(st, p);
        return;
      }
      at := Cdr(st, at);
    }
  }

  /** bind. */
  method Bind(st: Store, v: Boxed, t: Boxed, e: Boxed) returns (r: Res)
    requires st.Valid() && Fine(st, v) && Fine(st, t) && Fine(st, e)
    modifies st`sp, st.cell
    ensures !r.OutOfFuel?
    ensures r.Val? ==> Since(st, old(Now(st))) && Fine(st, r.x)
                       && Is(st, r.x) == BoundTo(old(Is(st, v)), old(Is(st, t)), old(Is(st, e)), st.err)
                       && Is(st, st.env) == old(Is(st, st.env))
    decreases Is(st, v)
  {
    hide Store.Valid, Store.Sound, Heap, Good, Atomic, Was, After, BoundTo;
    Begin(st);
    Kinds(st, v);
    BoundCases(Is(st, v), Is(st, t), Is(st, e), st.err);
    if Tag(v) == NIL { return Val(e); }
    if Tag(v) != CONS {
      r := MakePair(st, v, t, e);
      return;
    }
    ghost var s0 := Now(st);
    var v0 := Car(st, v);
    var v1 := Cdr(st, v);
    var t0 := Car(st, t);
    var t1 := Cdr(st, t);
    r := MakePair(st, v0, t0, e);
    if !r.Val? { return; }
    ghost var s1 := Now(st);
    Still(st, s0, v1);
    Still(st, s0, t1);
    r := Bind(st, v1, t1, r.x);
    if r.Val? { SinceTwice(st, s0, s1); }
  }

  // ----- eval -----

  /** eval: the value of x in e, with the global environment as it is and becomes. */
  method Eval(st: Store, x: Boxed, e: Boxed, fuel: nat, ghost k: Consts) returns (r: Res)
    requires Uses(st, k) && st.Valid() && Fine(st, x) && Fine(st, e)
    modifies st`sp, st`env, st.cell
    ensures r.Val? ==> Since(st, old(Now(st))) && Fine(st, r.x)
                       && EvalsTo(k, fuel, old(Is(st, x)), old(Is(st, e)), old(Is(st, st.env)), Is(st, r.x), Is(st, st.env))
    decreases fuel, 0
  {
    hide Store.Valid, Store.Sound, Heap, Good, Atomic, Was, After, IsNil, IsRef, Tag, Ord, EvalsTo, AppliesTo;
    if fuel == 0 { return OutOfFuel; }
    Begin(st);
    Kinds(st, x);
    ghost var X, E, G := Is(st, x), Is(st, e), Is(st, st.env);
    if Tag(x) == ATOM {
      var y := Assoc(st, x, e);
      EvalRule(k, fuel, X, E, G, X, G, X, G);
      return Val(y);
    }
    if Tag(x) != CONS {
      EvalRule(k, fuel, X, E, G, X, G, X, G);
      return Val(x);
    }
    ghost var s0 := Now(st);
    var head := Car(st, x);
    var t := Cdr(st, x);
    r := Eval(st, head, e, fuel - 1, k);
    if !r.Val? { return; }
    ghost var s1, f, g1 := Now(st), Is(st, r.x), Is(st, st.env);
    Still(st, s0, t);
    Still(st, s0, e);
    r := Apply(st, r.x, t, e, fuel - 1, k);
    if r.Val? {
      SinceTwice(st, s0, s1);
      EvalRule(k, fuel, X, E, G, f, g1, Is(st, r.x), Is(st, st.env));
    }
  }

  /** evlis: the list of the values of a list. */
  method Evlis(st: Store, t: Boxed, e: Boxed, fuel: nat, ghost k: Consts) returns (r: Res)
    requires Uses(st, k) && st.Valid() && Fine(st, t) && Fine(st, e)
    modifies st`sp, st`env, st.cell
    ensures r.Val? ==> Since(st, old(Now(st))) && Fine(st, r.x)
                       && ListsTo(k, fuel, old(Is(st, t)), old(Is(st, e)), old(Is(st, st.env)), Is(st, r.x), Is(st, st.env))
    decreases fuel, 0
  {
    hide Store.Valid, Store.Sound, Heap, Good, Atomic, Was, After, IsNil, IsRef, Tag, Ord, EvalsTo, ListsTo;
    if fuel == 0 { return OutOfFuel; }
    Kinds(st, t);
    ghost var T, E, G := Is(st, t), Is(st, e), Is(st, st.env);
    if Tag(t) != CONS {
      r := Eval(st, t, e, fuel - 1, k);
      if r.Val? { ListRule(k, fuel, T, E, G, T, G, Is(st, r.x), Is(st, st.env)); }
      return;
    }
    ghost var s0 := Now(st);
    var head := Car(st, t);
    var rest := Cdr(st, t);
    r := Eval(st, head, e, fuel - 1, k);
    if !r.Val? { return; }
    var x := r.x;
    ghost var s1, X, g1 := Now(st), Is(st, x), Is(st, st.env);
    Still(st, s0, rest);
    Still(st, s0, e);
    r := Evlis(st, rest, e, fuel - 1, k);
    if !r.Val? { return; }
    ghost var s2, R, g2 := Now(st), Is(st, r.x), Is(st, st.env);
    Still(st, s1, x);
    SinceTwice(st, s0, s1);
    r := Cons(st, x, r.x);
    if r.Val? {
      SinceTwice(st, s0, s2);
      ListRule(k, fuel, T, E, G, X, g1, R, g2);
    }
  }

  /** apply; prim[ord(f)] is a primitive because only such values are ever boxed. */
  method Apply(st: Store, f: Boxed, t: Boxed, e: Boxed, fuel: nat, ghost k: Consts) returns (r: Res)
    requires Uses(st, k) && st.Valid() && Fine(st, f) && Fine(st, t) && Fine(st, e)
    modifies st`sp, st`env, st.cell
    ensures r.Val? ==> Since(st, old(Now(st))) && Fine(st, r.x)
                       && AppliesTo(k, fuel, old(Is(st, f)), old(Is(st, t)), old(Is(st, e)), old(Is(st, st.env)), Is(st, r.x), Is(st, st.env))
    decreases fuel, 0
  {
    hide Store.Valid, Store.Sound, Heap, Good, Atomic, Was, After, IsNil, IsRef, Tag, Ord, PrimesTo, ReducesTo, AppliesTo;
    if fuel == 0 { return OutOfFuel; }
    Constants(st);
    Kinds(st, f);
    Begin(st);
    ghost var F, T, E, G := Is(st, f), Is(st, t), Is(st, e), Is(st, st.env);
    if Tag(f) == PRIM {
      PrimBound(st, f);
      r := Primitive(st, Ord(f), t, e, fuel - 1, k);
      if r.Val? { ApplyRule(k, fuel, F, T, E, G, Is(st, r.x), Is(st, st.env)); }
    } else if Tag(f) == CLOS {
      r := Reduce(st, f, t, e, fuel - 1, k);
      if r.Val? { ApplyRule(k, fuel, F, T, E, G, Is(st, r.x), Is(st, st.env)); }
    } else {
      r := Val(st.err);
      ApplyRule(k, fuel, F, T, E, G, F, G);
    }
  }

  lemma PrimBound(st: Store, f: Boxed)
    requires Fine(st, f) && Tag(f) == PRIM
    ensures Ord(f) < PRIMS
  {
  }

  /** reduce: the body of a closure in its environment, or the global one, with the parameters bound. */
  method Reduce(st: Store, f: Boxed, t: Boxed, e: Boxed, fuel: nat, ghost k: Consts) returns (r: Res)
    requires Uses(st, k) && st.Valid() && Fine(st, f) && Fine(st, t) && Fine(st, e)
    modifies st`sp, st`env, st.cell
    ensures r.Val? ==> Since(st, old(Now(st))) && Fine(st, r.x)
                       && ReducesTo(k, fuel, old(Is(st, f)), old(Is(st, t)), old(Is(st, e)), old(Is(st, st.env)), Is(st, r.x), Is(st, st.env))
    decreases fuel, 0
  {
    hide Store.Valid, Store.Sound, Heap, Good, Atomic, Was, After, IsNil, IsRef, Tag, Ord, EvalsTo, ListsTo, ReducesTo, BoundTo;
    if fuel == 0 { return OutOfFuel; }
    ghost var F, T, E, G := Is(st, f), Is(st, t), Is(st, e), Is(st, st.env);
    ghost var s0 := Now(st);
    var lambda := Car(st, f);
    var params := Car(st, lambda);
    var body := Cdr(st, lambda);
    var scope := Cdr(st, f);
    r := Evlis(st, t, e, fuel - 1, k);
    if !r.Val? { return; }
    ghost var s1, args, g1 := Now(st), Is(st, r.x), Is(st, st.env);
    Still(st, s0, params);
    Still(st, s0, body);
    Still(st, s0, scope);
    Constants(st);
    Kinds(st, scope);
    r := Bind(st, params, r.x, if Tag(scope) == NIL then st.env else scope);
    if !r.Val? { return; }
    ghost var s2 := Now(st);
    SinceTwice(st, s0, s1);
    Still(st, s1, body);
    r := Eval(st, body, r.x, fuel - 1, k);
    if r.Val? {
      SinceTwice(st, s0, s2);
      ReduceRule(k, fuel, F, T, E, G, args, g1, Is(st, r.x), Is(st, st.env));
    }
  }

  /** The primitives, in the order of their table. */
  method Primitive(st: Store, p: nat, t: Boxed, e: Boxed, fuel: nat, ghost k: Consts) returns (r: Res)
    requires p < PRIMS
    requires Uses(st, k) && st.Valid() && Fine(st, t) && Fine(st, e)
    modifies st`sp, st`env, st.cell
    ensures r.Val? ==> Since(st, old(Now(st))) && Fine(st, r.x)
                       && PrimesTo(k, fuel, p, old(Is(st, t)), old(Is(st, e)), old(Is(st, st.env)), Is(st, r.x), Is(st, st.env))
    decreases fuel, 5
  {
    hide Store.Valid, Store.Sound, Heap, Good, Atomic, Was, After, IsNil, IsRef, Tag, Ord, EvalsTo, ListsTo, ChoosesTo, CondsTo, IfsTo, LetsTo, Lambdas, DefinesTo, PrimesTo;
    ghost var T, E, G := Is(st, t), Is(st, e), Is(st, st.env);
    Begin(st);
    match p {
      case 1 => r := Val(Car(st, t));
      case 12 => r := OrAnd(st, t, e, true, fuel, k);
      case 13 => r := OrAnd(st, t, e, false, fuel, k);
      case 15 => r := Cond(st, t, e, fuel, k);
      case 16 => r := If(st, t, e, fuel, k);
      case 17 => r := LetStar(st, t, e, fuel, k);
      case 18 => r := Lambda(st, t, e, k);
      case 19 => r := Define(st, t, e, fuel, k);
      case _ => r := Strict(st, p, t, e, fuel, k);
    }
    if r.Val? { PrimeRule(k, fuel, p, T, E, G, Is(st, r.x), Is(st, st.env)); }
  }

  /** f_or and f_and: the first value that decides, or the last one. */
  method OrAnd(st: Store, t: Boxed, e: Boxed, isOr: bool, fuel: nat, ghost k: Consts) returns (r: Res)
    requires Uses(st, k) && st.Valid() && Fine(st, t) && Fine(st, e)
    modifies st`sp, st`env, st.cell
    ensures r.Val? ==> Since(st, old(Now(st))) && Fine(st, r.x)
                       && ChoosesTo(k, fuel, old(Is(st, t)), old(Is(st, e)), isOr, Leaf(st.nil), old(Is(st, st.env)), Is(st, r.x), Is(st, st.env))
    decreases fuel, 2
  {
    hide Store.Valid, Store.Sound, Heap, Good, Atomic, Was, After, IsNil, IsRef, Tag, Ord, EvalsTo, ChoosesTo;
    Constants(st);
    Begin(st);
    ghost var T, E, G, s0 := Is(st, t), Is(st, e), Is(st, st.env), Now(st);
    var at := t;
    var left: nat := fuel;
    r := Val(st.nil);
    while Tag(at) != NIL
      invariant r.Val? && Since(st, s0) && Fine(st, r.x) && Fine(st, at) && Fine(st, e) && Is(st, e) == E && left <= fuel
      invariant forall v, g' :: ChoosesTo(k, left, Is(st, at), E, isOr, Is(st, r.x), Is(st, st.env), v, g')
                  ==> ChoosesTo(k, fuel, T, E, isOr, Leaf(st.nil), G, v, g')
      decreases left
    {
      if left == 0 { return OutOfFuel; }
      ghost var s1, A, L, g0 := Now(st), Is(st, at), Is(st, r.x), Is(st, st.env);
      Kinds(st, at);
      var head := Car(st, at);
      var next := Cdr(st, at);
      r := Eval(st, head, e, left - 1, k);
      if !r.Val? { return; }
      SinceTwice(st, s0, s1);
      Still(st, s1, next);
      Still(st, s1, e);
      Kinds(st, r.x);
      ChooseRule(k, left, A, E, isOr, L, g0, Is(st, r.x), Is(st, st.env));
      if (Tag(r.x) == NIL) != isOr { return; }
      at, left := next, left - 1;
    }
    Kinds(st, at);
    ChooseRule(k, left, Is(st, at), E, isOr, Is(st, r.x), Is(st, st.env), Is(st, r.x), Is(st, st.env));
  }

  /** f_cond. */
  method Cond(st: Store, t: Boxed, e: Boxed, fuel: nat, ghost k: Consts) returns (r: Res)
    requires Uses(st, k) && st.Valid() && Fine(st, t) && Fine(st, e)
    modifies st`sp, st`env, st.cell
    ensures r.Val? ==> Since(st, old(Now(st))) && Fine(st, r.x)
                       && CondsTo(k, fuel, old(Is(st, t)), old(Is(st, e)), old(Is(st, st.env)), Is(st, r.x), Is(st, st.env))
    decreases fuel, 2
  {
    hide Store.Valid, Store.Sound, Heap, Good, Atomic, Was, After, IsNil, IsRef, Tag, Ord, EvalsTo, CondsTo;
    Begin(st);
    ghost var T, E, G, s0 := Is(st, t), Is(st, e), Is(st, st.env), Now(st);
    var at := t;
    var left: nat := fuel;
    while Tag(at) != NIL
      invariant Since(st, s0) && Fine(st, at) && Fine(st, e) && Is(st, e) == E && left <= fuel
      invariant forall v, g' :: CondsTo(k, left, Is(st, at), E, Is(st, st.env), v, g') ==> CondsTo(k, fuel, T, E, G, v, g')
      decreases left
    {
      if left == 0 { return OutOfFuel; }
      ghost var s1, A, g0 := Now(st), Is(st, at), Is(st, st.env);
      Kinds(st, at);
      var clause := Car(st, at);
      var test := Car(st, clause);
      r := Eval(st, test, e, left - 1, k);
      if !r.Val? { return; }
      SinceTwice(st, s0, s1);
      Still(st, s1, at);
      Still(st, s1, e);
      Kinds(st, r.x);
      CondRule(k, left, A, E, g0, Is(st, r.x), Is(st, st.env));
      if Tag(r.x) != NIL {
        r := Body(st, at, e, left, s0, k);
        return;
      }
      at := Cdr(st, at);
      left := left - 1;
    }
    Kinds(st, at);
    if left == 0 { return OutOfFuel; }
    ghost var A, g0 := Is(st, at), Is(st, st.env);
    r := Body(st, at, e, left, s0, k);
    if r.Val? { CondRule(k, left, A, E, g0, A, g0); }
  }

  /** The value of the second item of the clause at the head of at. */
  method Body(st: Store, at: Boxed, e: Boxed, left: nat, ghost s0: Snap, ghost k: Consts) returns (r: Res)
    requires Uses(st, k) && left > 0 && Since(st, s0) && Fine(st, at) && Fine(st, e)
    modifies st`sp, st`env, st.cell
    ensures r.Val? ==> Since(st, s0) && Fine(st, r.x)
                       && EvalsTo(k, left - 1, CarOf(CdrOf(CarOf(old(Is(st, at)), st.err), st.err), st.err), old(Is(st, e)), old(Is(st, st.env)), Is(st, r.x), Is(st, st.env))
    decreases left, 1
  {
    hide Store.Valid, Store.Sound, Heap, Good, Atomic, Was, After, IsNil, IsRef, Tag, Ord, EvalsTo;
    ghost var s1 := Now(st);
    var clause := Car(st, at);
    var rest := Cdr(st, clause);
    var body := Car(st, rest);
    r := Eval(st, body, e, left - 1, k);
    if r.Val? { SinceTwice(st, s0, s1); }
  }

  /** f_if. */
  method If(st: Store, t: Boxed, e: Boxed, fuel: nat, ghost k: Consts) returns (r: Res)
    requires Uses(st, k) && st.Valid() && Fine(st, t) && Fine(st, e)
    modifies st`sp, st`env, st.cell
    ensures r.Val? ==> Since(st, old(Now(st))) && Fine(st, r.x)
                       && IfsTo(k, fuel, old(Is(st, t)), old(Is(st, e)), old(Is(st, st.env)), Is(st, r.x), Is(st, st.env))
    decreases fuel, 2
  {
    hide Store.Valid, Store.Sound, Heap, Good, Atomic, Was, After, IsNil, IsRef, Tag, Ord, EvalsTo, IfsTo;
    if fuel == 0 { return OutOfFuel; }
    ghost var T, E, G, s0 := Is(st, t), Is(st, e), Is(st, st.env), Now(st);
    var test := Car(st, t);
    r := Eval(st, test, e, fuel - 1, k);
    if !r.Val? { return; }
    ghost var s1, X, g1 := Now(st), Is(st, r.x), Is(st, st.env);
    Still(st, s0, t);
    Still(st, s0, e);
    Kinds(st, r.x);
    var from := t;
    if Tag(r.x) == NIL { from := Cdr(st, t); }
    var rest := Cdr(st, from);
    var body := Car(st, rest);
    r := Eval(st, body, e, fuel - 1, k);
    if r.Val? {
      SinceTwice(st, s0, s1);
      IfRule(k, fuel, T, E, G, X, g1, Is(st, r.x), Is(st, st.env));
    }
  }

  /** f_leta. */
  method LetStar(st: Store, t: Boxed, e: Boxed, fuel: nat, ghost k: Consts) returns (r: Res)
    requires Uses(st, k) && st.Valid() && Fine(st, t) && Fine(st, e)
    modifies st`sp, st`env, st.cell
    ensures r.Val? ==> Since(st, old(Now(st))) && Fine(st, r.x)
                       && LetsTo(k, fuel, old(Is(st, t)), old(Is(st, e)), old(Is(st, st.env)), Is(st, r.x), Is(st, st.env))
    decreases fuel, 2
  {
    hide Store.Valid, Store.Sound, Heap, Good, Atomic, Was, After, IsNil, IsRef, Tag, Ord, EvalsTo, LetsTo;
    Begin(st);
    ghost var T, E, G, s0 := Is(st, t), Is(st, e), Is(st, st.env), Now(st);
    var at, scope := t, e;
    var left: nat := fuel;
    while true
      invariant Since(st, s0) && Fine(st, at) && Fine(st, scope) && left <= fuel
      invariant forall v, g' :: LetsTo(k, left, Is(st, at), Is(st, scope), Is(st, st.env), v, g') ==> LetsTo(k, fuel, T, E, G, v, g')
      decreases left
    {
      if left == 0 { return OutOfFuel; }
      ghost var s1, A, C, g0 := Now(st), Is(st, at), Is(st, scope), Is(st, st.env);
      var next := Cdr(st, at);
      var binding := Car(st, at);
      Kinds(st, at);
      Kinds(st, next);
      if Tag(at) == NIL || Tag(next) == NIL {
        r := Eval(st, binding, scope, left - 1, k);
        if r.Val? {
          SinceTwice(st, s0, s1);
          LetRule(k, left, A, C, g0, A, g0);
        }
        return;
      }
      ghost var x;
      r, x := LetOne(st, binding, scope, left - 1, k);
      if !r.Val? { return; }
      SinceTwice(st, s0, s1);
      Still(st, s1, next);
      LetRule(k, left, A, C, g0, x, Is(st, st.env));
      at, scope, left := next, r.x, left - 1;
    }
  }

  /** One binding of let*: the environment with it in front. */
  method LetOne(st: Store, binding: Boxed, e: Boxed, fuel: nat, ghost k: Consts) returns (r: Res, ghost x: Sexp)
    requires Uses(st, k) && st.Valid() && Fine(st, binding) && Fine(st, e)
    modifies st`sp, st`env, st.cell
    ensures r.Val? ==> Since(st, old(Now(st))) && Fine(st, r.x)
                       && EvalsTo(k, fuel, CarOf(CdrOf(old(Is(st, binding)), st.err), st.err), old(Is(st, e)), old(Is(st, st.env)), x, Is(st, st.env))
                       && Is(st, r.x) == Bound(CarOf(old(Is(st, binding)), st.err), x, old(Is(st, e)))
    decreases fuel, 1
  {
    hide Store.Valid, Store.Sound, Heap, Good, Atomic, Was, After, IsNil, IsRef, Tag, Ord, EvalsTo;
    ghost var s0 := Now(st);
    var name := Car(st, binding);
    var rest := Cdr(st, binding);
    var value := Car(st, rest);
    x := Leaf(st.nil);
    r := Eval(st, value, e, fuel, k);
    if !r.Val? { return; }
    ghost var s1 := Now(st);
    x := Is(st, r.x);
    Still(st, s0, name);
    Still(st, s0, e);
    r := MakePair(st, name, r.x, e);
    if r.Val? { SinceTwice(st, s0, s1); }
  }

  /** f_lambda and closure: the environment is left out when it is the global one. */
  method Lambda(st: Store, t: Boxed, e: Boxed, ghost k: Consts) returns (r: Res)
    requires Uses(st, k) && st.Valid() && Fine(st, t) && Fine(st, e)
    modifies st`sp, st.cell
    ensures r.Val? ==> Since(st, old(Now(st))) && Fine(st, r.x) && Is(st, st.env) == old(Is(st, st.env))
                       && Lambdas(k, old(Is(st, t)), old(Is(st, e)), old(Is(st, st.env)), Is(st, r.x))
  {
    hide Store.Valid, Store.Sound, Heap, Good, Atomic, Was, After;
    Constants(st);
    var params := Car(st, t);
    var rest := Cdr(st, t);
    var body := Car(st, rest);
    r := MakePair(st, params, body, if e == st.env then st.nil else e);
    if r.Val? {
      OrdBounded(r.x);
      var x := Box(CLOS, Ord(r.x));
      ClosureFine(st, r.x, x);
      r := Val(x);
    }
  }

  lemma OrdBounded(x: Boxed)
    ensures Ord(x) < DWORD
  {
  }

  /** A pair boxed as a closure. */
  lemma ClosureFine(st: Store, p: Boxed, x: Boxed)
    requires st.Valid() && Fine(st, p) && Tag(p) == CONS && Tag(x) == CLOS && Ord(x) == Ord(p)
    ensures Fine(st, x) && Is(st, x).Pair? && Is(st, p).Pair? && Is(st, x) == Is(st, p).(closure := true)
  {
  }

  /** f_define: the global environment is what the evaluation left of it, with the binding in front. */
  method Define(st: Store, t: Boxed, e: Boxed, fuel: nat, ghost k: Consts) returns (r: Res)
    requires Uses(st, k) && st.Valid() && Fine(st, t) && Fine(st, e)
    modifies st`sp, st`env, st.cell
    ensures r.Val? ==> Since(st, old(Now(st))) && Fine(st, r.x)
                       && DefinesTo(k, fuel, old(Is(st, t)), old(Is(st, e)), old(Is(st, st.env)), Is(st, r.x), Is(st, st.env))
    decreases fuel, 2
  {
    hide Store.Valid, Store.Sound, Heap, Good, Atomic, Was, After, IsNil, IsRef, Tag, Ord, EvalsTo, DefinesTo;
    if fuel == 0 { return OutOfFuel; }
    ghost var T, E, G, s0 := Is(st, t), Is(st, e), Is(st, st.env), Now(st);
    var name := Car(st, t);
    var rest := Cdr(st, t);
    var value := Car(st, rest);
    r := Eval(st, value, e, fuel - 1, k);
    if !r.Val? { return; }
    ghost var s1, X, g1 := Now(st), Is(st, r.x), Is(st, st.env);
    Still(st, s0, name);
    Constants(st);
    r := MakePair(st, name, r.x, st.env);
    if !r.Val? { return; }
    ghost var s2 := Now(st);
    SinceTwice(st, s0, s1);
    Still(st, s1, name);
    SetEnv(st, r.x, s0);
    DefineRule(k, fuel, T, E, G, X, g1);
    r := Val(name);
  }

  /** The assignment to env. */
  method SetEnv(st: Store, x: Boxed, ghost s0: Snap)
    requires Since(st, s0) && Fine(st, x) && Tag(x) == CONS
    modifies st`env
    ensures Since(st, s0) && st.env == x
  {
    hide Named, Heap, Good, Atomic;
    st.env := x;
  }

  /** The primitives that evaluate all their arguments first. */
  method Strict(st: Store, p: nat, t: Boxed, e: Boxed, fuel: nat, ghost k: Consts) returns (r: Res)
    requires IsStrict(p)
    requires Uses(st, k) && st.Valid() && Fine(st, t) && Fine(st, e)
    modifies st`sp, st`env, st.cell
    ensures r.Val? ==> Since(st, old(Now(st))) && Fine(st, r.x)
                       && PrimesTo(k, fuel, p, old(Is(st, t)), old(Is(st, e)), old(Is(st, st.env)), Is(st, r.x), Is(st, st.env))
    decreases fuel, 2
  {
    hide Store.Valid, Store.Sound, Heap, Good, Atomic, Was, After, IsNil, IsRef, Tag, Ord, EvalsTo, ListsTo, StrictsTo, PrimesTo;
    if fuel == 0 { return OutOfFuel; }
    ghost var T, E, G, s0 := Is(st, t), Is(st, e), Is(st, st.env), Now(st);
    r := Evlis(st, t, e, fuel - 1, k);
    if !r.Val? { return; }
    ghost var s1, args, g1 := Now(st), Is(st, r.x), Is(st, st.env);
    Still(st, s0, e);
    r := OnValues(st, p, r.x, e, fuel, k);
    if r.Val? {
      SinceTwice(st, s0, s1);
      StrictRule(k, fuel, p, T, E, G, args, g1, Is(st, r.x), Is(st, st.env));
    }
  }

  /** A strict primitive on the list of its values. */
  method OnValues(st: Store, p: nat, args: Boxed, e: Boxed, fuel: nat, ghost k: Consts) returns (r: Res)
    requires fuel > 0 && IsStrict(p)
    requires Uses(st, k) && st.Valid() && Fine(st, args) && Fine(st, e)
    modifies st`sp, st`env, st.cell
    ensures r.Val? ==> Since(st, old(Now(st))) && Fine(st, r.x)
                       && StrictsTo(k, fuel, p, old(Is(st, args)), old(Is(st, e)), old(Is(st, st.env)), Is(st, r.x), Is(st, st.env))
    decreases fuel, 1
  {
    hide Store.Valid, Store.Sound, Heap, Good, Atomic, Was, After, IsNil, IsRef, Tag, Ord, EvalsTo, FoldsTo, StrictsTo;
    ghost var A, E, G := Is(st, args), Is(st, e), Is(st, st.env);
    Begin(st);
    Constants(st);
    var x := Car(st, args);
    var rest := Cdr(st, args);
    var y := Car(st, rest);
    Kinds(st, x);
    Kinds(st, y);
    match p {
      case 0 => r := Eval(st, x, e, fuel - 1, k);
      case 2 => r := Cons(st, x, y);
      case 3 => r := Val(Car(st, x));
      case 4 => r := Val(Cdr(st, x));
      case 10 =>
        r := Val(if st.less(x, y) then st.tru else st.nil);
      case 11 =>
        SameBits(st, x, y);
        r := Val(if x == y then st.tru else st.nil);
      case 14 => r := Val(if Tag(x) == NIL then st.tru else st.nil);
      case _ => r := Fold(st, p, x, rest, fuel, k);
    }
    if r.Val? { ValuesRule(k, fuel, p, A, E, G, Is(st, r.x), Is(st, st.env)); }
  }

  /** Values of which one is no pair are the same exactly if they stand for the same. */
  lemma SameBits(st: Store, x: Boxed, y: Boxed)
    requires st.Valid() && Fine(st, x) && Fine(st, y)
    ensures Is(st, x).Leaf? || Is(st, y).Leaf? ==> (x == y <==> Is(st, x) == Is(st, y))
  {
    Kinds(st, x);
    Kinds(st, y);
  }

  /** n op= x, as the floating-point unit does it on whatever is in the boxes. */
  method Compute(st: Store, p: nat, x: Boxed, y: Boxed, ghost k: Consts) returns (z: Boxed)
    requires Uses(st, k) && st.Valid() && Fine(st, x) && Fine(st, y)
    ensures Fine(st, z) && Computes(k, p, Is(st, x), Is(st, y), Is(st, z))
  {
    hide Store.Valid, Store.Sound, Heap, Good, Atomic, Was;
    Kinds(st, x);
    Kinds(st, y);
    z := Arithmetic(st.fpu, p, x, y);
    if IsNumber(z) { NumberFine(st, z); }
  }

  /** f_add, f_sub, f_mul and f_div fold their arguments; f_int uses only the first. A list that does not end in ()
      is folded for ever. */
  method Fold(st: Store, p: nat, n: Boxed, t: Boxed, fuel: nat, ghost k: Consts) returns (r: Res)
    requires Uses(st, k) && st.Valid() && Fine(st, n) && Fine(st, t)
    ensures !r.Aborted? && (r.Val? ==> Fine(st, r.x) && FoldsTo(k, fuel, p, Is(st, n), Is(st, t), Is(st, r.x)))
  {
    hide Store.Valid, Store.Sound, Heap, Good, Atomic, Was, Computes, FoldsTo;
    var sum, at := n, t;
    var left: nat := fuel;
    if p == 9 {
      sum := Compute(st, p, n, n, k);
      FoldRule(k, fuel, p, Is(st, n), Is(st, t), Is(st, sum));
      return Val(sum);
    }
    while Tag(at) != NIL
      invariant Fine(st, sum) && Fine(st, at) && left <= fuel
      invariant forall v :: FoldsTo(k, left, p, Is(st, sum), Is(st, at), v) ==> FoldsTo(k, fuel, p, Is(st, n), Is(st, t), v)
      decreases left
    {
      if left == 0 { return OutOfFuel; }
      Kinds(st, at);
      var x := Car(st, at);
      var next := Compute(st, p, sum, x, k);
      FoldRule(k, left, p, Is(st, sum), Is(st, at), Is(st, next));
      sum := next;
      at := Cdr(st, at);
      left := left - 1;
    }
    Kinds(st, at);
    FoldRule(k, left, p, Is(st, sum), Is(st, at), Is(st, sum));
    r := Val(sum);
  }

  // ----- whole runs -----

  /** One turn of the loop of lisp: evaluate in the global environment, then collect. What is printed in between is value. */
  method Turn(st: Store, x: Boxed, fuel: nat, ghost k: Consts) returns (r: Res, ghost value: Sexp)
    requires Uses(st, k) && st.Valid() && Fine(st, x)
    modifies st`sp, st`env, st.cell
    ensures r.Val? ==> st.Valid() && st.sp == Ord(st.env)
                       && EvalsTo(k, fuel, old(Is(st, x)), old(Is(st, st.env)), old(Is(st, st.env)), value, Is(st, st.env))
                       && Grown(old(Is(st, st.env)), Is(st, st.env))
  {
    hide Store.Valid, Store.Sound, Heap, Good, Atomic, Was, After, IsRef, Tag, Ord, EvalsTo;
    Constants(st);
    value := Leaf(st.nil);
    ghost var X, G := Is(st, x), Is(st, st.env);
    r := Eval(st, x, st.env, fuel, k);
    if r.Val? {
      value := Is(st, r.x);
      ghost var G1 := Is(st, st.env);
      Collect(st);
      GrowRule(k, fuel, X, G, G, value, G1);
    }
  }

  /** gc. */
  method Collect(st: Store)
    requires st.Valid()
    modifies st`sp
    ensures st.Valid() && st.sp == Ord(st.env) && Is(st, st.env) == old(Is(st, st.env))
  {
    hide Named, Atomic;
    st.Gc();
  }

  /** What is typed, as the reader takes it apart: numbers, names, (), and pairs, of which lists and quoting are made. */
  datatype Source = Number(bits: Boxed) | Name(s: seq<Byte>) | Empty | Dot(car: Source, cdr: Source)

  predicate Sane(src: Source) {
    match src
    case Number(bits) => IsNumber(bits)
    case Name(s) => IsName(s)
    case Empty => true
    case Dot(car, cdr) => Sane(car) && Sane(cdr)
  }

  /** t is what src stands for: a name is the atom with its place. */
  ghost predicate Reads(names: seq<seq<Byte>>, nil: Boxed, src: Source, t: Sexp) {
    match src
    case Number(bits) => t == Leaf(bits)
    case Name(s) => t.Leaf? && AtomOf(names, s, t.bits)
    case Empty => t == Leaf(nil)
    case Dot(car, cdr) => t.Pair? && !t.closure && Reads(names, nil, car, t.car) && Reads(names, nil, cdr, t.cdr)
  }

  lemma {:induction false} ReadsMore(names: seq<seq<Byte>>, more: seq<seq<Byte>>, nil: Boxed, src: Source, t: Sexp)
    requires Reads(names, nil, src, t) && names <= more
    ensures Reads(more, nil, src, t)
    decreases src
  {
    hide StartOf;
    match src
    case Name(s) => AtomOfMore(names, more, s, t.bits);
    case Dot(car, cdr) =>
      ReadsMore(names, more, nil, car, t.car);
      ReadsMore(names, more, nil, cdr, t.cdr);
    case _ =>
  }

  /** atom, on a store that is set up. */
  method Intern(st: Store, s: seq<Byte>) returns (r: Res)
    requires st.Valid() && IsName(s)
    modifies st`hp, st`names, st.cell
    ensures !r.OutOfFuel?
    ensures r.Val? ==> Since(st, old(Now(st))) && old(st.names) <= st.names && Fine(st, r.x)
                       && Reads(st.names, st.nil, Name(s), Is(st, r.x)) && Is(st, st.env) == old(Is(st, st.env))
  {
    hide Named, Heap, Atomic, StartOf, AllAtomic, AtomOf, Tag, Ord, Tree;
    ghost var s0, names0 := Now(st), st.names;
    var ok, x := st.Atom(s);
    if !ok { return Aborted; }
    AtomicMore(st.tru, names0, st.names);
    AtomicMore(st.err, names0, st.names);
    NotAtom(st.env, st.names);
    Still(st, s0, st.env);
    PlainTree(Now(st), x);
    r := Val(x);
  }

  /** parse, from the tree of what is typed: list items from left to right, each pair after its parts. */
  method Build(st: Store, src: Source) returns (r: Res)
    requires st.Valid() && Sane(src)
    modifies st`hp, st`names, st`sp, st.cell
    ensures !r.OutOfFuel?
    ensures r.Val? ==> Since(st, old(Now(st))) && old(st.names) <= st.names && Fine(st, r.x)
                       && Reads(st.names, st.nil, src, Is(st, r.x)) && Is(st, st.env) == old(Is(st, st.env))
    decreases src
  {
    hide Store.Valid, Store.Sound, Heap, Good, Atomic, Was, After, IsRef, Tag, Ord, StartOf, IsName, IsNumber;
    match src {
      case Number(bits) =>
        Begin(st);
        NumberFine(st, bits);
        r := Val(bits);
      case Name(s) => r := Intern(st, s);
      case Empty =>
        Begin(st);
        Constants(st);
        r := Val(st.nil);
      case Dot(car, cdr) =>
        ghost var s0 := Now(st);
        r := Build(st, car);
        if !r.Val? { return; }
        var x := r.x;
        ghost var s1, names1, X := Now(st), st.names, Is(st, r.x);
        r := Build(st, cdr);
        if !r.Val? { return; }
        ghost var s2 := Now(st);
        AtomicMore(x, names1, st.names);
        Still(st, s1, x);
        ReadsMore(names1, st.names, st.nil, car, X);
        SinceTwice(st, s0, s1);
        r := Cons(st, x, r.x);
        if r.Val? { SinceTwice(st, s0, s2); }
    }
  }

  lemma StoodNow(st: Store, x: Boxed)
    ensures Is(st, x) == Stood(st.cell[..], st.sp, x)
  {
  }

  /** What has been read, the values and the global environments: each turn gives a value the language gives, and the
      environment only gains bindings. */
  ghost predicate Transcript(k: Consts, fuel: nat, read: seq<Sexp>, envs: seq<Sexp>, values: seq<Sexp>) {
    && |envs| == |read| + 1 && |values| == |read|
    && forall i :: 0 <= i < |read| ==> EvalsTo(k, fuel, read[i], envs[i], envs[i], values[i], envs[i + 1]) && Grown(envs[i], envs[i + 1])
  }

  lemma TranscriptStarts(k: Consts, fuel: nat, env: Sexp)
    ensures Transcript(k, fuel, [], [env], [])
  {
  }

  lemma TranscriptNext(k: Consts, fuel: nat, read: seq<Sexp>, envs: seq<Sexp>, values: seq<Sexp>, x: Sexp, v: Sexp, env: Sexp)
    requires Transcript(k, fuel, read, envs, values)
    requires EvalsTo(k, fuel, x, envs[|read|], envs[|read|], v, env) && Grown(envs[|read|], env)
    ensures Transcript(k, fuel, read + [x], envs + [env], values + [v])
  {
    hide EvalsTo, Grown;
  }

  /** The first inputs have been read as these. */
  ghost predicate AllRead(names: seq<seq<Byte>>, nil: Boxed, inputs: seq<Source>, read: seq<Sexp>) {
    |read| <= |inputs| && forall i :: 0 <= i < |read| ==> Reads(names, nil, inputs[i], read[i])
  }

  lemma AllReadStarts(names: seq<seq<Byte>>, nil: Boxed, inputs: seq<Source>)
    ensures AllRead(names, nil, inputs, [])
  {
  }

  lemma AllReadNext(names: seq<seq<Byte>>, names': seq<seq<Byte>>, nil: Boxed, inputs: seq<Source>, read: seq<Sexp>, x: Sexp)
    requires AllRead(names, nil, inputs, read) && names <= names' && |read| < |inputs| && Reads(names', nil, inputs[|read|], x)
    ensures AllRead(names', nil, inputs, read + [x])
  {
    hide Reads;
    forall i | 0 <= i < |read| ensures Reads(names', nil, inputs[i], read[i]) {
      ReadsMore(names, names', nil, inputs[i], read[i]);
    }
  }

  /** A session: lisp starts, and reads, evaluates and collects once for each input. After every turn the store is valid,
      the value is one the language gives to what was typed, and the global environment has only gained bindings. */
  method Session(fpu: (nat, Boxed, Boxed) -> Boxed, less: (Boxed, Boxed) -> bool, prims: seq<seq<Byte>>, inputs: seq<Source>, fuel: nat)
    returns (st: Store, turns: nat, ended: bool, ghost k: Consts, ghost envs: seq<Sexp>, ghost values: seq<Sexp>, ghost read: seq<Sexp>,
      ghost names0: seq<seq<Byte>>)
    requires |prims| == PRIMS && (forall i :: 0 <= i < PRIMS ==> IsName(prims[i]))
    requires prims[0] != ERR_NAME && prims[0] != TRUE_NAME && prims[0] != []
    requires forall i :: 0 <= i < |inputs| ==> Sane(inputs[i])
    ensures |read| == turns <= |inputs| && Transcript(k, fuel, read, envs, values)
    ensures turns > 0 || !ended ==> Initial(names0, prims, PRIMS, k.tru, k.nil, envs[0])
    ensures !ended ==> turns == |inputs| && Uses(st, k) && st.Valid() && Is(st, st.env) == envs[turns]
    ensures !ended ==> AllRead(st.names, st.nil, inputs, read)
  {
    hide Store.Valid, Store.Sound, Heap, Good, Atomic, Was, After, IsRef, Tag, Ord, StartOf, IsName, IsNumber, EvalsTo, Grown, Reads, Sane, Initial, Transcript, AllRead, Is;
    turns, envs, values, read := 0, [Leaf([0, 0, 0, 0, 0, 0, 0, 0])], [], [];
    st := new Store(fpu, less);
    var started := st.Start(prims);
    names0 := st.names;
    k := Consts(st.nil, st.tru, st.err, st.fpu, st.less);
    ended := !started;
    TranscriptStarts(k, fuel, envs[0]);
    if ended { return; }
    envs := [Is(st, st.env)];
    StoodNow(st, st.env);
    TranscriptStarts(k, fuel, envs[0]);
    AllReadStarts(st.names, st.nil, inputs);
    while turns < |inputs|
      invariant |read| == turns <= |inputs| && |envs| == turns + 1 && !ended && Transcript(k, fuel, read, envs, values)
      invariant Initial(names0, prims, PRIMS, k.tru, k.nil, envs[0])
      invariant fresh(st) && fresh(st.cell) && Uses(st, k) && st.Valid() && Is(st, st.env) == envs[turns]
      invariant AllRead(st.names, st.nil, inputs, read)
    {
      ghost var names1 := st.names;
      var r := Build(st, inputs[turns]);
      if !r.Val? { ended := true; return; }
      ghost var X, value := Is(st, r.x), Leaf(st.nil);
      AllReadNext(names1, st.names, st.nil, inputs, read, X);
      r, value := Turn(st, r.x, fuel, k);
      if !r.Val? { ended := true; return; }
      TranscriptNext(k, fuel, read, envs, values, X, value, Is(st, st.env));
      envs, values, read := envs + [Is(st, st.env)], values + [value], read + [X];
      turns := turns + 1;
    }
  }
}
