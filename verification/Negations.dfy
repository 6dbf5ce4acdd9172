/** Pushing negations inward, and folding constant arithmetic. */
module Negations {
  import opened Wrappers
  import opened Expressions

  function Complement(t: Test): Test {
    match t case GT => LE case GE => LT case EQ => NE case NE => EQ case LE => GT case LT => GE
  }

  /** The rewritten expression, and whether it stands for the complement that was asked for. */
  function Optimize(e: Expr, compl: bool): (Expr, bool)
    decreases e, 0
  {
    match e
    case Not(x) =>
      var (y, res) := Optimize(x, !compl);
      (if res == !compl then y else Not(y), compl)
    case TNot(x) => (Optimize(x, !compl).0, compl)
    case Call(name, args) => (Call(name, OptimizeArgs(args)), false)
    case Lit(t, v) => (if compl && t == BOOL then Lit(t, Truth(v != Truth(true))) else e, false)
    case Ref(_, _, _, _) => (e, false)
    case Cast(_, _) => (e, compl)
    case Rel(t, l, r) => (Rel(if compl then Complement(t) else t, Optimize(l, false).0, Optimize(r, false).0), compl)
    case And(l, r) =>
      var a, b := Optimize(l, compl).0, Optimize(r, compl).0;
      (if compl then Or(a, b) else And(a, b), compl)
    case Or(l, r) =>
      var a, b := Optimize(l, compl).0, Optimize(r, compl).0;
      (if compl then And(a, b) else Or(a, b), compl)
    case TTrue(x) => (if compl then TFalse(Optimize(x, false).0) else TTrue(Optimize(x, false).0), compl)
    case TFalse(x) => (if compl then TTrue(Optimize(x, false).0) else TFalse(Optimize(x, false).0), compl)
    case Eval(x) => (Eval(Optimize(x, compl).0), compl)
    case Calc(op, l, r) => (Calc(op, Optimize(l, compl).0, Optimize(r, compl).0), compl)
    case Minus(x) => (Minus(Optimize(x, compl).0), compl)
  }

  function OptimizeArgs(args: Args): Args
    decreases args, 1
  {
    match args case NoArg => NoArg case Arg(e, next) => Arg(Optimize(e, false).0, OptimizeArgs(next))
  }

  /** No negation on the stack stands over a cast, nor an odd number of them over a constant. */
  predicate Clean(e: Expr, compl: bool)
    decreases e, 0
  {
    match e
    case Lit(t, _) => !(compl && t == BOOL)
    case Ref(_, _, _, _) => true
    case Not(x) => !x.Cast? && Clean(x, !compl)
    case TNot(x) => Clean(x, !compl)
    case Rel(_, l, r) => Clean(l, false) && Clean(r, false)
    case And(l, r) => Clean(l, compl) && Clean(r, compl)
    case Or(l, r) => Clean(l, compl) && Clean(r, compl)
    case TTrue(x) => Clean(x, false)
    case TFalse(x) => Clean(x, false)
    case Eval(x) => Clean(x, compl)
    case Calc(_, l, r) => Clean(l, false) && Clean(r, false)
    case Minus(x) => Clean(x, false)
    case Call(_, args) => CleanArgs(args)
    case Cast(_, _) => true
  }

  predicate CleanArgs(args: Args)
    decreases args, 1
  {
    match args case NoArg => true case Arg(e, next) => Clean(e, false) && CleanArgs(next)
  }

  /** Attributes and functions give booleans as 0 or 1. */
  ghost predicate Normal(env: Env) {
    && Typed(env)
    && (forall mem, pos, attr :: env.attrType(mem, pos, attr) == BOOL ==> IsBool(env.fetch(mem, pos, attr)))
    && (forall name, vs :: env.signature(name).result == BOOL ==> IsBool(env.apply(env.bind(name), vs)))
  }

  predicate IsBool(v: Value) { v == Truth(false) || v == Truth(true) }

  lemma BoolValue(env: Env, e: Expr)
    requires Normal(env) && OnStack(env, e) && TypeOf(env, e) == BOOL && !e.Cast? && Sem(env, e).Some?
    ensures IsBool(Sem(env, e).value)
  {}

  /** The rewritten expression has the place and type of the first, and its value or, where the
      complement is said to be absorbed, the opposite one. */
  ghost predicate Faithful(env: Env, e: Expr, compl: bool, r: (Expr, bool)) {
    && Checked(env, r.0) && TypeOf(env, r.0) == TypeOf(env, e) && Control(r.0) == Control(e)
    && (r.1 ==> compl) && (Control(e) ==> r.1 == compl)
    && Sem(env, r.0) == if r.1 then Opposite(Sem(env, e)) else Sem(env, e)
  }

  lemma NotFaithful(env: Env, x: Expr, compl: bool, r: (Expr, bool))
    requires Normal(env) && Checked(env, Not(x)) && !x.Cast? && Faithful(env, x, !compl, r)
    ensures Faithful(env, Not(x), compl, (if r.1 == !compl then r.0 else Not(r.0), compl))
  {
    NotValue(env, x);
    NotParts(env, x);
    hide Normal, Sem, Checked, TypeOf, Control, OnStack;
    if r.1 != !compl { NotOf(env, r.0); }
  }

  lemma NotValue(env: Env, x: Expr)
    requires Normal(env) && Checked(env, Not(x)) && !x.Cast?
    ensures Sem(env, Not(x)) == Opposite(Sem(env, x)) && Opposite(Sem(env, Not(x))) == Sem(env, x)
  {
    hide Normal, Typed, IsBool;
    var v := Sem(env, x);
    assert OnStack(env, x) && TypeOf(env, x) == BOOL;
    if v.Some? {
      BoolValue(env, x);
      TwiceOpposite(v.value);
    }
  }

  lemma NotParts(env: Env, x: Expr)
    requires Checked(env, Not(x))
    ensures Checked(env, x) && !Control(x) && TypeOf(env, x) == BOOL && TypeOf(env, Not(x)) == BOOL && !Control(Not(x))
  {}

  lemma NotOf(env: Env, y: Expr)
    requires Checked(env, y) && !Control(y) && TypeOf(env, y) == BOOL
    ensures Checked(env, Not(y)) && Sem(env, Not(y)) == Opposite(Sem(env, y)) && TypeOf(env, Not(y)) == BOOL && !Control(Not(y))
  {}

  lemma TwiceOpposite(v: Value)
    requires IsBool(v)
    ensures Opposite(Opposite(Some(v))) == Some(v)
  {}

  lemma TNotFaithful(env: Env, x: Expr, compl: bool, r: (Expr, bool))
    requires Checked(env, TNot(x)) && Faithful(env, x, !compl, r)
    ensures Faithful(env, TNot(x), compl, (r.0, compl))
  {}

  lemma RelFaithful(env: Env, t: Test, l: Expr, r: Expr, compl: bool, a: (Expr, bool), b: (Expr, bool))
    requires Checked(env, Rel(t, l, r)) && Faithful(env, l, false, a) && Faithful(env, r, false, b)
    ensures Faithful(env, Rel(t, l, r), compl, (Rel(if compl then Complement(t) else t, a.0, b.0), compl))
  {
    hide Compare, Passes, Complement;
    var v, w := Sem(env, l), Sem(env, r);
    if v.Some? && w.Some? { ComplementTest(t, Compare(v.value, w.value)); }
    var y := Rel(if compl then Complement(t) else t, a.0, b.0);
    assert Checked(env, y);
    assert TypeOf(env, y) == TypeOf(env, Rel(t, l, r));
    assert Sem(env, y) == if compl then Opposite(Sem(env, Rel(t, l, r))) else Sem(env, Rel(t, l, r));
  }

  lemma ComplementTest(t: Test, order: int)
    ensures Passes(Complement(t), order) == !Passes(t, order)
  {}

  lemma AndFaithful(env: Env, l: Expr, r: Expr, compl: bool, a: (Expr, bool), b: (Expr, bool))
    requires InControl(env, l) && InControl(env, r) && Faithful(env, l, compl, a) && Faithful(env, r, compl, b)
    ensures Faithful(env, And(l, r), compl, (if compl then Or(a.0, b.0) else And(a.0, b.0), compl))
    ensures Faithful(env, Or(l, r), compl, (if compl then And(a.0, b.0) else Or(a.0, b.0), compl))
  {}

  lemma TestFaithful(env: Env, x: Expr, compl: bool, a: (Expr, bool))
    requires OnStack(env, x) && TypeOf(env, x) == BOOL && Faithful(env, x, false, a)
    ensures Faithful(env, TTrue(x), compl, (if compl then TFalse(a.0) else TTrue(a.0), compl))
    ensures Faithful(env, TFalse(x), compl, (if compl then TTrue(a.0) else TFalse(a.0), compl))
  {}

  lemma EvalFaithful(env: Env, x: Expr, compl: bool, a: (Expr, bool))
    requires InControl(env, x) && Faithful(env, x, compl, a)
    ensures Faithful(env, Eval(x), compl, (Eval(a.0), compl))
  {}

  lemma CalcFaithful(env: Env, op: Arith, l: Expr, r: Expr, a: (Expr, bool), b: (Expr, bool))
    requires Faithful(env, l, false, a)
    ensures Checked(env, Calc(op, l, r)) && Faithful(env, r, false, b) ==> Faithful(env, Calc(op, l, r), false, (Calc(op, a.0, b.0), false))
    ensures Checked(env, Minus(l)) ==> Faithful(env, Minus(l), false, (Minus(a.0), false))
  {}

  lemma CallFaithful(env: Env, name: int, args: Args, args': Args, compl: bool)
    requires CheckedArgs(env, args) && CheckedArgs(env, args') && SemArgs(env, args') == SemArgs(env, args)
    ensures Faithful(env, Call(name, args), compl, (Call(name, args'), false))
  {}

  lemma LeafFaithful(env: Env, e: Expr, compl: bool)
    requires Checked(env, e) && (e.Lit? || e.Ref? || e.Cast?) && Clean(e, compl) && (compl ==> TypeOf(env, e) == BOOL && !e.Cast?)
    ensures Faithful(env, e, compl, Optimize(e, compl))
  {}

  lemma Parts(env: Env, e: Expr)
    requires Checked(env, e)
    ensures e.Rel? || e.Calc? ==> OnStack(env, e.l) && OnStack(env, e.r) && Checked(env, e.l) && Checked(env, e.r)
    ensures e.And? || e.Or? ==> InControl(env, e.l) && InControl(env, e.r) && Checked(env, e.l) && Checked(env, e.r) && TypeOf(env, e.l) == TypeOf(env, e.r) == BOOL
    ensures e.TNot? || e.Eval? ==> InControl(env, e.e) && Checked(env, e.e) && TypeOf(env, e.e) == BOOL && !e.e.Cast?
    ensures e.Not? || e.TTrue? || e.TFalse? ==> OnStack(env, e.e) && Checked(env, e.e) && TypeOf(env, e.e) == BOOL
    ensures e.Minus? || e.Cast? ==> OnStack(env, e.e) && Checked(env, e.e)
    ensures e.Call? ==> CheckedArgs(env, e.args)
    ensures e.Minus? || e.Calc? ==> TypeOf(env, e) != BOOL
    ensures e.And? || e.Or? ==> !e.l.Cast? && !e.r.Cast?
  {}

  /** The rewriting keeps the value of every clean expression, and tells the truth about the complement. */
  lemma {:induction false} OptimizeSound(env: Env, e: Expr, compl: bool)
    requires Normal(env) && Checked(env, e) && Clean(e, compl) && (compl ==> TypeOf(env, e) == BOOL && !e.Cast?)
    ensures Faithful(env, e, compl, Optimize(e, compl))
    decreases e, 0
  {
    hide Normal, Sem, SemArgs, Faithful, Checked, CheckedArgs, OnStack, InControl, TypeOf;
    Parts(env, e);
    match e
    case Not(x) =>
      OptimizeSound(env, x, !compl);
      NotFaithful(env, x, compl, Optimize(x, !compl));
    case TNot(x) =>
      OptimizeSound(env, x, !compl);
      TNotFaithful(env, x, compl, Optimize(x, !compl));
    case Rel(t, l, r) =>
      OptimizeSound(env, l, false);
      OptimizeSound(env, r, false);
      RelFaithful(env, t, l, r, compl, Optimize(l, false), Optimize(r, false));
    case And(l, r) =>
      OptimizeSound(env, l, compl);
      OptimizeSound(env, r, compl);
      AndFaithful(env, l, r, compl, Optimize(l, compl), Optimize(r, compl));
    case Or(l, r) =>
      OptimizeSound(env, l, compl);
      OptimizeSound(env, r, compl);
      AndFaithful(env, l, r, compl, Optimize(l, compl), Optimize(r, compl));
    case TTrue(x) =>
      OptimizeSound(env, x, false);
      TestFaithful(env, x, compl, Optimize(x, false));
    case TFalse(x) =>
      OptimizeSound(env, x, false);
      TestFaithful(env, x, compl, Optimize(x, false));
    case Eval(x) =>
      OptimizeSound(env, x, compl);
      EvalFaithful(env, x, compl, Optimize(x, compl));
    case Calc(op, l, r) =>
      OptimizeSound(env, l, false);
      OptimizeSound(env, r, false);
      CalcFaithful(env, op, l, r, Optimize(l, false), Optimize(r, false));
    case Minus(x) =>
      OptimizeSound(env, x, false);
      CalcFaithful(env, ADD, x, x, Optimize(x, false), Optimize(x, false));
    case Call(name, args) =>
      OptimizeArgsSound(env, args);
      CallFaithful(env, name, args, OptimizeArgs(args), compl);
    case _ => LeafFaithful(env, e, compl);
  }

  lemma {:induction false} OptimizeArgsSound(env: Env, args: Args)
    requires Normal(env) && CheckedArgs(env, args) && CleanArgs(args)
    ensures CheckedArgs(env, OptimizeArgs(args)) && SemArgs(env, OptimizeArgs(args)) == SemArgs(env, args)
    decreases args, 1
  {
    hide Normal;
    match args
    case NoArg =>
    case Arg(e, next) => OptimizeSound(env, e, false); OptimizeArgsSound(env, next);
  }

  // ---------- chains of negations on the stack ----------

  /** k negations on the stack over x. */
  function Nots(k: nat, x: Expr): Expr { if k == 0 then x else Not(Nots(k - 1, x)) }

  /** What the rewriting makes of a chain over x: the constant is turned over under one that stays, and a
      cast loses them all. */
  lemma {:induction false} ChainLeft(k: nat, x: Expr, compl: bool)
    requires k > 0 && ((x.Lit? && x.typ == BOOL) || x.Cast?)
    ensures var odd := (k % 2 == 1) != compl;
      Optimize(Nots(k, x), compl) == (if x.Cast? || !odd then x else Not(Lit(BOOL, Truth(x.val != Truth(true)))), compl)
  {
    if k > 1 { ChainLeft(k - 1, x, !compl); }
  }

  lemma {:induction false} ChainMeans(env: Env, k: nat, x: Expr)
    requires Sem(env, x).Some?
    ensures var v := Sem(env, x);
      Sem(env, Nots(k, x)) == if k == 0 then v else if k % 2 == 0 then Whether(v) else Opposite(v)
  {
    if k > 0 { ChainMeans(env, k - 1, x); }
  }

  lemma {:induction false} ChainChecked(env: Env, k: nat, x: Expr)
    requires Checked(env, Nots(k, x)) && k > 0
    ensures OnStack(env, x) && TypeOf(env, x) == BOOL
  {
    assert Nots(k, x) == Not(Nots(k - 1, x));
    if k > 1 { ChainChecked(env, k - 1, x); } else { assert Nots(k, x) == Not(x); }
  }

  lemma {:induction false} ChainClean(k: nat, x: Expr, compl: bool)
    requires !x.Cast? && Clean(x, (k % 2 == 1) != compl)
    ensures Clean(Nots(k, x), compl)
  {
    if k > 0 { ChainClean(k - 1, x, !compl); }
  }

  /** A chain over anything clean keeps its value; over a constant if its length is even; and over a cast
      if it is even and the value is 0 or 1. */
  predicate GoodChain(k: nat, x: Expr, v: Value) {
    (x.Lit? ==> k % 2 == 0) && (x.Cast? ==> k % 2 == 0 && IsBool(v))
  }

  /** The rewriting keeps the value of a chain exactly if it is a good one, and its truth exactly if it is
      even or over neither a constant nor a cast. */
  lemma ChainVerdict(env: Env, k: nat, x: Expr)
    requires k > 0 && Typed(env) && Checked(env, Nots(k, x)) && Sem(env, x).Some?
    requires x.Lit? || x.Cast? || (Normal(env) && Clean(x, k % 2 == 1))
    ensures var y := Optimize(Nots(k, x), false).0;
      && (Sem(env, y) == Sem(env, Nots(k, x)) <==> GoodChain(k, x, Sem(env, x).value))
      && (Whether(Sem(env, y)) == Whether(Sem(env, Nots(k, x))) <==> k % 2 == 0 || !(x.Lit? || x.Cast?))
  {
    ChainChecked(env, k, x);
    if x.Lit? || x.Cast? {
      ChainLeft(k, x, false);
      ChainMeans(env, k, x);
    } else {
      ChainClean(k, x, false);
      OptimizeSound(env, Nots(k, x), false);
    }
  }

  // ---------- what is left of the written negations ----------

  /** Some written negation is left in e, for which there is no code. */
  predicate HasTNot(e: Expr)
    decreases e, 0
  {
    match e
    case TNot(_) => true
    case Lit(_, _) => false
    case Ref(_, _, _, _) => false
    case Rel(_, l, r) => HasTNot(l) || HasTNot(r)
    case And(l, r) => HasTNot(l) || HasTNot(r)
    case Or(l, r) => HasTNot(l) || HasTNot(r)
    case Calc(_, l, r) => HasTNot(l) || HasTNot(r)
    case Call(_, args) => HasTNotArgs(args)
    case Not(x) => HasTNot(x)
    case TTrue(x) => HasTNot(x)
    case TFalse(x) => HasTNot(x)
    case Eval(x) => HasTNot(x)
    case Minus(x) => HasTNot(x)
    case Cast(_, x) => HasTNot(x)
  }

  predicate HasTNotArgs(args: Args)
    decreases args, 1
  {
    match args case NoArg => false case Arg(e, next) => HasTNot(e) || HasTNotArgs(next)
  }

  /** Some written negation stands below a cast, where the rewriting does not go. */
  predicate Buried(e: Expr)
    decreases e, 0
  {
    match e
    case Cast(_, x) => HasTNot(x)
    case Lit(_, _) => false
    case Ref(_, _, _, _) => false
    case Rel(_, l, r) => Buried(l) || Buried(r)
    case And(l, r) => Buried(l) || Buried(r)
    case Or(l, r) => Buried(l) || Buried(r)
    case Calc(_, l, r) => Buried(l) || Buried(r)
    case Call(_, args) => BuriedArgs(args)
    case TNot(x) => Buried(x)
    case Not(x) => Buried(x)
    case TTrue(x) => Buried(x)
    case TFalse(x) => Buried(x)
    case Eval(x) => Buried(x)
    case Minus(x) => Buried(x)
  }

  predicate BuriedArgs(args: Args)
    decreases args, 1
  {
    match args case NoArg => false case Arg(e, next) => Buried(e) || BuriedArgs(next)
  }

  /** Exactly the negations below a cast survive. */
  lemma {:induction false} OptimizeLeavesBuried(e: Expr, compl: bool)
    ensures HasTNot(Optimize(e, compl).0) <==> Buried(e)
    decreases e, 0
  {
    match e
    case Not(x) => OptimizeLeavesBuried(x, !compl);
    case TNot(x) => OptimizeLeavesBuried(x, !compl);
    case Rel(_, l, r) => OptimizeLeavesBuried(l, false); OptimizeLeavesBuried(r, false);
    case And(l, r) => OptimizeLeavesBuried(l, compl); OptimizeLeavesBuried(r, compl);
    case Or(l, r) => OptimizeLeavesBuried(l, compl); OptimizeLeavesBuried(r, compl);
    case TTrue(x) => OptimizeLeavesBuried(x, false);
    case TFalse(x) => OptimizeLeavesBuried(x, false);
    case Eval(x) => OptimizeLeavesBuried(x, compl);
    case Calc(_, l, r) => OptimizeLeavesBuried(l, compl); OptimizeLeavesBuried(r, compl);
    case Minus(x) => OptimizeLeavesBuried(x, compl);
    case Call(_, args) => OptimizeArgsLeavesBuried(args);
    case _ =>
  }

  lemma {:induction false} OptimizeArgsLeavesBuried(args: Args)
    ensures HasTNotArgs(OptimizeArgs(args)) <==> BuriedArgs(args)
    decreases args, 1
  {
    match args
    case NoArg =>
    case Arg(e, next) => OptimizeLeavesBuried(e, false); OptimizeArgsLeavesBuried(next);
  }

  // ---------- folding ----------

  /** The folded expression, and whether it is a constant number; nothing if a constant is divided by zero. */
  function Fold(e: Expr): Option<(Expr, bool)>
    decreases e, 0
  {
    match e
    case Calc(op, l, r) =>
      var a, b := Fold(l), Fold(r);
      if a.None? || b.None? then None
      else if a.value.1 && b.value.1 && a.value.0.Lit? && b.value.0.Lit? then
        var v := Calculate(op, a.value.0.val, b.value.0.val);
        if v.None? then None else Some((Lit(a.value.0.typ, v.value), true))
      else Some((Calc(op, a.value.0, b.value.0), false))
    case Minus(x) =>
      var a := Fold(x);
      if a.None? then None
      else if a.value.1 && a.value.0.Lit? then Some((Lit(a.value.0.typ, Negative(a.value.0.val)), true))
      else Some((Minus(a.value.0), false))
    case Rel(t, l, r) =>
      var a, b := Fold(l), Fold(r);
      if a.None? || b.None? then None else Some((Rel(t, a.value.0, b.value.0), false))
    case And(l, r) =>
      var a, b := Fold(l), Fold(r);
      if a.None? || b.None? then None else Some((And(a.value.0, b.value.0), false))
    case Or(l, r) =>
      var a, b := Fold(l), Fold(r);
      if a.None? || b.None? then None else Some((Or(a.value.0, b.value.0), false))
    case Call(name, args) =>
      var done := FoldArgs(args);
      if done.None? then None else Some((Call(name, done.value), false))
    case TTrue(x) =>
      var a := Fold(x);
      if a.None? then None else Some((TTrue(a.value.0), false))
    case TFalse(x) =>
      var a := Fold(x);
      if a.None? then None else Some((TFalse(a.value.0), false))
    case Lit(t, _) => Some((e, t == NUM || t == FLO || t == CHAR || t == BOOL))
    case _ => Some((e, false))
  }

  function FoldArgs(args: Args): Option<Args>
    decreases args, 1
  {
    match args
    case NoArg => Some(NoArg)
    case Arg(e, next) =>
      var a, rest := Fold(e), FoldArgs(next);
      if a.None? || rest.None? then None else Some(Arg(a.value.0, rest.value))
  }

  /** The folded expression has the place, the type and the value of the first. */
  ghost predicate SameMeaning(env: Env, e: Expr, f: Expr) {
    && Checked(env, f) && TypeOf(env, f) == TypeOf(env, e) && Control(f) == Control(e)
    && Sem(env, f) == Sem(env, e) && HasTNot(f) == HasTNot(e)
  }

  lemma {:induction false} FoldSound(env: Env, e: Expr)
    requires Checked(env, e) && Fold(e).Some?
    ensures SameMeaning(env, e, Fold(e).value.0) && (Fold(e).value.1 ==> Fold(e).value.0.Lit?)
    decreases e, 0
  {
    hide Sem, SemArgs, SameMeaning, Checked, CheckedArgs, OnStack, InControl, TypeOf, HasTNot, Calculate;
    Parts(env, e);
    match e
    case Calc(op, l, r) => FoldSound(env, l); FoldSound(env, r); FoldCalc(env, op, l, r, Fold(l).value.0, Fold(r).value.0);
    case Minus(x) => FoldSound(env, x); FoldMinus(env, x, Fold(x).value.0);
    case Rel(t, l, r) => FoldSound(env, l); FoldSound(env, r); FoldPair(env, e, Fold(l).value.0, Fold(r).value.0);
    case And(l, r) => FoldSound(env, l); FoldSound(env, r); FoldPair(env, e, Fold(l).value.0, Fold(r).value.0);
    case Or(l, r) => FoldSound(env, l); FoldSound(env, r); FoldPair(env, e, Fold(l).value.0, Fold(r).value.0);
    case TTrue(x) => FoldSound(env, x); FoldTest(env, e, Fold(x).value.0);
    case TFalse(x) => FoldSound(env, x); FoldTest(env, e, Fold(x).value.0);
    case Call(name, args) => FoldArgsSound(env, args); FoldCall(env, name, args, FoldArgs(args).value);
    case _ => FoldSame(env, e);
  }

  lemma FoldSame(env: Env, e: Expr)
    requires Checked(env, e)
    ensures SameMeaning(env, e, e)
  {}

  lemma FoldCalc(env: Env, op: Arith, l: Expr, r: Expr, a: Expr, b: Expr)
    requires Checked(env, Calc(op, l, r)) && SameMeaning(env, l, a) && SameMeaning(env, r, b)
    ensures SameMeaning(env, Calc(op, l, r), Calc(op, a, b))
    ensures a.Lit? && b.Lit? && Calculate(op, a.val, b.val).Some? ==>
      SameMeaning(env, Calc(op, l, r), Lit(a.typ, Calculate(op, a.val, b.val).value))
  {}

  lemma FoldMinus(env: Env, x: Expr, a: Expr)
    requires Checked(env, Minus(x)) && SameMeaning(env, x, a)
    ensures SameMeaning(env, Minus(x), Minus(a))
    ensures a.Lit? ==> SameMeaning(env, Minus(x), Lit(a.typ, Negative(a.val)))
  {}

  lemma FoldPair(env: Env, e: Expr, a: Expr, b: Expr)
    requires Checked(env, e) && (e.Rel? || e.And? || e.Or?) && SameMeaning(env, e.l, a) && SameMeaning(env, e.r, b)
    ensures SameMeaning(env, e, match e case Rel(t, _, _) => Rel(t, a, b) case And(_, _) => And(a, b) case _ => Or(a, b))
  {}

  lemma FoldTest(env: Env, e: Expr, a: Expr)
    requires Checked(env, e) && (e.TTrue? || e.TFalse?) && SameMeaning(env, e.e, a)
    ensures SameMeaning(env, e, if e.TTrue? then TTrue(a) else TFalse(a))
  {}

  lemma FoldCall(env: Env, name: int, args: Args, done: Args)
    requires CheckedArgs(env, done) && SemArgs(env, done) == SemArgs(env, args) && HasTNotArgs(done) == HasTNotArgs(args)
    ensures SameMeaning(env, Call(name, args), Call(name, done))
  {}

  lemma {:induction false} FoldArgsSound(env: Env, args: Args)
    requires CheckedArgs(env, args) && FoldArgs(args).Some?
    ensures CheckedArgs(env, FoldArgs(args).value)
    ensures SemArgs(env, FoldArgs(args).value) == SemArgs(env, args) && HasTNotArgs(FoldArgs(args).value) == HasTNotArgs(args)
    decreases args, 1
  {
    match args
    case NoArg =>
    case Arg(e, next) => FoldSound(env, e); FoldArgsSound(env, next);
  }

  // ---------- when folding succeeds, and what it leaves ----------

  /** An operation on constants that are no strings, or such a constant. */
  predicate Constant(e: Expr) {
    match e
    case Lit(t, _) => t == NUM || t == FLO || t == CHAR || t == BOOL
    case Calc(_, l, r) => Constant(l) && Constant(r)
    case Minus(x) => Constant(x)
    case _ => false
  }

  /** Somewhere outside casts, negations and evaluated conditions a constant is divided by a constant zero. */
  predicate DividesByZero(env: Env, e: Expr)
    decreases e, 0
  {
    match e
    case Calc(op, l, r) =>
      || DividesByZero(env, l) || DividesByZero(env, r)
      || (op == DIV && Constant(l) && Constant(r) && Sem(env, r).Some? && IsZero(Sem(env, r).value))
    case Minus(x) => DividesByZero(env, x)
    case Rel(_, l, r) => DividesByZero(env, l) || DividesByZero(env, r)
    case And(l, r) => DividesByZero(env, l) || DividesByZero(env, r)
    case Or(l, r) => DividesByZero(env, l) || DividesByZero(env, r)
    case Call(_, args) => DividesArgs(env, args)
    case TTrue(x) => DividesByZero(env, x)
    case TFalse(x) => DividesByZero(env, x)
    case _ => false
  }

  predicate DividesArgs(env: Env, args: Args)
    decreases args, 1
  {
    match args case NoArg => false case Arg(e, next) => DividesByZero(env, e) || DividesArgs(env, next)
  }

  /** No operation on constants is left in the same places. */
  predicate Reduced(e: Expr)
    decreases e, 0
  {
    match e
    case Calc(_, l, r) => Reduced(l) && Reduced(r) && !(Constant(l) && Constant(r))
    case Minus(x) => Reduced(x) && !Constant(x)
    case Rel(_, l, r) => Reduced(l) && Reduced(r)
    case And(l, r) => Reduced(l) && Reduced(r)
    case Or(l, r) => Reduced(l) && Reduced(r)
    case Call(_, args) => ReducedArgs(args)
    case TTrue(x) => Reduced(x)
    case TFalse(x) => Reduced(x)
    case _ => true
  }

  predicate ReducedArgs(args: Args)
    decreases args, 1
  {
    match args case NoArg => true case Arg(e, next) => Reduced(e) && ReducedArgs(next)
  }

  /** Folding fails exactly for a division of constants by zero; otherwise it leaves no operation on constants,
      and a constant exactly of a constant expression. */
  ghost predicate FoldedWell(env: Env, e: Expr) {
    && (Fold(e).None? <==> DividesByZero(env, e))
    && (Fold(e).Some? ==> Reduced(Fold(e).value.0) && Fold(e).value.1 == Constant(e) == Constant(Fold(e).value.0))
  }

  lemma {:induction false} FoldDecides(env: Env, e: Expr)
    requires Checked(env, e)
    ensures FoldedWell(env, e)
    decreases e, 0
  {
    hide Sem, Checked, CheckedArgs, OnStack, InControl, TypeOf, HasTNot, Calculate, FoldedWell, SameMeaning;
    Parts(env, e);
    match e
    case Calc(op, l, r) => FoldDecides(env, l); FoldDecides(env, r); CalcDecides(env, op, l, r);
    case Minus(x) => FoldDecides(env, x); MinusDecides(env, x);
    case Rel(_, l, r) => FoldDecides(env, l); FoldDecides(env, r); PairDecides(env, e);
    case And(l, r) => FoldDecides(env, l); FoldDecides(env, r); PairDecides(env, e);
    case Or(l, r) => FoldDecides(env, l); FoldDecides(env, r); PairDecides(env, e);
    case Call(_, args) => FoldArgsDecide(env, args); CallDecides(env, e);
    case TTrue(x) => FoldDecides(env, x); TestDecides(env, e);
    case TFalse(x) => FoldDecides(env, x); TestDecides(env, e);
    case _ => RestDecides(env, e);
  }

  lemma RestDecides(env: Env, e: Expr)
    requires e.Lit? || e.Ref? || e.TNot? || e.Not? || e.Eval? || e.Cast?
    ensures FoldedWell(env, e)
  {}

  lemma TestDecides(env: Env, e: Expr)
    requires (e.TTrue? || e.TFalse?) && FoldedWell(env, e.e)
    ensures FoldedWell(env, e)
  {
    hide Sem;
  }

  lemma PairDecides(env: Env, e: Expr)
    requires (e.Rel? || e.And? || e.Or?) && FoldedWell(env, e.l) && FoldedWell(env, e.r)
    ensures FoldedWell(env, e)
  {
    hide Sem;
  }

  lemma CallDecides(env: Env, e: Expr)
    requires e.Call? && (FoldArgs(e.args).None? <==> DividesArgs(env, e.args)) && (FoldArgs(e.args).Some? ==> ReducedArgs(FoldArgs(e.args).value))
    ensures FoldedWell(env, e)
  {
    hide Sem;
  }

  lemma MinusDecides(env: Env, x: Expr)
    requires Checked(env, Minus(x)) && FoldedWell(env, x)
    ensures FoldedWell(env, Minus(x))
  {
    Parts(env, Minus(x));
    if Fold(x).Some? { FoldSound(env, x); NumberOf(env, Minus(x), Fold(x).value.0); }
    hide Sem, Checked;
  }

  /** The type of a folded operand. */
  lemma NumberOf(env: Env, e: Expr, a: Expr)
    requires Checked(env, e) && (e.Minus? || e.Calc?)
    ensures e.Minus? && SameMeaning(env, e.e, a) && a.Lit? ==> (a.typ == NUM && a.val.Num?) || (a.typ == FLO && a.val.Flo?)
    ensures e.Minus? && SameMeaning(env, e.e, a) && a.Lit? ==> Sem(env, e.e) == Some(a.val)
    ensures e.Calc? && SameMeaning(env, e.l, a) && a.Lit? ==> (a.typ == NUM && a.val.Num?) || (a.typ == FLO && a.val.Flo?)
    ensures e.Calc? && SameMeaning(env, e.l, a) && a.Lit? ==> Sem(env, e.l) == Some(a.val) && a.typ == TypeOf(env, e.l)
    ensures e.Calc? && SameMeaning(env, e.r, a) && a.Lit? ==> (a.typ == NUM && a.val.Num?) || (a.typ == FLO && a.val.Flo?)
    ensures e.Calc? && SameMeaning(env, e.r, a) && a.Lit? ==> Sem(env, e.r) == Some(a.val) && a.typ == TypeOf(env, e.l)
  {}

  lemma CalcDecides(env: Env, op: Arith, l: Expr, r: Expr)
    requires Checked(env, Calc(op, l, r)) && FoldedWell(env, l) && FoldedWell(env, r)
    ensures FoldedWell(env, Calc(op, l, r))
  {
    hide Sem, Checked, Calculate, SameMeaning, OnStack, TypeOf, Results, IsZero;
    Parts(env, Calc(op, l, r));
    if Fold(l).Some? && Fold(r).Some? {
      var a, b := Fold(l).value.0, Fold(r).value.0;
      FoldSound(env, l);
      FoldSound(env, r);
      NumberOf(env, Calc(op, l, r), a);
      NumberOf(env, Calc(op, l, r), b);
      if Constant(l) && Constant(r) { CalculateMeans(op, a.val, b.val); }
    }
  }

  lemma {:induction false} FoldArgsDecide(env: Env, args: Args)
    requires CheckedArgs(env, args)
    ensures FoldArgs(args).None? <==> DividesArgs(env, args)
    ensures FoldArgs(args).Some? ==> ReducedArgs(FoldArgs(args).value)
    decreases args, 1
  {
    match args
    case NoArg =>
    case Arg(e, next) => FoldDecides(env, e); FoldArgsDecide(env, next);
  }

  /** Arithmetic on two constants is done when the condition is compiled, and rightly. */
  lemma FoldConstants(op: Arith, t: Type, a: Value, b: Value)
    requires (t == NUM && a.Num? && b.Num?) || (t == FLO && a.Flo? && b.Flo?)
    ensures var f := Fold(Calc(op, Lit(t, a), Lit(t, b)));
      if op == DIV && IsZero(b) then f == None
      else f.Some? && f.value.1 && f.value.0.Lit? && f.value.0.typ == t && Results(op, a, b, f.value.0.val)
  {
    CalculateMeans(op, a, b);
    hide Calculate, Results;
  }
}
