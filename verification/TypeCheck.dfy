/** The type check, which also decides where a boolean is kept. */
module TypeCheck {
  import opened Wrappers
  import opened Expressions

  /** An expression as it is written: none of the operators that the check puts in. */
  predicate Written(env: Env, e: Expr) {
    match e
    case Lit(_, _) => Leaf(env, e)
    case Ref(_, _, _, _) => Leaf(env, e)
    case Rel(_, l, r) => Written(env, l) && Written(env, r)
    case And(l, r) => Written(env, l) && Written(env, r)
    case Or(l, r) => Written(env, l) && Written(env, r)
    case TNot(x) => Written(env, x)
    case Calc(_, l, r) => Written(env, l) && Written(env, r)
    case Minus(x) => Written(env, x)
    case Call(_, args) => WrittenArgs(env, args)
    case Cast(to, x) => Written(env, x) && Castable(to)
    case _ => false
  }

  predicate WrittenArgs(env: Env, args: Args) {
    match args case NoArg => true case Arg(e, next) => Written(env, e) && WrittenArgs(env, next)
  }

  /** The expression and all its parts. */
  function PartsOf(e: Expr): set<Expr>
    decreases e, 0
  {
    {e} + match e
    case Rel(_, l, r) => PartsOf(l) + PartsOf(r)
    case And(l, r) => PartsOf(l) + PartsOf(r)
    case Or(l, r) => PartsOf(l) + PartsOf(r)
    case Calc(_, l, r) => PartsOf(l) + PartsOf(r)
    case Call(_, args) => PartsOfArgs(args)
    case Lit(_, _) => {}
    case Ref(_, _, _, _) => {}
    case _ => PartsOf(e.e)
  }

  function PartsOfArgs(args: Args): set<Expr>
    decreases args, 1
  {
    match args case NoArg => {} case Arg(e, next) => PartsOf(e) + PartsOfArgs(next)
  }

  predicate Allowed(env: Env, x: Expr) {
    ((x.Lit? || x.Ref?) ==> Leaf(env, x)) && (x.Cast? ==> Castable(x.to)) && !(x.Not? || x.TTrue? || x.TFalse? || x.Eval?)
  }

  ghost predicate AllAllowed(env: Env, s: set<Expr>) { forall x :: x in s ==> Allowed(env, x) }

  lemma AllowedBoth(env: Env, s: set<Expr>, t: set<Expr>)
    ensures AllAllowed(env, s + t) <==> AllAllowed(env, s) && AllAllowed(env, t)
  {}

  lemma AllowedOne(env: Env, e: Expr)
    ensures AllAllowed(env, {e}) <==> Allowed(env, e)
    ensures AllAllowed(env, {})
  {}

  /** An expression is a written one exactly if its leaves fit, its casts are possible, and no operator in it is
      one that the check puts in. */
  lemma {:induction false} WrittenMeans(env: Env, e: Expr)
    ensures Written(env, e) <==> AllAllowed(env, PartsOf(e))
    decreases e, 1
  {
    hide Leaf, AllAllowed;
    AllowedOne(env, e);
    match e
    case Rel(_, l, r) => WrittenPair(env, e, l, r);
    case And(l, r) => WrittenPair(env, e, l, r);
    case Or(l, r) => WrittenPair(env, e, l, r);
    case Calc(_, l, r) => WrittenPair(env, e, l, r);
    case Call(_, args) => WrittenArgsMeans(env, args); AllowedBoth(env, {e}, PartsOfArgs(args));
    case Lit(_, _) => AllowedBoth(env, {e}, {});
    case Ref(_, _, _, _) => AllowedBoth(env, {e}, {});
    case _ => WrittenMeans(env, e.e); AllowedBoth(env, {e}, PartsOf(e.e));
  }

  lemma {:induction false} WrittenPair(env: Env, e: Expr, l: Expr, r: Expr)
    requires l < e && r < e
    ensures Written(env, l) <==> AllAllowed(env, PartsOf(l))
    ensures Written(env, r) <==> AllAllowed(env, PartsOf(r))
    ensures AllAllowed(env, {e} + (PartsOf(l) + PartsOf(r))) <==>
      AllAllowed(env, {e}) && AllAllowed(env, PartsOf(l)) && AllAllowed(env, PartsOf(r))
    decreases e, 0
  {
    hide *;
    WrittenMeans(env, l);
    WrittenMeans(env, r);
    AllowedBoth(env, PartsOf(l), PartsOf(r));
    AllowedBoth(env, {e}, PartsOf(l) + PartsOf(r));
  }

  lemma {:induction false} WrittenArgsMeans(env: Env, args: Args)
    ensures WrittenArgs(env, args) <==> AllAllowed(env, PartsOfArgs(args))
    decreases args, 1
  {
    hide Leaf, AllAllowed;
    match args
    case NoArg => NoneAllowed(env);
    case Arg(e, next) => WrittenMeans(env, e); WrittenArgsMeans(env, next); AllowedBoth(env, PartsOf(e), PartsOfArgs(next));
  }

  lemma NoneAllowed(env: Env)
    ensures AllAllowed(env, {})
  {}

  datatype Typing = Typing(e: Expr, typ: Type)

  /** Keeps a boolean where it is wanted. */
  function Place(e: Expr, t: Type, wanted: bool, isThere: bool): Option<Typing> {
    Some(Typing(if t != BOOL || wanted == isThere then e else if wanted then Eval(e) else TTrue(e), t))
  }

  /** The checked expression and its type, or nothing for a compilation error. */
  function CheckType(env: Env, e: Expr, boolOnStack: bool): Option<Typing> {
    match e
    case Lit(t, _) => Place(e, t, boolOnStack, true)
    case Ref(_, _, _, _) => Place(e, TypeOf(env, e), boolOnStack, true)
    case Rel(test, l, r) =>
      var a, b := CheckType(env, l, true), CheckType(env, r, true);
      if a.None? || b.None? || a.value.typ != b.value.typ then None
      else Place(Rel(test, a.value.e, b.value.e), BOOL, boolOnStack, false)
    case And(l, r) =>
      var a, b := CheckType(env, l, false), CheckType(env, r, false);
      if a.None? || b.None? || a.value.typ != BOOL || b.value.typ != BOOL then None
      else Place(And(a.value.e, b.value.e), BOOL, boolOnStack, false)
    case Or(l, r) =>
      var a, b := CheckType(env, l, false), CheckType(env, r, false);
      if a.None? || b.None? || a.value.typ != BOOL || b.value.typ != BOOL then None
      else Place(Or(a.value.e, b.value.e), BOOL, boolOnStack, false)
    case TNot(x) =>
      var a := CheckType(env, x, boolOnStack);
      if a.None? || a.value.typ != BOOL then None
      else Place(if boolOnStack then Not(a.value.e) else TNot(a.value.e), BOOL, boolOnStack, boolOnStack)
    case Calc(op, l, r) =>
      var a, b := CheckType(env, l, true), CheckType(env, r, true);
      if a.None? || b.None? || a.value.typ != b.value.typ || (a.value.typ != NUM && a.value.typ != FLO) then None
      else Place(Calc(op, a.value.e, b.value.e), a.value.typ, boolOnStack, true)
    case Minus(x) =>
      var a := CheckType(env, x, true);
      if a.None? || (a.value.typ != NUM && a.value.typ != FLO) then None
      else Place(Minus(a.value.e), a.value.typ, boolOnStack, true)
    case Call(name, args) =>
      var s, done := env.signature(name), CheckArgs(env, args, env.signature(name).params);
      if done.None? || CountArgs(args) < |s.params| || (CountArgs(args) > |s.params| && !s.more) then None
      else Place(Call(name, done.value), s.result, boolOnStack, true)
    case Cast(to, x) =>
      var a := CheckType(env, x, true);
      if a.None? || !Castable(a.value.typ) then None else Place(Cast(to, a.value.e), to, boolOnStack, true)
    case _ => None
  }

  /** The arguments, the first of which must be of the given types. */
  function CheckArgs(env: Env, args: Args, types: seq<Type>): Option<Args> {
    match args
    case NoArg => Some(NoArg)
    case Arg(e, next) =>
      var a, rest := CheckType(env, e, true), CheckArgs(env, next, if types == [] then [] else types[1..]);
      if a.None? || rest.None? || (types != [] && a.value.typ != types[0]) then None else Some(Arg(a.value.e, rest.value))
  }

  // ---------- when the check succeeds ----------

  /** The written expression e is of type t, by the types of its parts. */
  ghost predicate IsOf(env: Env, e: Expr, t: Type)
    decreases e, 0
  {
    match e
    case Lit(u, _) => t == u
    case Ref(whole, mem, pos, attr) => t == if whole then PATTERN else env.attrType(mem, pos, attr)
    case Rel(_, l, r) => t == BOOL && exists u :: IsOf(env, l, u) && IsOf(env, r, u)
    case And(l, r) => t == BOOL && IsOf(env, l, BOOL) && IsOf(env, r, BOOL)
    case Or(l, r) => t == BOOL && IsOf(env, l, BOOL) && IsOf(env, r, BOOL)
    case TNot(x) => t == BOOL && IsOf(env, x, BOOL)
    case Calc(_, l, r) => (t == NUM || t == FLO) && IsOf(env, l, t) && IsOf(env, r, t)
    case Minus(x) => (t == NUM || t == FLO) && IsOf(env, x, t)
    case Call(name, args) => var s := env.signature(name); t == s.result && AreOf(env, args, s.params, s.more)
    case Cast(to, x) => t == to && (IsOf(env, x, NUM) || IsOf(env, x, CHAR) || IsOf(env, x, BOOL) || IsOf(env, x, PATTERN))
    case _ => false
  }

  /** The arguments are of the parameters' types, in order; more of any type may follow if more is true. */
  ghost predicate AreOf(env: Env, args: Args, types: seq<Type>, more: bool)
    decreases args, 1
  {
    match args
    case NoArg => types == []
    case Arg(e, next) =>
      if types == [] then more && (exists u :: IsOf(env, e, u)) && AreOf(env, next, [], more)
      else IsOf(env, e, types[0]) && AreOf(env, next, types[1..], more)
  }

  /** The check succeeds exactly for an expression that has a type, and with that type, wherever a boolean
      is wanted. */
  lemma {:induction false} CheckTypeDecides(env: Env, e: Expr, boolOnStack: bool, t: Type)
    ensures IsOf(env, e, t) <==> CheckType(env, e, boolOnStack).Some? && CheckType(env, e, boolOnStack).value.typ == t
    decreases e, 0
  {
    match e
    case Rel(_, l, r) => TypesOf(env, l, true); TypesOf(env, r, true);
    case And(l, r) => CheckTypeDecides(env, l, false, BOOL); CheckTypeDecides(env, r, false, BOOL);
    case Or(l, r) => CheckTypeDecides(env, l, false, BOOL); CheckTypeDecides(env, r, false, BOOL);
    case TNot(x) => CheckTypeDecides(env, x, boolOnStack, BOOL);
    case Calc(_, l, r) => CheckTypeDecides(env, l, true, t); CheckTypeDecides(env, r, true, t);
    case Minus(x) => CheckTypeDecides(env, x, true, t);
    case Call(name, args) => CheckArgsDecide(env, args, env.signature(name).params, env.signature(name).more);
    case Cast(_, x) => TypesOf(env, x, true);
    case _ =>
  }

  lemma {:induction false} TypesOf(env: Env, e: Expr, boolOnStack: bool)
    ensures forall t :: IsOf(env, e, t) <==> CheckType(env, e, boolOnStack).Some? && CheckType(env, e, boolOnStack).value.typ == t
    ensures CheckType(env, e, boolOnStack).Some? ==> IsOf(env, e, CheckType(env, e, boolOnStack).value.typ)
    decreases e, 1
  {
    forall t { CheckTypeDecides(env, e, boolOnStack, t); }
  }

  lemma {:induction false} CheckArgsDecide(env: Env, args: Args, types: seq<Type>, more: bool)
    ensures AreOf(env, args, types, more) <==>
      CheckArgs(env, args, types).Some? && |types| <= CountArgs(args) && (CountArgs(args) > |types| ==> more)
    decreases args, 2
  {
    match args
    case NoArg =>
    case Arg(e, next) => TypesOf(env, e, true); CheckArgsDecide(env, next, if types == [] then [] else types[1..], more);
  }

  /** What the check makes of an expression: on the stack its very value, in control its truth. */
  ghost predicate SoundTyping(env: Env, e: Expr, boolOnStack: bool, t: Typing) {
    && Checked(env, t.e) && TypeOf(env, t.e) == t.typ
    && Control(t.e) == (t.typ == BOOL && !boolOnStack)
    && (if Control(t.e) then Sem(env, t.e) == Whether(Sem(env, e)) else Sem(env, t.e) == Sem(env, e))
  }

  lemma PlaceSound(env: Env, from: Expr, e: Expr, t: Type, wanted: bool, isThere: bool)
    requires Checked(env, e) && TypeOf(env, e) == t && Control(e) == !isThere && (Control(e) ==> t == BOOL)
    requires Sem(env, e) == Sem(env, from) && (Control(e) ==> Sem(env, from) == Whether(Sem(env, from)))
    ensures SoundTyping(env, from, wanted, Place(e, t, wanted, isThere).value)
  {}

  lemma LeafSound(env: Env, e: Expr, wanted: bool)
    requires (e.Lit? || e.Ref?) && Leaf(env, e)
    ensures SoundTyping(env, e, wanted, Place(e, TypeOf(env, e), wanted, true).value)
  {
    PlaceSound(env, e, e, TypeOf(env, e), wanted, true);
  }

  lemma RelSound(env: Env, test: Test, l: Expr, r: Expr, a: Typing, b: Typing, wanted: bool)
    requires SoundTyping(env, l, true, a) && SoundTyping(env, r, true, b) && a.typ == b.typ
    ensures SoundTyping(env, Rel(test, l, r), wanted, Place(Rel(test, a.e, b.e), BOOL, wanted, false).value)
  {
    PlaceSound(env, Rel(test, l, r), Rel(test, a.e, b.e), BOOL, wanted, false);
  }

  lemma AndSound(env: Env, l: Expr, r: Expr, a: Typing, b: Typing, wanted: bool)
    requires SoundTyping(env, l, false, a) && SoundTyping(env, r, false, b) && a.typ == b.typ == BOOL
    ensures SoundTyping(env, And(l, r), wanted, Place(And(a.e, b.e), BOOL, wanted, false).value)
    ensures SoundTyping(env, Or(l, r), wanted, Place(Or(a.e, b.e), BOOL, wanted, false).value)
  {
    PlaceSound(env, And(l, r), And(a.e, b.e), BOOL, wanted, false);
    PlaceSound(env, Or(l, r), Or(a.e, b.e), BOOL, wanted, false);
  }

  lemma TNotSound(env: Env, x: Expr, a: Typing, wanted: bool)
    requires SoundTyping(env, x, wanted, a) && a.typ == BOOL
    ensures SoundTyping(env, TNot(x), wanted, Place(if wanted then Not(a.e) else TNot(a.e), BOOL, wanted, wanted).value)
  {
    PlaceSound(env, TNot(x), if wanted then Not(a.e) else TNot(a.e), BOOL, wanted, wanted);
  }

  lemma CalcSound(env: Env, op: Arith, l: Expr, r: Expr, a: Typing, b: Typing, wanted: bool)
    requires SoundTyping(env, l, true, a) && SoundTyping(env, r, true, b) && a.typ == b.typ && (a.typ == NUM || a.typ == FLO)
    ensures SoundTyping(env, Calc(op, l, r), wanted, Place(Calc(op, a.e, b.e), a.typ, wanted, true).value)
    ensures SoundTyping(env, Minus(l), wanted, Place(Minus(a.e), a.typ, wanted, true).value)
  {
    PlaceSound(env, Calc(op, l, r), Calc(op, a.e, b.e), a.typ, wanted, true);
    PlaceSound(env, Minus(l), Minus(a.e), a.typ, wanted, true);
  }

  lemma CastSound(env: Env, to: Type, x: Expr, a: Typing, wanted: bool)
    requires SoundTyping(env, x, true, a) && Castable(a.typ) && Castable(to)
    ensures SoundTyping(env, Cast(to, x), wanted, Place(Cast(to, a.e), to, wanted, true).value)
  {
    PlaceSound(env, Cast(to, x), Cast(to, a.e), to, wanted, true);
  }

  lemma CallSound(env: Env, name: int, args: Args, checked: Args, wanted: bool)
    requires CheckedArgs(env, checked) && SemArgs(env, checked) == SemArgs(env, args)
    ensures SoundTyping(env, Call(name, args), wanted, Place(Call(name, checked), env.signature(name).result, wanted, true).value)
  {
    PlaceSound(env, Call(name, args), Call(name, checked), env.signature(name).result, wanted, true);
  }

  lemma {:induction false} CheckTypeSound(env: Env, e: Expr, boolOnStack: bool)
    requires Written(env, e) && CheckType(env, e, boolOnStack).Some?
    ensures SoundTyping(env, e, boolOnStack, CheckType(env, e, boolOnStack).value)
  {
    hide SoundTyping, Sem, SemArgs, Checked, CheckedArgs, Place, TypeOf;
    match e
    case Lit(t, _) => TypeOfLit(env, e); LeafSound(env, e, boolOnStack);
    case Ref(_, _, _, _) => LeafSound(env, e, boolOnStack);
    case Rel(test, l, r) =>
      CheckTypeSound(env, l, true);
      CheckTypeSound(env, r, true);
      RelSound(env, test, l, r, CheckType(env, l, true).value, CheckType(env, r, true).value, boolOnStack);
    case And(l, r) =>
      CheckTypeSound(env, l, false);
      CheckTypeSound(env, r, false);
      AndSound(env, l, r, CheckType(env, l, false).value, CheckType(env, r, false).value, boolOnStack);
    case Or(l, r) =>
      CheckTypeSound(env, l, false);
      CheckTypeSound(env, r, false);
      AndSound(env, l, r, CheckType(env, l, false).value, CheckType(env, r, false).value, boolOnStack);
    case TNot(x) =>
      CheckTypeSound(env, x, boolOnStack);
      TNotSound(env, x, CheckType(env, x, boolOnStack).value, boolOnStack);
    case Calc(op, l, r) =>
      CheckTypeSound(env, l, true);
      CheckTypeSound(env, r, true);
      CalcSound(env, op, l, r, CheckType(env, l, true).value, CheckType(env, r, true).value, boolOnStack);
    case Minus(x) =>
      CheckTypeSound(env, x, true);
      CalcSound(env, ADD, x, x, CheckType(env, x, true).value, CheckType(env, x, true).value, boolOnStack);
    case Call(name, args) =>
      CheckArgsSound(env, args, env.signature(name).params);
      CallSound(env, name, args, CheckArgs(env, args, env.signature(name).params).value, boolOnStack);
    case Cast(to, x) =>
      CheckTypeSound(env, x, true);
      CastSound(env, to, x, CheckType(env, x, true).value, boolOnStack);
    case _ =>
  }

  lemma TypeOfLit(env: Env, e: Expr)
    requires e.Lit?
    ensures TypeOf(env, e) == e.typ
  {}

  lemma {:induction false} CheckArgsSound(env: Env, args: Args, types: seq<Type>)
    requires WrittenArgs(env, args) && CheckArgs(env, args, types).Some?
    ensures CheckedArgs(env, CheckArgs(env, args, types).value)
    ensures SemArgs(env, CheckArgs(env, args, types).value) == SemArgs(env, args)
  {
    match args
    case NoArg =>
    case Arg(e, next) => CheckTypeSound(env, e, true); CheckArgsSound(env, next, if types == [] then [] else types[1..]);
  }
}
