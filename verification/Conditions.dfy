/** From a written condition to a verdict: check, push negations, fold, compile, load and run. */
module Conditions {
  import opened Wrappers
  import opened Expressions
  import opened TypeCheck
  import opened Negations
  import opened Machine
  import opened CodeGen
  import opened Loader
  import C = Compiler
  import opened Execution

  /** What the compiler makes of a condition before it generates code; nothing for a compilation error. */
  function Prepare(env: Env, e: Expr): Option<Expr> {
    var t := CheckType(env, e, false);
    if t.None? || t.value.typ != BOOL then None
    else
      var f := Fold(Optimize(t.value.e, false).0);
      if f.None? then None else Some(f.value.0)
  }

  /** No negation on the stack stands over a cast or oddly over a constant. */
  predicate Supported(env: Env, e: Expr) {
    var t := CheckType(env, e, false);
    t.Some? ==> Clean(t.value.e, false)
  }

  /** No negation that is decided by control stands below a cast. */
  predicate Plain(env: Env, e: Expr) {
    var t := CheckType(env, e, false);
    t.Some? ==> !Buried(t.value.e)
  }

  lemma PrepareSound(env: Env, e: Expr)
    requires Normal(env) && Written(env, e) && Supported(env, e) && Prepare(env, e).Some?
    ensures var f := Prepare(env, e).value;
      InControl(env, f) && Sem(env, f) == Whether(Sem(env, e)) && (HasTNot(f) <==> !Plain(env, e))
  {
    hide Sem, CheckType, Optimize, Fold, Checked, HasTNot, Typed, Normal, Clean, Buried;
    var t := CheckType(env, e, false).value;
    CheckTypeSound(env, e, false);
    OptimizeSound(env, t.e, false);
    OptimizeLeavesBuried(t.e, false);
    FoldSound(env, Optimize(t.e, false).0);
  }

  /** A condition compiles exactly if it is of type boolean and, rewritten, divides no constant by zero. */
  ghost predicate Compiles(env: Env, e: Expr) {
    var t := CheckType(env, e, false);
    IsOf(env, e, BOOL) && t.Some? && !DividesByZero(env, Optimize(t.value.e, false).0)
  }

  lemma PrepareDecides(env: Env, e: Expr)
    requires Normal(env) && Written(env, e) && Supported(env, e)
    ensures Prepare(env, e).Some? <==> Compiles(env, e)
  {
    hide Sem, CheckType, Optimize, Fold, Checked, HasTNot, Typed, Normal, Clean, Buried, IsOf, DividesByZero, SoundTyping;
    CheckTypeDecides(env, e, false, BOOL);
    var t := CheckType(env, e, false);
    if t.Some? && t.value.typ == BOOL {
      CheckTypeSound(env, e, false);
      SoundIs(env, e, t.value);
      OptimizeSound(env, t.value.e, false);
      FoldDecides(env, Optimize(t.value.e, false).0);
    }
  }

  lemma SoundIs(env: Env, e: Expr, t: Typing)
    requires SoundTyping(env, e, false, t)
    ensures Checked(env, t.e) && !(t.typ == BOOL && t.e.Cast?)
  {}

  /** A negation stands where a boolean is wanted on the stack, outside casts. */
  predicate StackNegation(e: Expr, onStack: bool)
    decreases e, 0
  {
    match e
    case TNot(x) => onStack || StackNegation(x, false)
    case Rel(_, l, r) => StackNegation(l, true) || StackNegation(r, true)
    case And(l, r) => StackNegation(l, false) || StackNegation(r, false)
    case Or(l, r) => StackNegation(l, false) || StackNegation(r, false)
    case Calc(_, l, r) => StackNegation(l, true) || StackNegation(r, true)
    case Minus(x) => StackNegation(x, true)
    case Call(_, args) => StackNegationArgs(args)
    case _ => false
  }

  predicate StackNegationArgs(args: Args)
    decreases args, 1
  {
    match args case NoArg => false case Arg(e, next) => StackNegation(e, true) || StackNegationArgs(next)
  }

  /** A condition whose negations are all decided by the flow of control is supported. */
  lemma {:induction false} NoStackNegation(env: Env, e: Expr, onStack: bool, compl: bool)
    requires !StackNegation(e, onStack) && (onStack ==> !compl)
    ensures CheckType(env, e, onStack).Some? ==> Clean(CheckType(env, e, onStack).value.e, compl)
    decreases e, 0
  {
    match e
    case Rel(_, l, r) => NoStackNegation(env, l, true, false); NoStackNegation(env, r, true, false);
    case And(l, r) => NoStackNegation(env, l, false, compl); NoStackNegation(env, r, false, compl);
    case Or(l, r) => NoStackNegation(env, l, false, compl); NoStackNegation(env, r, false, compl);
    case TNot(x) => NoStackNegation(env, x, false, !compl);
    case Calc(_, l, r) => NoStackNegation(env, l, true, false); NoStackNegation(env, r, true, false);
    case Minus(x) => NoStackNegation(env, x, true, false);
    case Call(name, args) => NoStackNegationArgs(env, args, env.signature(name).params);
    case _ =>
  }

  lemma {:induction false} NoStackNegationArgs(env: Env, args: Args, types: seq<Type>)
    requires !StackNegationArgs(args)
    ensures CheckArgs(env, args, types).Some? ==> CleanArgs(CheckArgs(env, args, types).value)
    decreases args, 1
  {
    match args
    case NoArg =>
    case Arg(e, next) => NoStackNegation(env, e, true, false); NoStackNegationArgs(env, next, if types == [] then [] else types[1..]);
  }

  /** What a condition of that value decides about an object: nothing if a division by zero is met. */
  function VerdictOf(v: Option<Value>): Option<bool> {
    if v.None? then None else Some(Holds(v.value))
  }

  function Verdict(env: Env, e: Expr): Option<bool> { VerdictOf(Sem(env, e)) }

  /** The machine is at a fault, has gone on to the end, or has stopped; the stack is as it was. */
  ghost predicate Decides(r: Out, verdict: Option<bool>, end: nat, st: seq<Value>) {
    if verdict.None? then r.Fault? else r.Out? && r.go == verdict.value && r.stack == st && (r.go ==> r.pc == end)
  }

  /** Wherever it is loaded and whatever is on the stack, the code of a supported condition goes on
      exactly if the condition holds, when the negations left in it are taken as true. */
  lemma CodeDecides(p: Program, e: Expr, at: nat, st: seq<Value>)
    requires Normal(p.env) && Written(p.env, e) && Supported(p.env, e) && Prepare(p.env, e).Some?
    requires Has(p.code, at, Code(p.env, Prepare(p.env, e).value, at, true))
    ensures at <= |p.code|
    ensures var f := Prepare(p.env, e).value;
      Decides(Run(p, at, st, at + Len(f)), VerdictOf(Does(p.env, f)), at + Len(f), st)
  {
    var f := Prepare(p.env, e).value;
    var end := at + Len(f);
    hide Sem, Does, Prepare, Supported, Plain, Code, Run, Written, HasTNot, Checked, Typed;
    PrepareSound(p.env, e);
    assert Typed(p.env);
    CodeMeets(p, f, at, st, end);
    RunDone(p, end, st);
  }

  /** The verdict is the right one exactly if that changes nothing about it; always, if no negation
      stands below a cast. */
  lemma ConditionDecides(p: Program, e: Expr, at: nat, st: seq<Value>)
    requires Normal(p.env) && Written(p.env, e) && Supported(p.env, e) && Prepare(p.env, e).Some?
    requires Has(p.code, at, Code(p.env, Prepare(p.env, e).value, at, true))
    ensures at <= |p.code|
    ensures var f := Prepare(p.env, e).value; var end := at + Len(f);
      Decides(Run(p, at, st, end), Verdict(p.env, e), end, st) <==> VerdictOf(Does(p.env, f)) == VerdictOf(Sem(p.env, f))
    ensures var f := Prepare(p.env, e).value; var end := at + Len(f);
      Plain(p.env, e) || AllFalse(p.env, f) ==> Decides(Run(p, at, st, end), Verdict(p.env, e), end, st)
  {
    var f := Prepare(p.env, e).value;
    hide Sem, Prepare, Supported, Plain, Code, Run, Written, HasTNot, Checked, Typed, Normal, AllFalse, Has, Coded;
    PrepareSound(p.env, e);
    CodeDecides(p, e, at, st);
    if !HasTNot(f) { CodedSame(f); }
    if AllFalse(p.env, f) { FalseNegations(p.env, f); }
  }

  /** Compiles a condition, puts its words behind others in a node, loads them and runs them. */
  method Test(env: Env, e: Expr, before: seq<Value>) returns (compiled: bool, verdict: Option<bool>)
    requires Normal(env) && Written(env, e) && Supported(env, e)
    ensures compiled == Prepare(env, e).Some? && (compiled <==> Compiles(env, e))
    ensures compiled ==> verdict == VerdictOf(Does(env, Prepare(env, e).value))
    ensures compiled && Plain(env, e) ==> verdict == Verdict(env, e)
  {
    hide *;
    PrepareDecides(env, e);
    var f := Prepare(env, e);
    if f.None? { return false, None; }
    var buffer := new C.Buffer();
    var _ := buffer.CompileExpression(env, f.value);
    var words, at := buffer.code, |before|;
    assert words == Code(env, f.value, 0, false);
    var code := new Value[at + |words|](i requires 0 <= i < at + |words| => (before + words)[i]);
    assert code[..] == before + words;
    assert code[at..code.Length] == words && code[code.Length..] == [];
    LoadCode(env, code, at, code.Length);
    Movable(env, f.value, 0, at);
    LoadAll(env, f.value, at);
    var p := Program(code[..], env);
    assert p.code[at..at + |words|] == code[at..code.Length];
    HasIs(p.code, at, Code(env, f.value, at, true));
    CodeDecides(p, e, at, []);
    ConditionDecides(p, e, at, []);
    var machine := new Interpreter(p);
    machine.pc := at;
    var ok, go := machine.Execute(code.Length);
    compiled, verdict := true, if ok then Some(go) else None;
    DecidesIs(Run(p, at, [], code.Length), VerdictOf(Does(env, f.value)), code.Length, []);
    DecidesIs(Run(p, at, [], code.Length), Verdict(env, e), code.Length, []);
    machine.DidIs(Run(p, at, [], code.Length), ok, go);
  }

  lemma HasIs(code: seq<Value>, at: nat, w: seq<Value>)
    ensures Has(code, at, w) <==> at + |w| <= |code| && code[at..at + |w|] == w
  {}

  lemma DecidesIs(r: Out, verdict: Option<bool>, end: nat, st: seq<Value>)
    ensures Decides(r, verdict, end, st) <==> if verdict.None? then r.Fault? else r.Out? && r.go == verdict.value && r.stack == st && (r.go ==> r.pc == end)
  {}

  /** No code is made for a negation below a cast, nor for what it negates. */
  lemma BuriedIsDropped(env: Env, l: Expr, r: Expr, at: nat, loaded: bool)
    ensures Code(env, And(l, TNot(r)), at, loaded) == Code(env, l, at, loaded)
    ensures Buried(Cast(NUM, Eval(And(l, TNot(r)))))
  {}

  /** Its value comes out right exactly if, where the negation is reached, what it negates is false. */
  lemma BuriedVerdict(env: Env, l: Expr, r: Expr)
    requires !HasTNot(l)
    ensures var c := Cast(NUM, Eval(And(l, TNot(r))));
      Does(env, c) == Sem(env, c) <==> (IsTrue(Sem(env, l)) ==> IsFalse(Sem(env, r)))
  {
    var c := And(l, TNot(r));
    NegationRight(env, l, r);
    PairDoes(env, l, TNot(r));
    CastDoes(env, c);
    hide Does, Sem;
  }

  lemma CastDoes(env: Env, c: Expr)
    ensures Does(env, Cast(NUM, Eval(c))) == Whether(Does(env, c)) && Sem(env, Cast(NUM, Eval(c))) == Whether(Sem(env, c))
  {
    assert Coded(Cast(NUM, Eval(c))) == Cast(NUM, Eval(Coded(c)));
    assert Sem(env, Eval(Coded(c))) == Whether(Sem(env, Coded(c))) && Sem(env, Eval(c)) == Whether(Sem(env, c));
  }

  // ---------- an example ----------

  /** Attribute 1 of an object is the string "ab", attribute 2 is true, every other one the number 7; function 1
      gives false, every other one 0. */
  function Sample(): Env {
    Env((_, _, a: int) => if a == 1 then Str(Some("ab")) else if a == 2 then Num(1) else Num(7),
      (_, _, a: int) => if a == 1 then STR else if a == 2 then BOOL else NUM,
      (_, _) => Num(1), (n: int) => n, (_, _) => Num(0), (n: int) => Signature([], false, if n == 1 then BOOL else NUM))
  }

  /** 5 - 3 > 0 */
  function Difference(): Expr { Rel(GT, Calc(SUB, Lit(NUM, Num(5)), Lit(NUM, Num(3))), Lit(NUM, Num(0))) }

  /** p.name < "b" & !(p.name = "a"), with 5 - 3 > 0 besides */
  function Names(): Expr {
    And(Difference(), And(Rel(LT, Ref(false, 0, 0, 1), Lit(STR, Str(Some("b")))), TNot(Rel(EQ, Ref(false, 0, 0, 1), Lit(STR, Str(Some("a")))))))
  }

  lemma SampleNormal()
    ensures Normal(Sample())
  {}

  lemma DifferenceChecked()
    ensures CheckType(Sample(), Difference(), false) == Some(Typing(Difference(), BOOL)) && IsOf(Sample(), Difference(), BOOL)
    ensures Written(Sample(), Difference()) && Optimize(Difference(), false).0 == Difference()
  {
    var e := Difference();
    assert CheckType(Sample(), e.l, true) == Some(Typing(e.l, NUM)) && CheckType(Sample(), e.r, true) == Some(Typing(e.r, NUM));
    CheckTypeDecides(Sample(), e, false, BOOL);
    hide IsOf;
    assert Optimize(e.l, false).0 == e.l;
  }

  lemma DifferenceSem()
    ensures Sem(Sample(), Difference()) == Some(Truth(true)) && !DividesByZero(Sample(), Difference())
  {
    assert Sem(Sample(), Difference().l) == Some(Num(2));
  }

  /** It compiles, and holds. */
  lemma DifferenceHolds()
    ensures Written(Sample(), Difference()) && Supported(Sample(), Difference()) && Plain(Sample(), Difference())
    ensures Compiles(Sample(), Difference()) && Verdict(Sample(), Difference()) == Some(true)
  {
    DifferenceChecked();
    DifferenceSem();
    hide CheckType, Optimize, Sem, Sample, DividesByZero, IsOf, Written;
  }

  lemma NameTest(t: Test, name: string)
    ensures var e := Rel(t, Ref(false, 0, 0, 1), Lit(STR, Str(Some(name))));
      && CheckType(Sample(), e, false) == Some(Typing(e, BOOL)) && Written(Sample(), e) && !Buried(e) && Clean(e, true) && Clean(e, false)
      && Optimize(e, false).0 == e && Optimize(e, true).0 == Rel(Complement(t), e.l, e.r)
      && Sem(Sample(), e) == Some(Truth(Passes(t, CompareStrings("ab", name))))
      && !DividesByZero(Sample(), Rel(Complement(t), e.l, e.r)) && !DividesByZero(Sample(), e)
  {
    var e := Rel(t, Ref(false, 0, 0, 1), Lit(STR, Str(Some(name))));
    assert CheckType(Sample(), e.l, true) == Some(Typing(e.l, STR)) && CheckType(Sample(), e.r, true) == Some(Typing(e.r, STR));
    hide Passes, CompareStrings;
  }

  /** The check changes nothing in e, and the rewriting can be trusted with it. */
  predicate Stays(env: Env, e: Expr) {
    CheckType(env, e, false) == Some(Typing(e, BOOL)) && Written(env, e) && !Buried(e) && Clean(e, false)
  }

  lemma AndStays(env: Env, l: Expr, r: Expr)
    requires Stays(env, l) && Stays(env, r)
    ensures Stays(env, And(l, r)) && Optimize(And(l, r), false).0 == And(Optimize(l, false).0, Optimize(r, false).0)
  {}

  lemma TNotStays(env: Env, x: Expr)
    requires Stays(env, x) && Clean(x, true)
    ensures Stays(env, TNot(x)) && Optimize(TNot(x), false).0 == Optimize(x, true).0
  {}

  lemma StaysIs(env: Env, e: Expr)
    ensures Stays(env, e) <==> CheckType(env, e, false) == Some(Typing(e, BOOL)) && Written(env, e) && !Buried(e) && Clean(e, false)
    ensures Stays(env, e) ==> Supported(env, e) && Plain(env, e)
  {}

  lemma DivideAnd(env: Env, l: Expr, r: Expr)
    ensures DividesByZero(env, And(l, r)) <==> DividesByZero(env, l) || DividesByZero(env, r)
  {}

  lemma NamesChecked()
    ensures CheckType(Sample(), Names(), false) == Some(Typing(Names(), BOOL)) && Written(Sample(), Names())
    ensures Supported(Sample(), Names()) && Plain(Sample(), Names())
    ensures !DividesByZero(Sample(), Optimize(Names(), false).0)
  {
    var e, env := Names(), Sample();
    hide Sample, Difference, Sem, Passes, CompareStrings, CheckType, Optimize, DividesByZero, Written, Supported, Plain, Clean, Buried, Stays;
    DifferenceChecked();
    DifferenceHolds();
    DifferenceSem();
    DifferenceStays();
    NameTest(LT, "b");
    NameTest(EQ, "a");
    StaysIs(env, e.r.l);
    StaysIs(env, e.r.r.e);
    TNotStays(env, e.r.r.e);
    AndStays(env, e.r.l, e.r.r);
    AndStays(env, e.l, e.r);
    StaysIs(env, e);
    DivideAnd(env, Optimize(e.r.l, false).0, Optimize(e.r.r, false).0);
    DivideAnd(env, Optimize(e.l, false).0, Optimize(e.r, false).0);
  }

  lemma DifferenceStays()
    ensures Stays(Sample(), Difference())
  {
    DifferenceChecked();
    hide CheckType;
  }

  lemma AndSem(env: Env, l: Expr, r: Expr)
    requires Sem(env, l) == Some(Truth(true)) && Sem(env, r) == Some(Truth(true))
    ensures Sem(env, And(l, r)) == Some(Truth(true))
  {}

  lemma NotSem(env: Env, x: Expr)
    requires Sem(env, x) == Some(Truth(false))
    ensures Sem(env, TNot(x)) == Some(Truth(true))
  {}

  lemma NamesSem()
    ensures Sem(Sample(), Names()) == Some(Truth(true))
  {
    var e := Names();
    DifferenceSem();
    NameTest(LT, "b");
    NameTest(EQ, "a");
    assert CompareStrings("ab", "b") == -1 && CompareStrings("ab", "a") == 1;
    hide Sample, Difference, CheckType, Optimize, DividesByZero, Written, Sem, CompareStrings;
    NotSem(Sample(), e.r.r.e);
    AndSem(Sample(), e.r.l, e.r.r);
    AndSem(Sample(), e.l, e.r);
  }

  /** So does a condition on strings with a negation. */
  lemma NamesHold()
    ensures Written(Sample(), Names()) && Supported(Sample(), Names()) && Plain(Sample(), Names())
    ensures Compiles(Sample(), Names()) && Verdict(Sample(), Names()) == Some(true)
  {
    hide CheckType, Optimize, DividesByZero, IsOf, Written, Supported, Plain, Sem, Names, Sample;
    NamesChecked();
    NamesSem();
    CheckTypeDecides(Sample(), Names(), false, BOOL);
  }
}
