/** Code generation, and the proof that the machine runs the code of an expression as it means. */
module CodeGen {
  import opened Wrappers
  import opened Expressions
  import opened Negations
  import opened Machine

  // ---------- the code of an expression ----------

  /** How many words. */
  function Len(e: Expr): nat
    decreases e, 1
  {
    match e
    case Lit(_, _) => 2
    case Ref(_, _, _, _) => 2
    case Rel(_, l, r) => Len(l) + Len(r) + 1
    case And(l, r) => Len(l) + Len(r)
    case Or(_, _) => 2 + Count(e) + BodyLen(e)
    case TNot(_) => 0
    case Not(x) => Len(x) + 1
    case TTrue(x) => Len(x) + 1
    case TFalse(x) => Len(x) + 1
    case Eval(x) => 2 + Len(x)
    case Calc(_, l, r) => Len(l) + Len(r) + 1
    case Minus(x) => Len(x) + 1
    case Call(_, args) => LenArgs(args) + 4
    case Cast(_, x) => Len(x)
  }

  function LenArgs(args: Args): nat
    decreases args, 0
  {
    match args case NoArg => 0 case Arg(e, next) => Len(e) + LenArgs(next)
  }

  /** The alternatives of a chain of disjunctions nested to the right. */
  function Count(e: Expr): nat { if e.Or? then 1 + Count(e.r) else 1 }

  /** The words of the alternatives of e. */
  function BodyLen(e: Expr): nat
    requires e.Or?
    decreases e, 0
  {
    Len(e.l) + if e.r.Or? then BodyLen(e.r) else Len(e.r)
  }

  function Rest(e: Expr): nat { if e.Or? then BodyLen(e) else Len(e) }

  /** Where the alternatives of e end, when the first one begins at from. */
  function Ends(e: Expr, from: int): seq<Value> {
    if e.Or? then [Num(from + Len(e.l))] + Ends(e.r, from + Len(e.l)) else [Num(from + Len(e))]
  }

  /** The code of e at position at. The compiler counts jumps from behind their table and leaves room for
      function pointers; the loader turns the jumps into positions and puts the pointers in. */
  function Code(env: Env, e: Expr, at: nat, loaded: bool): (c: seq<Value>)
    ensures |c| == Len(e)
    decreases e, 1
  {
    match e
    case Lit(t, v) => [Num(PUSH + Letter(t)), v]
    case Ref(whole, mem, pos, attr) => [Num(if whole then PUSHO else PUSHS + Letter(TypeOf(env, e))), Num(Pack(mem, pos, attr))]
    case Rel(t, l, r) => Code(env, l, at, loaded) + Code(env, r, at + Len(l), loaded) + [Num(TEQ + TestCode(t) + Letter(TypeOf(env, l)))]
    case And(l, r) => Code(env, l, at, loaded) + Code(env, r, at + Len(l), loaded)
    case Or(_, _) =>
      EndsLength(e, if loaded then at + 2 + Count(e) else 0);
      [Num(TOR), Num(Count(e))] + Ends(e, if loaded then at + 2 + Count(e) else 0) + Body(env, e, at + 2 + Count(e), loaded)
    case TNot(_) => []
    case Not(x) => Code(env, x, at, loaded) + [Num(NOT)]
    case TTrue(x) => Code(env, x, at, loaded) + [Num(TTRUE)]
    case TFalse(x) => Code(env, x, at, loaded) + [Num(TFALSE)]
    case Eval(x) => [Num(EVAL), Num(Len(x))] + Code(env, x, at + 2, loaded)
    case Calc(op, l, r) =>
      Code(env, l, at, loaded) + Code(env, r, at + Len(l), loaded) + [Num(ADD_OP + ArithCode(op) + Letter(TypeOf(env, l)))]
    case Minus(x) => Code(env, x, at, loaded) + [Num(MINUS_OP + Letter(TypeOf(env, x)))]
    case Call(name, args) =>
      CodeArgs(env, args, at, loaded) + [Num(FCALL), Num(if loaded then env.bind(name) else 0), Num(name), Num(CountArgs(args))]
    case Cast(_, x) => Code(env, x, at, loaded)
  }

  function CodeArgs(env: Env, args: Args, at: nat, loaded: bool): (c: seq<Value>)
    ensures |c| == LenArgs(args)
    decreases args, 0
  {
    match args
    case NoArg => []
    case Arg(e, next) => Code(env, e, at, loaded) + CodeArgs(env, next, at + Len(e), loaded)
  }

  /** The alternatives of e, one after the other. */
  function Body(env: Env, e: Expr, at: nat, loaded: bool): (c: seq<Value>)
    requires e.Or?
    ensures |c| == BodyLen(e)
    decreases e, 0
  {
    Code(env, e.l, at, loaded) + if e.r.Or? then Body(env, e.r, at + Len(e.l), loaded) else Code(env, e.r, at + Len(e.l), loaded)
  }

  lemma EndsLength(e: Expr, from: int)
    ensures |Ends(e, from)| == Count(e)
  {}

  // ---------- what the code does ----------

  /** There is no code for a written negation, nor for what it negates: it counts as true. */
  function Coded(e: Expr): Expr
    decreases e, 0
  {
    match e
    case TNot(_) => TTrue(Lit(BOOL, Truth(true)))
    case Lit(_, _) => e
    case Ref(_, _, _, _) => e
    case Rel(t, l, r) => Rel(t, Coded(l), Coded(r))
    case And(l, r) => And(Coded(l), Coded(r))
    case Or(l, r) => Or(Coded(l), Coded(r))
    case Not(x) => Not(Coded(x))
    case TTrue(x) => TTrue(Coded(x))
    case TFalse(x) => TFalse(Coded(x))
    case Eval(x) => Eval(Coded(x))
    case Calc(op, l, r) => Calc(op, Coded(l), Coded(r))
    case Minus(x) => Minus(Coded(x))
    case Call(name, args) => Call(name, CodedArgs(args))
    case Cast(to, x) => Cast(to, Coded(x))
  }

  function CodedArgs(args: Args): Args
    decreases args, 1
  {
    match args case NoArg => NoArg case Arg(e, next) => Arg(Coded(e), CodedArgs(next))
  }

  /** The code stands for the very expression exactly if no written negation is left in it. */
  lemma {:induction false} CodedSame(e: Expr)
    ensures Coded(e) == e <==> !HasTNot(e)
    decreases e, 0
  {
    match e
    case Rel(_, l, r) => CodedSame(l); CodedSame(r);
    case And(l, r) => CodedSame(l); CodedSame(r);
    case Or(l, r) => CodedSame(l); CodedSame(r);
    case Calc(_, l, r) => CodedSame(l); CodedSame(r);
    case Call(_, args) => CodedArgsSame(args);
    case Not(x) => CodedSame(x);
    case TTrue(x) => CodedSame(x);
    case TFalse(x) => CodedSame(x);
    case Eval(x) => CodedSame(x);
    case Minus(x) => CodedSame(x);
    case Cast(_, x) => CodedSame(x);
    case _ =>
  }

  lemma {:induction false} CodedArgsSame(args: Args)
    ensures CodedArgs(args) == args <==> !HasTNotArgs(args)
    decreases args, 1
  {
    match args case NoArg => case Arg(e, next) => CodedSame(e); CodedArgsSame(next);
  }

  lemma {:induction false} CodedChecked(env: Env, e: Expr)
    requires Checked(env, e)
    ensures Checked(env, Coded(e)) && TypeOf(env, Coded(e)) == TypeOf(env, e) && Control(Coded(e)) == Control(e)
    decreases e, 0
  {
    hide Checked, CheckedArgs;
    Parts(env, e);
    match e
    case Rel(_, l, r) => CodedChecked(env, l); CodedChecked(env, r); CodedPair(env, e);
    case And(l, r) => CodedChecked(env, l); CodedChecked(env, r); CodedPair(env, e);
    case Or(l, r) => CodedChecked(env, l); CodedChecked(env, r); CodedPair(env, e);
    case Calc(_, l, r) => CodedChecked(env, l); CodedChecked(env, r); CodedPair(env, e);
    case Call(_, args) => CodedArgsChecked(env, args); CodedCall(env, e);
    case TNot(x) => CodedLeaf(env, e);
    case Lit(_, _) => CodedLeaf(env, e);
    case Ref(_, _, _, _) => CodedLeaf(env, e);
    case _ => CodedChecked(env, e.e); CodedOne(env, e);
  }

  lemma {:induction false} CodedArgsChecked(env: Env, args: Args)
    requires CheckedArgs(env, args)
    ensures CheckedArgs(env, CodedArgs(args))
    decreases args, 1
  {
    match args case NoArg => case Arg(e, next) => CodedChecked(env, e); CodedArgsChecked(env, next);
  }

  lemma CodedLeaf(env: Env, e: Expr)
    requires Checked(env, e) && (e.TNot? || e.Lit? || e.Ref?)
    ensures Checked(env, Coded(e)) && TypeOf(env, Coded(e)) == TypeOf(env, e) && Control(Coded(e)) == Control(e)
  {}

  lemma CodedPair(env: Env, e: Expr)
    requires Checked(env, e) && (e.Rel? || e.And? || e.Or? || e.Calc?)
    requires Checked(env, Coded(e.l)) && TypeOf(env, Coded(e.l)) == TypeOf(env, e.l) && Control(Coded(e.l)) == Control(e.l)
    requires Checked(env, Coded(e.r)) && TypeOf(env, Coded(e.r)) == TypeOf(env, e.r) && Control(Coded(e.r)) == Control(e.r)
    ensures Checked(env, Coded(e)) && TypeOf(env, Coded(e)) == TypeOf(env, e) && Control(Coded(e)) == Control(e)
  {}

  lemma CodedOne(env: Env, e: Expr)
    requires Checked(env, e) && (e.Not? || e.TTrue? || e.TFalse? || e.Eval? || e.Minus? || e.Cast?)
    requires Checked(env, Coded(e.e)) && TypeOf(env, Coded(e.e)) == TypeOf(env, e.e) && Control(Coded(e.e)) == Control(e.e)
    ensures Checked(env, Coded(e)) && TypeOf(env, Coded(e)) == TypeOf(env, e) && Control(Coded(e)) == Control(e)
  {}

  lemma CodedCall(env: Env, e: Expr)
    requires e.Call? && CheckedArgs(env, CodedArgs(e.args))
    ensures Checked(env, Coded(e)) && TypeOf(env, Coded(e)) == TypeOf(env, e) && Control(Coded(e)) == Control(e)
  {}

  /** What running the code of e comes to. */
  function Does(env: Env, e: Expr): Option<Value> { Sem(env, Coded(e)) }
  function DoesArgs(env: Env, args: Args): Option<seq<Value>> { SemArgs(env, CodedArgs(args)) }

  // ---------- running it ----------

  /** The words w stand at position at. */
  ghost predicate Has(code: seq<Value>, at: nat, w: seq<Value>) {
    at + |w| <= |code| && code[at..at + |w|] == w
  }

  lemma HasSplit(code: seq<Value>, at: nat, a: seq<Value>, b: seq<Value>)
    ensures Has(code, at, a + b) <==> Has(code, at, a) && Has(code, at + |a|, b)
  {
    if at + |a| + |b| <= |code| {
      var c := code[at..at + |a + b|];
      assert c[..|a|] == code[at..at + |a|] && c[|a|..] == code[at + |a|..at + |a| + |b|];
      assert (a + b)[..|a|] == a && (a + b)[|a|..] == b;
      assert c == c[..|a|] + c[|a|..];
    }
  }

  lemma HasWord(code: seq<Value>, at: nat, n: int)
    requires Has(code, at, [Num(n)])
    ensures Word(code, at) == Some(n)
  {
    assert code[at] == code[at..at + 1][0];
  }

  /** Run on the code of e at position at, the machine does what e means: a condition goes on to its
      end or stops, a value is added to the stack, and a division by zero is a fault. */
  ghost predicate Meets(p: Program, e: Expr, at: nat, st: seq<Value>, end: nat)
    requires at + Len(e) <= |p.code|
  {
    var v, r := Does(p.env, e), Run(p, at, st, end);
    if v.None? then r.Fault?
    else if !Control(e) then r == Run(p, at + Len(e), st + [v.value], end)
    else if Holds(v.value) then r == Run(p, at + Len(e), st, end)
    else r.Out? && !r.go && r.stack == st
  }

  ghost predicate MeetsArgs(p: Program, args: Args, at: nat, st: seq<Value>, end: nat)
    requires at + LenArgs(args) <= |p.code|
  {
    var vs, r := DoesArgs(p.env, args), Run(p, at, st, end);
    if vs.None? then r.Fault? else r == Run(p, at + LenArgs(args), st + vs.value, end)
  }

  /** The first operation of a run. */
  lemma RunStep(p: Program, pc: nat, st: seq<Value>, end: nat, o: Out)
    requires pc < end && pc < |p.code| && Step(p, pc, st) == o
    ensures Run(p, pc, st, end) == if o.Fault? || !o.go then o else Run(p, o.pc, o.stack, end)
  {}

  lemma StepStack(p: Program, pc: nat, st: seq<Value>, op: int)
    requires Word(p.code, pc) == Some(op) && pc < |p.code| && op != EVAL && op != TOR && op < FCALL
    ensures Step(p, pc, st) == RunStack(p, pc, st, op)
  {}

  lemma LeafMeets(p: Program, e: Expr, at: nat, st: seq<Value>, end: nat)
    requires (e.Lit? || e.Ref?) && Checked(p.env, e) && Has(p.code, at, Code(p.env, e, at, true)) && at + 2 <= end
    ensures Meets(p, e, at, st, end)
  {
    var c := Code(p.env, e, at, true);
    assert p.code[at] == p.code[at..at + 2][0] == c[0] && p.code[at + 1] == p.code[at..at + 2][1] == c[1];
    if e.Ref? { Unpack(e.mem, e.pos, e.attr); }
    RunStep(p, at, st, end, Step(p, at, st));
  }

  lemma TestCodes(t: Test, typ: Type)
    ensures var op := TEQ + TestCode(t) + Letter(typ); TestOf(op - TEQ) == t && op % 4 == Letter(typ) && TEQ <= op < TEQ + 24
  {}

  lemma ArithCodes(op: Arith, typ: Type)
    ensures var w := ADD_OP + ArithCode(op) + Letter(typ); ArithOf(w - ADD_OP) == op && w % 4 == Letter(typ) && ADD_OP <= w < MINUS_OP
  {}

  /** The stack under two values. */
  lemma TwoOnTop(st: seq<Value>, a: Value, b: Value)
    ensures var s := st + [a] + [b]; |s| == |st| + 2 && s[|s| - 2] == a && s[|s| - 1] == b && Drop(s, 2) == st
  {}

  lemma OneOnTop(st: seq<Value>, a: Value)
    ensures var s := st + [a]; |s| == |st| + 1 && Top(s) == a && Drop(s, 1) == st
  {}

  lemma RelMeets(p: Program, e: Expr, at: nat, st: seq<Value>, end: nat)
    requires e.Rel? && Checked(p.env, e) && at + Len(e) <= end && at + Len(e) <= |p.code|
    requires Word(p.code, at + Len(e.l) + Len(e.r)) == Some(TEQ + TestCode(e.test) + Letter(TypeOf(p.env, e.l)))
    requires Does(p.env, e.l).Some? ==> HasType(Does(p.env, e.l).value, TypeOf(p.env, e.l))
    requires Does(p.env, e.r).Some? ==> HasType(Does(p.env, e.r).value, TypeOf(p.env, e.r))
    requires Meets(p, e.l, at, st, end)
    requires Does(p.env, e.l).Some? ==> Meets(p, e.r, at + Len(e.l), st + [Does(p.env, e.l).value], end)
    ensures Meets(p, e, at, st, end)
  {
    var a, b, typ, pc := Does(p.env, e.l), Does(p.env, e.r), TypeOf(p.env, e.l), at + Len(e.l) + Len(e.r);
    hide Run, Step, RunTest, Compare, TestOf, TestCode, Letter, Passes;
    if a.Some? && b.Some? {
      TestCodes(e.test, typ);
      TwoOnTop(st, a.value, b.value);
      RunTestIs(e.test, a.value, b.value, typ);
      var s, op := st + [a.value] + [b.value], TEQ + TestCode(e.test) + Letter(typ);
      StepStack(p, pc, s, op);
      RunStep(p, pc, s, end, Step(p, pc, s));
    }
  }

  lemma AndMeets(p: Program, e: Expr, at: nat, st: seq<Value>, end: nat)
    requires e.And? && Checked(p.env, e) && at + Len(e) <= |p.code|
    requires Meets(p, e.l, at, st, end) && Meets(p, e.r, at + Len(e.l), st, end)
    ensures Meets(p, e, at, st, end)
  {
    hide Run, Step;
  }

  lemma CalcMeets(p: Program, e: Expr, at: nat, st: seq<Value>, end: nat)
    requires e.Calc? && Checked(p.env, e) && at + Len(e) <= end && at + Len(e) <= |p.code|
    requires Word(p.code, at + Len(e.l) + Len(e.r)) == Some(ADD_OP + ArithCode(e.op) + Letter(TypeOf(p.env, e.l)))
    requires Does(p.env, e.l).Some? ==> HasType(Does(p.env, e.l).value, TypeOf(p.env, e.l))
    requires Does(p.env, e.r).Some? ==> HasType(Does(p.env, e.r).value, TypeOf(p.env, e.r))
    requires Meets(p, e.l, at, st, end)
    requires Does(p.env, e.l).Some? ==> Meets(p, e.r, at + Len(e.l), st + [Does(p.env, e.l).value], end)
    ensures Meets(p, e, at, st, end)
  {
    var a, b, typ, pc := Does(p.env, e.l), Does(p.env, e.r), TypeOf(p.env, e.l), at + Len(e.l) + Len(e.r);
    hide Run, Step, RunArith, Calculate, ArithOf, ArithCode, Letter;
    if a.Some? && b.Some? {
      ArithCodes(e.op, typ);
      TwoOnTop(st, a.value, b.value);
      RunArithIs(e.op, a.value, b.value, typ);
      var s, op := st + [a.value] + [b.value], ADD_OP + ArithCode(e.op) + Letter(typ);
      StepStack(p, pc, s, op);
      RunStep(p, pc, s, end, Step(p, pc, s));
    }
  }

  /** An arithmetic opcode takes two values off the stack and leaves their sum, difference, product or
      quotient; only a division by zero is a fault. */
  lemma ArithOpcode(p: Program, pc: nat, st: seq<Value>, op: Arith, a: Value, b: Value)
    requires pc < |p.code| && ((a.Num? && b.Num?) || (a.Flo? && b.Flo?))
    requires Word(p.code, pc) == Some(ADD_OP + ArithCode(op) + if a.Num? then N else F)
    ensures var r := Step(p, pc, st + [a] + [b]);
      && (r.Fault? <==> op == DIV && IsZero(b))
      && (r.Out? ==> r.go && r.pc == pc + 1 && |r.stack| == |st| + 1 && r.stack[..|st|] == st && Results(op, a, b, r.stack[|st|]))
  {
    var typ := if a.Num? then NUM else FLO;
    ArithCodes(op, typ);
    TwoOnTop(st, a, b);
    RunArithIs(op, a, b, typ);
    CalculateMeans(op, a, b);
    hide RunArith, Calculate, ArithOf, ArithCode, Results, IsZero;
    StepStack(p, pc, st + [a] + [b], ADD_OP + ArithCode(op) + Letter(typ));
  }

  /** The change of sign leaves what sums to zero with the value. */
  lemma MinusOpcode(p: Program, pc: nat, st: seq<Value>, a: Value)
    requires pc < |p.code| && (a.Num? || a.Flo?) && Word(p.code, pc) == Some(MINUS_OP + if a.Num? then N else F)
    ensures var r := Step(p, pc, st + [a]);
      r.Out? && r.go && r.pc == pc + 1 && |r.stack| == |st| + 1 && r.stack[..|st|] == st && IsZeroSum(a, r.stack[|st|])
  {
    OneOnTop(st, a);
    StepStack(p, pc, st + [a], MINUS_OP + if a.Num? then N else F);
  }

  predicate IsZeroSum(a: Value, b: Value) {
    (a.Num? && b.Num? && a.num + b.num == 0) || (a.Flo? && b.Flo? && a.flo + b.flo == 0.0)
  }

  /** What EVAL and NOT leave is the number 1 or the number 0. */
  lemma TruthOpcodes(p: Program, pc: nat, st: seq<Value>, len: nat, n: int)
    requires pc + 2 + len <= |p.code|
    ensures Word(p.code, pc) == Some(EVAL) && Word(p.code, pc + 1) == Some(len) ==>
      var r, inner := Step(p, pc, st), Run(p, pc + 2, st, pc + 2 + len);
      if inner.Fault? then r.Fault? else r == Out(true, pc + 2 + len, inner.stack + [Num(if inner.go then 1 else 0)])
    ensures Word(p.code, pc) == Some(NOT) ==> Step(p, pc, st + [Num(n)]) == Out(true, pc + 1, st + [Num(if n == 0 then 1 else 0)])
  {
    OneOnTop(st, Num(n));
    hide Run;
  }

  /** The word behind the code of the operand. */
  function OpWord(env: Env, e: Expr): int
    requires e.Not? || e.TTrue? || e.TFalse? || e.Minus?
  {
    match e case Not(_) => NOT case TTrue(_) => TTRUE case TFalse(_) => TFALSE case _ => MINUS_OP + Letter(TypeOf(env, e.e))
  }

  /** The operations with one operand on the stack: its type decides that they do not fault. */
  lemma OneMeets(p: Program, e: Expr, at: nat, st: seq<Value>, end: nat, op: int)
    requires e.Not? || e.TTrue? || e.TFalse? || e.Minus?
    requires Checked(p.env, e) && at + Len(e) <= end && at + Len(e) <= |p.code|
    requires op == OpWord(p.env, e) && Word(p.code, at + Len(e.e)) == Some(op)
    requires Does(p.env, e.e).Some? ==> HasType(Does(p.env, e.e).value, TypeOf(p.env, e.e))
    requires Meets(p, e.e, at, st, end)
    ensures Meets(p, e, at, st, end)
  {
    var a, pc := Does(p.env, e.e), at + Len(e.e);
    hide Run, Step;
    if a.Some? {
      var s := st + [a.value];
      OneOnTop(st, a.value);
      StepStack(p, pc, s, op);
      RunStep(p, pc, s, end, Step(p, pc, s));
    }
  }

  lemma EvalMeets(p: Program, e: Expr, at: nat, st: seq<Value>, end: nat)
    requires e.Eval? && Checked(p.env, e) && at + Len(e) <= end && at + Len(e) <= |p.code|
    requires Word(p.code, at) == Some(EVAL) && Word(p.code, at + 1) == Some(Len(e.e))
    requires Meets(p, e.e, at + 2, st, at + 2 + Len(e.e))
    ensures Meets(p, e, at, st, end)
  {
    var done := at + 2 + Len(e.e);
    assert Run(p, done, st, done) == Out(true, done, st);
    RunStep(p, at, st, end, Step(p, at, st));
  }

  lemma CallMeets(p: Program, e: Expr, at: nat, st: seq<Value>, end: nat)
    requires e.Call? && Checked(p.env, e) && at + Len(e) <= end && at + Len(e) <= |p.code|
    requires Word(p.code, at + LenArgs(e.args)) == Some(FCALL) && Word(p.code, at + LenArgs(e.args) + 1) == Some(p.env.bind(e.name))
    requires Word(p.code, at + LenArgs(e.args) + 3) == Some(CountArgs(e.args))
    requires MeetsArgs(p, e.args, at, st, end)
    ensures Meets(p, e, at, st, end)
  {
    var vs, pc := DoesArgs(p.env, e.args), at + LenArgs(e.args);
    if vs.Some? {
      ArgsCount(p.env, e.args);
      var s := st + vs.value;
      assert s[|s| - |vs.value|..] == vs.value && Drop(s, |vs.value|) == st;
      RunStep(p, pc, s, end, Step(p, pc, s));
    }
  }

  lemma {:induction false} ArgsCount(env: Env, args: Args)
    requires DoesArgs(env, args).Some?
    ensures |DoesArgs(env, args).value| == CountArgs(args)
  {
    match args case NoArg => case Arg(_, next) => ArgsCount(env, next);
  }

  lemma ArgMeets(p: Program, args: Args, at: nat, st: seq<Value>, end: nat)
    requires args.Arg? && OnStack(p.env, args.e) && at + LenArgs(args) <= |p.code|
    requires Meets(p, args.e, at, st, end)
    requires Does(p.env, args.e).Some? ==> MeetsArgs(p, args.next, at + Len(args.e), st + [Does(p.env, args.e).value], end)
    ensures MeetsArgs(p, args, at, st, end)
  {
    hide Run, Step;
    var v, vs := Does(p.env, args.e), DoesArgs(p.env, args.next);
    if v.Some? && vs.Some? { assert st + [v.value] + vs.value == st + ([v.value] + vs.value); }
  }

  // ---------- alternatives ----------

  function RestCode(env: Env, e: Expr, at: nat): seq<Value> {
    if e.Or? then Body(env, e, at, true) else Code(env, e, at, true)
  }

  /** The alternatives of e are the last ones, from number k on, of the operation at tor, and begin at pc. */
  ghost predicate Laid(p: Program, e: Expr, tor: nat, n: nat, k: nat, pc: nat) {
    && tor < pc && k + Count(e) == n && pc + Rest(e) <= |p.code|
    && Has(p.code, tor + 2 + k, Ends(e, pc)) && Has(p.code, pc, RestCode(p.env, e, pc))
    && Word(p.code, tor + 1 + n) == Some(pc + Rest(e))
  }

  lemma LaidFirst(p: Program, e: Expr, tor: nat, n: nat, k: nat, pc: nat)
    requires Laid(p, e, tor, n, k, pc) && e.Or?
    ensures Laid(p, e.r, tor, n, k + 1, pc + Len(e.l))
    ensures Has(p.code, pc, Code(p.env, e.l, pc, true)) && Word(p.code, tor + 2 + k) == Some(pc + Len(e.l))
  {
    hide Has, Word, Code, Len;
    HasSplit(p.code, tor + 2 + k, [Num(pc + Len(e.l))], Ends(e.r, pc + Len(e.l)));
    HasWord(p.code, tor + 2 + k, pc + Len(e.l));
    HasSplit(p.code, pc, Code(p.env, e.l, pc, true), RestCode(p.env, e.r, pc + Len(e.l)));
  }

  lemma LaidLast(p: Program, e: Expr, tor: nat, n: nat, k: nat, pc: nat)
    requires Laid(p, e, tor, n, k, pc) && !e.Or?
    ensures k + 1 == n && Has(p.code, pc, Code(p.env, e, pc, true)) && Word(p.code, tor + 2 + k) == Some(pc + Len(e))
  {}

  /** Tried from number k on, the alternatives do what the disjunction of them means. */
  ghost predicate MeetsOr(p: Program, e: Expr, tor: nat, n: nat, k: nat, pc: nat, st: seq<Value>)
    requires tor < pc <= |p.code| && k < n
  {
    var v, r := Does(p.env, e), Alternatives(p, tor, n, k, pc, st);
    if v.None? then r.Fault? else r.Out? && r.stack == st && r.go == Holds(v.value) && (r.go ==> r.pc == pc + Rest(e))
  }

  /** One alternative is tried: it goes on to its end and the last word says where, or the next is tried. */
  lemma TryOne(p: Program, tor: nat, n: nat, k: nat, pc: nat, st: seq<Value>, end: nat, last: nat)
    requires tor < pc <= end <= |p.code| && k < n && tor < last <= |p.code|
    requires Word(p.code, tor + 2 + k) == Some(end) && Word(p.code, tor + 1 + n) == Some(last)
    ensures var r := Run(p, pc, st, end);
      Alternatives(p, tor, n, k, pc, st) ==
        if r.Fault? then Fault
        else if r.go then Out(true, last, r.stack)
        else if k + 1 < n then Alternatives(p, tor, n, k + 1, end, r.stack)
        else Out(false, end, r.stack)
  {
    hide Step, Word;
  }

  lemma RunDone(p: Program, pc: nat, st: seq<Value>)
    requires pc <= |p.code|
    ensures Run(p, pc, st, pc) == Out(true, pc, st)
  {}

  lemma FirstMeets(p: Program, e: Expr, tor: nat, n: nat, k: nat, pc: nat, st: seq<Value>)
    requires Laid(p, e, tor, n, k, pc) && e.Or? && k + 1 < n && Checked(p.env, e)
    requires Laid(p, e.r, tor, n, k + 1, pc + Len(e.l)) && Word(p.code, tor + 2 + k) == Some(pc + Len(e.l))
    requires Meets(p, e.l, pc, st, pc + Len(e.l)) && MeetsOr(p, e.r, tor, n, k + 1, pc + Len(e.l), st)
    ensures MeetsOr(p, e, tor, n, k, pc, st)
  {
    hide Step, Has, Run, Alternatives, Word, Code, Body;
    RunDone(p, pc + Len(e.l), st);
    TryOne(p, tor, n, k, pc, st, pc + Len(e.l), pc + Rest(e));
  }

  lemma LastMeets(p: Program, e: Expr, tor: nat, n: nat, k: nat, pc: nat, st: seq<Value>)
    requires Laid(p, e, tor, n, k, pc) && !e.Or? && InControl(p.env, e) && k + 1 == n && Word(p.code, tor + 2 + k) == Some(pc + Len(e))
    requires Meets(p, e, pc, st, pc + Len(e))
    ensures MeetsOr(p, e, tor, n, k, pc, st)
  {
    hide Step, Has, Run, Alternatives, Word, Code, Body, Does, Checked;
    RunDone(p, pc + Len(e), st);
    TryOne(p, tor, n, k, pc, st, pc + Len(e), pc + Rest(e));
  }

  lemma OrMeets(p: Program, e: Expr, at: nat, st: seq<Value>, end: nat)
    requires e.Or? && at + Len(e) <= end && at + Len(e) <= |p.code|
    requires Word(p.code, at) == Some(TOR) && Word(p.code, at + 1) == Some(Count(e))
    requires MeetsOr(p, e, at, Count(e), 0, at + 2 + Count(e), st)
    ensures Meets(p, e, at, st, end)
  {
    hide Run, Alternatives, Does;
    RunStep(p, at, st, end, Step(p, at, st));
  }

  /** The parts of the code of a disjunction: its operation, the table, and the alternatives. */
  lemma OrLaid(p: Program, e: Expr, at: nat)
    requires e.Or? && Has(p.code, at, Code(p.env, e, at, true)) && at + Len(e) <= |p.code|
    ensures Word(p.code, at) == Some(TOR) && Word(p.code, at + 1) == Some(Count(e))
    ensures Laid(p, e, at, Count(e), 0, at + 2 + Count(e))
  {
    hide *;
    var n, pc := Count(e), at + 2 + Count(e);
    var ends, body := Ends(e, pc), Body(p.env, e, pc, true);
    OrCode(p.env, e, at);
    EndsLength(e, pc);
    EndsLast(e, pc);
    HasSplit(p.code, at, [Num(TOR), Num(n)] + ends, body);
    HasSplit(p.code, at, [Num(TOR), Num(n)], ends);
    HasSplit(p.code, at, [Num(TOR)], [Num(n)]);
    assert [Num(TOR), Num(n)] == [Num(TOR)] + [Num(n)];
    HasWord(p.code, at, TOR);
    HasWord(p.code, at + 1, n);
    LastWord(p.code, at + 2, ends, pc + Rest(e));
    LaidAll(p, e, at);
  }

  lemma LaidAll(p: Program, e: Expr, at: nat)
    requires e.Or? && at + 2 + Count(e) + Rest(e) <= |p.code|
    requires Has(p.code, at + 2, Ends(e, at + 2 + Count(e))) && Has(p.code, at + 2 + Count(e), RestCode(p.env, e, at + 2 + Count(e)))
    requires Word(p.code, at + 1 + Count(e)) == Some(at + 2 + Count(e) + Rest(e))
    ensures Laid(p, e, at, Count(e), 0, at + 2 + Count(e))
  {
    hide Has, Word, Ends, RestCode, Rest;
  }

  lemma OrCode(env: Env, e: Expr, at: nat)
    requires e.Or?
    ensures Code(env, e, at, true) == [Num(TOR), Num(Count(e))] + Ends(e, at + 2 + Count(e)) + Body(env, e, at + 2 + Count(e), true)
    ensures Len(e) == 2 + Count(e) + Rest(e) && Count(e) >= 1 && RestCode(env, e, at + 2 + Count(e)) == Body(env, e, at + 2 + Count(e), true)
  {}

  lemma LastWord(code: seq<Value>, at: nat, w: seq<Value>, n: int)
    requires Has(code, at, w) && w != [] && w[|w| - 1] == Num(n)
    ensures Word(code, at + |w| - 1) == Some(n)
  {
    assert code[at + |w| - 1] == code[at..at + |w|][|w| - 1];
  }

  lemma {:induction false} EndsLast(e: Expr, from: int)
    ensures Ends(e, from) != [] && Ends(e, from)[|Ends(e, from)| - 1] == Num(from + Rest(e))
  {
    if e.Or? { EndsLast(e.r, from + Len(e.l)); }
  }

  // ---------- correctness ----------

  /** What the proof needs to know of an expression. */
  ghost predicate Static(env: Env, e: Expr) { Typed(env) && Checked(env, e) }
  ghost predicate StaticArgs(env: Env, args: Args) { Typed(env) && CheckedArgs(env, args) }

  /** Its code is at position at. */
  ghost predicate Ready(p: Program, e: Expr, at: nat, end: nat) {
    Static(p.env, e) && at + Len(e) <= end && Has(p.code, at, Code(p.env, e, at, true))
  }

  ghost predicate ReadyArgs(p: Program, args: Args, at: nat, end: nat) {
    StaticArgs(p.env, args) && at + LenArgs(args) <= end && Has(p.code, at, CodeArgs(p.env, args, at, true))
  }

  lemma StaticParts(env: Env, e: Expr)
    requires Static(env, e)
    ensures e.Rel? || e.Calc? || e.And? || e.Or? ==> Static(env, e.l) && Static(env, e.r)
    ensures e.Not? || e.TTrue? || e.TFalse? || e.Minus? || e.Eval? || e.Cast? ==> Static(env, e.e)
    ensures e.Call? ==> StaticArgs(env, e.args)
    ensures e.And? || e.Or? ==> InControl(env, e.l) && InControl(env, e.r)
  {
    Parts(env, e);
    hide Typed, Checked, TypeOf, Control, InControl, OnStack;
  }

  lemma PairReady(p: Program, e: Expr, at: nat, end: nat)
    requires Ready(p, e, at, end) && (e.Rel? || e.And? || e.Calc?)
    ensures Ready(p, e.l, at, end) && Ready(p, e.r, at + Len(e.l), end)
    ensures e.Rel? ==> Word(p.code, at + Len(e.l) + Len(e.r)) == Some(TEQ + TestCode(e.test) + Letter(TypeOf(p.env, e.l)))
    ensures e.Calc? ==> Word(p.code, at + Len(e.l) + Len(e.r)) == Some(ADD_OP + ArithCode(e.op) + Letter(TypeOf(p.env, e.l)))
  {
    hide Has, Word, Static, Letter;
    StaticParts(p.env, e);
    var a, b := Code(p.env, e.l, at, true), Code(p.env, e.r, at + Len(e.l), true);
    HasSplit(p.code, at, a, b);
    if e.Rel? {
      HasSplit(p.code, at, a + b, [Num(TEQ + TestCode(e.test) + Letter(TypeOf(p.env, e.l)))]);
      HasWord(p.code, at + Len(e.l) + Len(e.r), TEQ + TestCode(e.test) + Letter(TypeOf(p.env, e.l)));
    } else if e.Calc? {
      HasSplit(p.code, at, a + b, [Num(ADD_OP + ArithCode(e.op) + Letter(TypeOf(p.env, e.l)))]);
      HasWord(p.code, at + Len(e.l) + Len(e.r), ADD_OP + ArithCode(e.op) + Letter(TypeOf(p.env, e.l)));
    }
  }

  lemma OneReady(p: Program, e: Expr, at: nat, end: nat)
    requires Ready(p, e, at, end) && (e.Not? || e.TTrue? || e.TFalse? || e.Minus?)
    ensures Ready(p, e.e, at, end) && Word(p.code, at + Len(e.e)) == Some(OpWord(p.env, e))
  {
    hide Has, Word, Letter, Static;
    StaticParts(p.env, e);
    HasSplit(p.code, at, Code(p.env, e.e, at, true), [Num(OpWord(p.env, e))]);
    HasWord(p.code, at + Len(e.e), OpWord(p.env, e));
  }

  lemma EvalReady(p: Program, e: Expr, at: nat, end: nat)
    requires Ready(p, e, at, end) && e.Eval?
    ensures Ready(p, e.e, at + 2, at + 2 + Len(e.e)) && Word(p.code, at) == Some(EVAL) && Word(p.code, at + 1) == Some(Len(e.e))
  {
    hide Has, Word, Static;
    StaticParts(p.env, e);
    HasSplit(p.code, at, [Num(EVAL), Num(Len(e.e))], Code(p.env, e.e, at + 2, true));
    HasSplit(p.code, at, [Num(EVAL)], [Num(Len(e.e))]);
    assert [Num(EVAL), Num(Len(e.e))] == [Num(EVAL)] + [Num(Len(e.e))];
    HasWord(p.code, at, EVAL);
    HasWord(p.code, at + 1, Len(e.e));
  }

  lemma CallReady(p: Program, e: Expr, at: nat, end: nat)
    requires Ready(p, e, at, end) && e.Call?
    ensures ReadyArgs(p, e.args, at, end)
    ensures Word(p.code, at + LenArgs(e.args)) == Some(FCALL) && Word(p.code, at + LenArgs(e.args) + 1) == Some(p.env.bind(e.name))
    ensures Word(p.code, at + LenArgs(e.args) + 3) == Some(CountArgs(e.args))
  {
    var pc, b := at + LenArgs(e.args), p.env.bind(e.name);
    var w := [Num(FCALL), Num(b), Num(e.name), Num(CountArgs(e.args))];
    hide Has, Static, StaticArgs, Word;
    StaticParts(p.env, e);
    HasSplit(p.code, at, CodeArgs(p.env, e.args, at, true), w);
    FourWords(p.code, pc, w[0], w[1], w[2], w[3]);
  }

  lemma FourWords(code: seq<Value>, at: nat, a: Value, b: Value, c: Value, d: Value)
    requires Has(code, at, [a, b, c, d])
    ensures a.Num? ==> Word(code, at) == Some(a.num)
    ensures b.Num? ==> Word(code, at + 1) == Some(b.num)
    ensures d.Num? ==> Word(code, at + 3) == Some(d.num)
  {
    var w := code[at..at + 4];
    assert code[at] == w[0] && code[at + 1] == w[1] && code[at + 2] == w[2] && code[at + 3] == w[3];
  }

  lemma ArgReady(p: Program, args: Args, at: nat, end: nat)
    requires ReadyArgs(p, args, at, end) && args.Arg?
    ensures Ready(p, args.e, at, end) && ReadyArgs(p, args.next, at + Len(args.e), end)
  {
    hide Has, Typed, Checked;
    assert OnStack(p.env, args.e);
    HasSplit(p.code, at, Code(p.env, args.e, at, true), CodeArgs(p.env, args.next, at + Len(args.e), true));
  }

  lemma LeafReady(p: Program, e: Expr, at: nat, end: nat)
    requires Ready(p, e, at, end) && (e.Lit? || e.Ref?)
    ensures Checked(p.env, e) && Has(p.code, at, Code(p.env, e, at, true)) && at + 2 <= end
  {}

  lemma Fits(p: Program, e: Expr, at: nat, end: nat)
    requires Ready(p, e, at, end)
    ensures at + Len(e) <= end && at + Len(e) <= |p.code| && Checked(p.env, e)
    ensures Does(p.env, e).Some? ==> HasType(Does(p.env, e).value, TypeOf(p.env, e))
  {
    if Does(p.env, e).Some? { CodedChecked(p.env, e); SemTyped(p.env, Coded(e)); }
  }

  lemma OrReady(p: Program, e: Expr, at: nat, end: nat)
    requires Ready(p, e, at, end) && e.Or?
    ensures Word(p.code, at) == Some(TOR) && Word(p.code, at + 1) == Some(Count(e))
    ensures LaidReady(p, e, at, Count(e), 0, at + 2 + Count(e))
  {
    hide Typed, Has, Laid, Code;
    HasFits(p.code, at, Code(p.env, e, at, true));
    OrLaid(p, e, at);
  }

  lemma HasFits(code: seq<Value>, at: nat, w: seq<Value>)
    requires Has(code, at, w)
    ensures at + |w| <= |code|
  {}

  ghost predicate LaidReady(p: Program, e: Expr, tor: nat, n: nat, k: nat, pc: nat) {
    Typed(p.env) && InControl(p.env, e) && Laid(p, e, tor, n, k, pc)
  }

  lemma FirstReady(p: Program, e: Expr, tor: nat, n: nat, k: nat, pc: nat)
    requires LaidReady(p, e, tor, n, k, pc) && e.Or?
    ensures Ready(p, e.l, pc, pc + Len(e.l)) && LaidReady(p, e.r, tor, n, k + 1, pc + Len(e.l))
    ensures Word(p.code, tor + 2 + k) == Some(pc + Len(e.l)) && tor < pc <= |p.code| && k + 1 < n
    ensures pc + Len(e.l) <= |p.code| && Checked(p.env, e) && Laid(p, e, tor, n, k, pc) && Laid(p, e.r, tor, n, k + 1, pc + Len(e.l))
  {
    hide Word, Code, Body, Ends, Static, Typed, Checked, Laid, LaidReady, InControl;
    LaidReadyIs(p, e, tor, n, k, pc);
    StaticParts(p.env, e);
    LaidFirst(p, e, tor, n, k, pc);
    LaidReadyIs(p, e.r, tor, n, k + 1, pc + Len(e.l));
    LaidBounds(p, e, tor, n, k, pc);
    LaidBounds(p, e.r, tor, n, k + 1, pc + Len(e.l));
  }

  lemma LaidReadyIs(p: Program, e: Expr, tor: nat, n: nat, k: nat, pc: nat)
    ensures LaidReady(p, e, tor, n, k, pc) <==> Static(p.env, e) && InControl(p.env, e) && Laid(p, e, tor, n, k, pc)
    ensures Static(p.env, e) ==> Checked(p.env, e)
  {}

  lemma LaidBounds(p: Program, e: Expr, tor: nat, n: nat, k: nat, pc: nat)
    requires Laid(p, e, tor, n, k, pc)
    ensures tor < pc <= |p.code| && k < n
  {}

  lemma LastReady(p: Program, e: Expr, tor: nat, n: nat, k: nat, pc: nat)
    requires LaidReady(p, e, tor, n, k, pc) && !e.Or?
    ensures Ready(p, e, pc, pc + Len(e)) && Laid(p, e, tor, n, k, pc) && InControl(p.env, e)
    ensures Word(p.code, tor + 2 + k) == Some(pc + Len(e)) && tor < pc <= |p.code| && k + 1 == n
  {
    hide Word, Code, Body, Ends, Static, Typed, Checked, Laid, LaidReady, InControl;
    LaidReadyIs(p, e, tor, n, k, pc);
    LaidLast(p, e, tor, n, k, pc);
    LaidBounds(p, e, tor, n, k, pc);
  }

  /** The loaded code of every checked expression does what the expression means, from any position and
      any stack, whatever comes after it, but for written negations, which count as true. */
  lemma {:induction false} CodeMeets(p: Program, e: Expr, at: nat, st: seq<Value>, end: nat)
    requires Ready(p, e, at, end)
    ensures at + Len(e) <= |p.code| && Meets(p, e, at, st, end)
    decreases e, 1
  {
    hide *;
    Fits(p, e, at, end);
    match e
    case Lit(_, _) => LeafReady(p, e, at, end); LeafMeets(p, e, at, st, end);
    case Ref(_, _, _, _) => LeafReady(p, e, at, end); LeafMeets(p, e, at, st, end);
    case Rel(_, l, r) => PairMeets(p, e, at, st, end); RelMeets(p, e, at, st, end);
    case Calc(_, l, r) => PairMeets(p, e, at, st, end); CalcMeets(p, e, at, st, end);
    case And(l, r) =>
      PairReady(p, e, at, end);
      CodeMeets(p, l, at, st, end);
      CodeMeets(p, r, at + Len(l), st, end);
      AndMeets(p, e, at, st, end);
    case Or(_, _) =>
      OrReady(p, e, at, end);
      AlternativesMeet(p, e, at, Count(e), 0, at + 2 + Count(e), st);
      OrMeets(p, e, at, st, end);
    case TNot(_) => TNotMeets(p, e, at, st, end);
    case Eval(x) =>
      EvalReady(p, e, at, end);
      CodeMeets(p, x, at + 2, st, at + 2 + Len(x));
      EvalMeets(p, e, at, st, end);
    case Call(_, args) =>
      CallReady(p, e, at, end);
      CodeArgsMeet(p, args, at, st, end);
      CallMeets(p, e, at, st, end);
    case Cast(_, x) =>
      CastReady(p, e, at, end);
      CodeMeets(p, x, at, st, end);
      CastMeets(p, e, at, st, end);
    case _ =>
      OneReady(p, e, at, end);
      CodeMeets(p, e.e, at, st, end);
      Fits(p, e.e, at, end);
      OneMeets(p, e, at, st, end, OpWord(p.env, e));
  }

  /** The two operands of a test or of arithmetic. */
  lemma {:induction false} PairMeets(p: Program, e: Expr, at: nat, st: seq<Value>, end: nat)
    requires Ready(p, e, at, end) && (e.Rel? || e.Calc?)
    ensures at + Len(e.l) <= |p.code| && Meets(p, e.l, at, st, end)
    ensures at + Len(e.l) + Len(e.r) <= |p.code|
    ensures Does(p.env, e.l).Some? ==> Meets(p, e.r, at + Len(e.l), st + [Does(p.env, e.l).value], end)
    ensures Does(p.env, e.l).Some? ==> HasType(Does(p.env, e.l).value, TypeOf(p.env, e.l))
    ensures Does(p.env, e.r).Some? ==> HasType(Does(p.env, e.r).value, TypeOf(p.env, e.r))
    ensures e.Rel? ==> Word(p.code, at + Len(e.l) + Len(e.r)) == Some(TEQ + TestCode(e.test) + Letter(TypeOf(p.env, e.l)))
    ensures e.Calc? ==> Word(p.code, at + Len(e.l) + Len(e.r)) == Some(ADD_OP + ArithCode(e.op) + Letter(TypeOf(p.env, e.l)))
    decreases e, 0
  {
    hide *;
    PairReady(p, e, at, end);
    Fits(p, e.l, at, end);
    Fits(p, e.r, at + Len(e.l), end);
    CodeMeets(p, e.l, at, st, end);
    if Does(p.env, e.l).Some? {
      CodeMeets(p, e.r, at + Len(e.l), st + [Does(p.env, e.l).value], end);
    }
  }

  lemma {:induction false} AlternativesMeet(p: Program, e: Expr, tor: nat, n: nat, k: nat, pc: nat, st: seq<Value>)
    requires e.Or? && LaidReady(p, e, tor, n, k, pc)
    ensures tor < pc <= |p.code| && k < n && MeetsOr(p, e, tor, n, k, pc, st)
    decreases e, 0
  {
    hide *;
    FirstReady(p, e, tor, n, k, pc);
    CodeMeets(p, e.l, pc, st, pc + Len(e.l));
    var next := pc + Len(e.l);
    if e.r.Or? {
      AlternativesMeet(p, e.r, tor, n, k + 1, next, st);
    } else {
      LastReady(p, e.r, tor, n, k + 1, next);
      CodeMeets(p, e.r, next, st, next + Len(e.r));
      LastMeets(p, e.r, tor, n, k + 1, next, st);
    }
    FirstMeets(p, e, tor, n, k, pc, st);
  }

  lemma {:induction false} CodeArgsMeet(p: Program, args: Args, at: nat, st: seq<Value>, end: nat)
    requires ReadyArgs(p, args, at, end)
    ensures at + LenArgs(args) <= |p.code| && MeetsArgs(p, args, at, st, end)
    decreases args, 0
  {
    hide Has, Code, Checked, Sem, Typed, Len, Meets, Run;
    HasFits(p.code, at, CodeArgs(p.env, args, at, true));
    match args
    case NoArg => assert st + [] == st;
    case Arg(e, next) =>
      ArgReady(p, args, at, end);
      CodeMeets(p, e, at, st, end);
      if Does(p.env, e).Some? { CodeArgsMeet(p, next, at + Len(e), st + [Does(p.env, e).value], end); }
      ArgMeets(p, args, at, st, end);
  }

  lemma NegationDoes(env: Env, e: Expr)
    requires e.TNot?
    ensures Does(env, e) == Some(Truth(true))
  {
    assert Sem(env, Lit(BOOL, Truth(true))) == Some(Truth(true));
  }

  lemma TNotMeets(p: Program, e: Expr, at: nat, st: seq<Value>, end: nat)
    requires e.TNot? && at <= |p.code|
    ensures Meets(p, e, at, st, end)
  {
    hide Run;
    NegationDoes(p.env, e);
  }

  lemma CastReady(p: Program, e: Expr, at: nat, end: nat)
    requires Ready(p, e, at, end) && e.Cast?
    ensures Ready(p, e.e, at, end)
  {
    hide Static, Has;
    StaticParts(p.env, e);
  }

  lemma CastMeets(p: Program, e: Expr, at: nat, st: seq<Value>, end: nat)
    requires e.Cast? && Checked(p.env, e) && at + Len(e) <= |p.code| && Meets(p, e.e, at, st, end)
    ensures Meets(p, e, at, st, end)
  {
    hide Run;
  }

  // ---------- written negations ----------

  predicate IsFalse(v: Option<Value>) { v.Some? && !Holds(v.value) }
  predicate IsTrue(v: Option<Value>) { v.Some? && Holds(v.value) }

  /** What every outermost written negation of e negates is false. */
  predicate AllFalse(env: Env, e: Expr)
    decreases e, 0
  {
    match e
    case TNot(x) => IsFalse(Sem(env, x))
    case Lit(_, _) => true
    case Ref(_, _, _, _) => true
    case Rel(_, l, r) => AllFalse(env, l) && AllFalse(env, r)
    case And(l, r) => AllFalse(env, l) && AllFalse(env, r)
    case Or(l, r) => AllFalse(env, l) && AllFalse(env, r)
    case Calc(_, l, r) => AllFalse(env, l) && AllFalse(env, r)
    case Call(_, args) => AllFalseArgs(env, args)
    case Not(x) => AllFalse(env, x)
    case TTrue(x) => AllFalse(env, x)
    case TFalse(x) => AllFalse(env, x)
    case Eval(x) => AllFalse(env, x)
    case Minus(x) => AllFalse(env, x)
    case Cast(_, x) => AllFalse(env, x)
  }

  predicate AllFalseArgs(env: Env, args: Args)
    decreases args, 1
  {
    match args case NoArg => true case Arg(e, next) => AllFalse(env, e) && AllFalseArgs(env, next)
  }

  /** With nothing but false conditions negated, the code does what is written. */
  lemma {:induction false} FalseNegations(env: Env, e: Expr)
    requires AllFalse(env, e)
    ensures Does(env, e) == Sem(env, e)
    decreases e, 0
  {
    match e
    case Rel(_, l, r) => FalseNegations(env, l); FalseNegations(env, r);
    case And(l, r) => FalseNegations(env, l); FalseNegations(env, r);
    case Or(l, r) => FalseNegations(env, l); FalseNegations(env, r);
    case Calc(_, l, r) => FalseNegations(env, l); FalseNegations(env, r);
    case Call(_, args) => FalseNegationsArgs(env, args);
    case TNot(x) => NegationDoes(env, e);
    case Lit(_, _) =>
    case Ref(_, _, _, _) =>
    case _ => FalseNegations(env, e.e);
  }

  lemma {:induction false} FalseNegationsArgs(env: Env, args: Args)
    requires AllFalseArgs(env, args)
    ensures DoesArgs(env, args) == SemArgs(env, args)
    decreases args, 1
  {
    match args case NoArg => case Arg(e, next) => FalseNegations(env, e); FalseNegationsArgs(env, next);
  }

  lemma PairDoes(env: Env, l: Expr, r: Expr)
    ensures Does(env, And(l, r)) == if IsTrue(Does(env, l)) then Whether(Does(env, r)) else Whether(Does(env, l))
    ensures Does(env, Or(l, r)) == if IsFalse(Does(env, l)) then Whether(Does(env, r)) else Whether(Does(env, l))
    ensures Sem(env, And(l, r)) == if IsTrue(Sem(env, l)) then Whether(Sem(env, r)) else Whether(Sem(env, l))
    ensures Sem(env, Or(l, r)) == if IsFalse(Sem(env, l)) then Whether(Sem(env, r)) else Whether(Sem(env, l))
  {}

  /** A written negation is right exactly where it negates something false: as the last operand of a
      conjunction or a disjunction, exactly if besides it is reached. */
  lemma NegationRight(env: Env, l: Expr, x: Expr)
    requires !HasTNot(l)
    ensures Does(env, TNot(x)) == Sem(env, TNot(x)) <==> IsFalse(Sem(env, x))
    ensures Does(env, TNot(x)) == Sem(env, TNot(x)) <==> AllFalse(env, TNot(x))
    ensures Does(env, And(l, TNot(x))) == Sem(env, And(l, TNot(x))) <==> (IsTrue(Sem(env, l)) ==> IsFalse(Sem(env, x)))
    ensures Does(env, Or(l, TNot(x))) == Sem(env, Or(l, TNot(x))) <==> (IsFalse(Sem(env, l)) ==> IsFalse(Sem(env, x)))
  {
    CodedSame(l);
    NegationDoes(env, TNot(x));
    PairDoes(env, l, TNot(x));
    assert Does(env, l) == Sem(env, l);
    assert Sem(env, TNot(x)) == Opposite(Sem(env, x));
    hide Does, Sem;
  }
}
