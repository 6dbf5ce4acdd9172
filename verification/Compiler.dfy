/** The compiler's buffer: code is appended to it, and the slots of a jump table are filled in later. */
module Compiler {
  import opened Expressions
  import opened Machine
  import opened CodeGen

  class Buffer {
    var code: seq<Value>

    constructor ()
      ensures code == []
    {
      code := [];
    }

    method AddCode(words: seq<Value>)
      modifies this
      ensures code == old(code) + words
    {
      code := code + words;
    }

    /** Appends the code of e, and says of what type it leaves a value. */
    method CompileExpression(env: Env, e: Expr) returns (typ: Type)
      modifies this
      ensures code == old(code) + Code(env, e, |old(code)|, false) && typ == TypeOf(env, e)
      decreases e, 2
    {
      hide Code, TypeOf, Letter, TestCode, ArithCode;
      TypeIs(env, e);
      CodeIs(env, e, |code|);
      match e
      case Lit(t, v) =>
        AddCode([Num(PUSH + Letter(t)), v]);
        typ := t;
      case Ref(whole, mem, pos, attr) =>
        typ := if whole then PATTERN else env.attrType(mem, pos, attr);
        AddCode([Num(if whole then PUSHO else PUSHS + Letter(typ)), Num(Pack(mem, pos, attr))]);
      case Rel(test, l, r) =>
        typ := CompilePair(env, e);
        AddCode([Num(TEQ + TestCode(test) + Letter(typ))]);
        typ := BOOL;
      case And(l, r) =>
        typ := CompilePair(env, e);
        typ := BOOL;
      case Or(_, _) =>
        CompileOr(env, e);
        typ := BOOL;
      case TNot(_) =>
        typ := BOOL;   // an unknown operator gives a message and no code
      case Not(x) =>
        var _ := CompileExpression(env, x);
        AddCode([Num(NOT)]);
        typ := BOOL;
      case TTrue(x) =>
        var _ := CompileExpression(env, x);
        AddCode([Num(TTRUE)]);
        typ := BOOL;
      case TFalse(x) =>
        var _ := CompileExpression(env, x);
        AddCode([Num(TFALSE)]);
        typ := BOOL;
      case Eval(x) =>
        CompileEval(env, x);
        typ := BOOL;
      case Calc(op, l, r) =>
        typ := CompilePair(env, e);
        AddCode([Num(ADD_OP + ArithCode(op) + Letter(typ))]);
      case Minus(x) =>
        typ := CompileExpression(env, x);
        AddCode([Num(MINUS_OP + Letter(typ))]);
      case Call(name, args) =>
        CompileArgs(env, args);
        AddCode([Num(FCALL), Num(0), Num(name), Num(CountArgs(args))]);
        typ := env.signature(name).result;
      case Cast(to, x) =>
        var _ := CompileExpression(env, x);
        typ := to;
    }

    /** Both operands; the type is that of the left one. */
    method CompilePair(env: Env, e: Expr) returns (typ: Type)
      requires e.Rel? || e.And? || e.Calc?
      modifies this
      ensures code == old(code) + (Code(env, e.l, |old(code)|, false) + Code(env, e.r, |old(code)| + Len(e.l), false)) && typ == TypeOf(env, e.l)
      decreases e, 1
    {
      typ := CompileExpression(env, e.l);
      var _ := CompileExpression(env, e.r);
    }

    method CompileEval(env: Env, x: Expr)
      modifies this
      ensures code == old(code) + [Num(EVAL), Num(Len(x))] + Code(env, x, |old(code)| + 2, false)
      decreases x, 3
    {
      ghost var before := code;
      AddCode([Num(EVAL), Num(0)]);
      var prgIni := |code|;
      var _ := CompileExpression(env, x);
      Fill(prgIni - 1, |code| - prgIni, before + [Num(EVAL)], Code(env, x, prgIni, false));
    }

    /** Fills in the slot between head and tail. */
    method Fill(slot: nat, n: int, ghost head: seq<Value>, ghost tail: seq<Value>)
      requires slot == |head| && |code| == slot + 1 + |tail| && code[..slot] == head && code[slot + 1..] == tail
      modifies this
      ensures code == head + [Num(n)] + tail
    {
      code := code[slot := Num(n)];
    }

    method CompileArgs(env: Env, args: Args)
      modifies this
      ensures code == old(code) + CodeArgs(env, args, |old(code)|, false)
      decreases args, 2
    {
      hide Code, CodeArgs;
      var arg := args;
      ghost var before := code;
      while arg.Arg?
        invariant arg == args || arg < args
        invariant |before| <= |code|
        invariant code + CodeArgs(env, arg, |code|, false) == before + CodeArgs(env, args, |before|, false)
        decreases arg
      {
        ArgsAre(env, arg, code);
        var _ := CompileExpression(env, arg.e);
        arg := arg.next;
      }
      ArgsAre(env, arg, code);
    }

    /** A disjunction: the operation, room for its table, and the alternatives, the end of each of which is
        filled in when it is known. */
    method CompileOr(env: Env, e: Expr)
      requires e.Or?
      modifies this
      ensures code == old(code) + Code(env, e, |old(code)|, false)
      decreases e, 1
    {
      hide *;
      ghost var before := code;
      AddCode([Num(TOR), Num(0)]);
      var slot := |code| - 1;
      var n := ReserveTable(e);
      var prgIni := |code|;
      OrStarts(env, e, before, code, prgIni);
      code := code[slot := Num(n)];
      FillTable(env, e, prgIni, slot + 1, before + [Num(TOR), Num(n)]);
      OrIs(env, e, before);
    }

    /** Compiles the alternatives, and fills in where each one ends. */
    method FillTable(env: Env, e: Expr, prgIni: nat, first: nat, ghost head: seq<Value>)
      requires Filling(env, e, e, head, [], [], prgIni, code) && first == |head| && e.Or?
      modifies this
      ensures code == head + Ends(e, 0) + Body(env, e, prgIni, false)
      decreases e, 0
    {
      hide *;
      var exp, slot := e, first;
      ghost var done, body := [], [];
      while exp.Or?
        invariant exp == e || exp < e
        invariant Filling(env, e, exp, head, done, body, prgIni, code) && slot == |head| + |done|
        decreases exp
      {
        ghost var almost, c := code, Code(env, exp.l, |code|, false);
        var _ := CompileExpression(env, exp.l);
        FillingStep(env, e, exp, head, done, body, prgIni, almost, c, Num(|code| - prgIni));
        exp := exp.r;
        done, body := done + [Num(|code| - prgIni)], body + c;
        code := code[slot := Num(|code| - prgIni)];
        slot := slot + 1;
      }
      ghost var almost, c := code, Code(env, exp, |code|, false);
      var _ := CompileExpression(env, exp);
      FillingEnds(env, e, exp, head, done, body, prgIni, almost, c, Num(|code| - prgIni));
      code := code[slot := Num(|code| - prgIni)];
    }

    /** A slot for each alternative. */
    method ReserveTable(e: Expr) returns (n: nat)
      requires e.Or?
      modifies this
      ensures n == Count(e) && code == old(code) + Zeros(n)
    {
      ghost var before := code;
      var exp := e;
      n := 1;
      while exp.Or?
        invariant n + Count(exp) == Count(e) + 1 && n >= 1 && code == before + Zeros(n - 1)
        decreases exp
      {
        AddCode([Num(0)]);
        n, exp := n + 1, exp.r;
      }
      AddCode([Num(0)]);
    }
  }

  function Zeros(n: nat): (z: seq<Value>)
    ensures |z| == n
  {
    seq(n, _ => Num(0))
  }

  /** The alternatives of x, as they are compiled. */
  function RestOf(env: Env, x: Expr, at: nat): seq<Value> {
    if x.Or? then Body(env, x, at, false) else Code(env, x, at, false)
  }

  /** The slots in done have been filled in and their alternatives are in body; those of exp are to come. */
  ghost predicate Filling(env: Env, e: Expr, exp: Expr, head: seq<Value>, done: seq<Value>, body: seq<Value>, prgIni: nat, code: seq<Value>) {
    && code == head + done + Zeros(Count(exp)) + body && prgIni == |code| - |body|
    && done + Ends(exp, |body|) == Ends(e, 0)
    && e.Or? && body + RestOf(env, exp, prgIni + |body|) == Body(env, e, prgIni, false)
  }

  lemma OrStarts(env: Env, e: Expr, before: seq<Value>, code: seq<Value>, prgIni: nat)
    requires e.Or? && prgIni == |code| && code == before + [Num(TOR), Num(0)] + Zeros(Count(e))
    ensures Filling(env, e, e, before + [Num(TOR), Num(Count(e))], [], [], prgIni, code[|before| + 1 := Num(Count(e))])
    ensures |before| + 2 + Count(e) == prgIni
  {
    hide Zeros, Body, Ends;
    assert [] + Ends(e, 0) == Ends(e, 0) && [] + Body(env, e, prgIni, false) == Body(env, e, prgIni, false);
    assert code[|before| + 1 := Num(Count(e))] == before + [Num(TOR), Num(Count(e))] + [] + Zeros(Count(e)) + [];
  }

  lemma CodeIs(env: Env, e: Expr, at: nat)
    ensures e.Lit? ==> Code(env, e, at, false) == [Num(PUSH + Letter(e.typ)), e.val]
    ensures e.Ref? ==> Code(env, e, at, false) == [Num(if e.whole then PUSHO else PUSHS + Letter(TypeOf(env, e))), Num(Pack(e.mem, e.pos, e.attr))]
    ensures e.Rel? ==> Code(env, e, at, false) == Code(env, e.l, at, false) + Code(env, e.r, at + Len(e.l), false) + [Num(TEQ + TestCode(e.test) + Letter(TypeOf(env, e.l)))]
    ensures e.And? ==> Code(env, e, at, false) == Code(env, e.l, at, false) + Code(env, e.r, at + Len(e.l), false)
    ensures e.TNot? ==> Code(env, e, at, false) == []
    ensures e.Not? || e.TTrue? || e.TFalse? || e.Minus? ==> Code(env, e, at, false) == Code(env, e.e, at, false) + [Num(OpWord(env, e))]
    ensures e.Not? ==> OpWord(env, e) == NOT
    ensures e.TTrue? ==> OpWord(env, e) == TTRUE
    ensures e.TFalse? ==> OpWord(env, e) == TFALSE
    ensures e.Minus? ==> OpWord(env, e) == MINUS_OP + Letter(TypeOf(env, e.e))
    ensures e.Eval? ==> Code(env, e, at, false) == [Num(EVAL), Num(Len(e.e))] + Code(env, e.e, at + 2, false)
    ensures e.Calc? ==> Code(env, e, at, false) == Code(env, e.l, at, false) + Code(env, e.r, at + Len(e.l), false) + [Num(ADD_OP + ArithCode(e.op) + Letter(TypeOf(env, e.l)))]
    ensures e.Call? ==> Code(env, e, at, false) == CodeArgs(env, e.args, at, false) + [Num(FCALL), Num(0), Num(e.name), Num(CountArgs(e.args))]
    ensures e.Cast? ==> Code(env, e, at, false) == Code(env, e.e, at, false)
  {}

  lemma ArgsAre(env: Env, args: Args, code: seq<Value>)
    ensures args.Arg? ==> code + CodeArgs(env, args, |code|, false) == code + Code(env, args.e, |code|, false) + CodeArgs(env, args.next, |code| + Len(args.e), false)
    ensures args.NoArg? ==> code + CodeArgs(env, args, |code|, false) == code
  {
    hide Code;
  }

  lemma TypeIs(env: Env, e: Expr)
    ensures e.Lit? ==> TypeOf(env, e) == e.typ
    ensures e.Ref? ==> TypeOf(env, e) == if e.whole then PATTERN else env.attrType(e.mem, e.pos, e.attr)
    ensures e.Calc? ==> TypeOf(env, e) == TypeOf(env, e.l)
    ensures e.Minus? ==> TypeOf(env, e) == TypeOf(env, e.e)
    ensures e.Call? ==> TypeOf(env, e) == env.signature(e.name).result
    ensures e.Cast? ==> TypeOf(env, e) == e.to
    ensures Control(e) || e.Not? || e.Eval? ==> TypeOf(env, e) == BOOL
  {}

  lemma OrIs(env: Env, e: Expr, before: seq<Value>)
    requires e.Or?
    ensures before + Code(env, e, |before|, false) == before + [Num(TOR), Num(Count(e))] + Ends(e, 0) + Body(env, e, |before| + 2 + Count(e), false)
  {
    hide *;
    OrSplits(env, e, |before|);
    Grouped(before, [Num(TOR), Num(Count(e))], Ends(e, 0), Body(env, e, |before| + 2 + Count(e), false));
  }

  lemma Grouped<T>(a: seq<T>, b: seq<T>, c: seq<T>, d: seq<T>)
    ensures a + (b + c + d) == a + b + c + d
  {}

  lemma OrSplits(env: Env, e: Expr, at: nat)
    requires e.Or?
    ensures Code(env, e, at, false) == [Num(TOR), Num(Count(e))] + Ends(e, 0) + Body(env, e, at + 2 + Count(e), false)
  {}

  /** One more alternative c, whose slot gets the value v. */
  lemma FillingStep(env: Env, e: Expr, exp: Expr, head: seq<Value>, done: seq<Value>, body: seq<Value>, prgIni: nat, code: seq<Value>, c: seq<Value>, v: Value)
    requires Filling(env, e, exp, head, done, body, prgIni, code) && exp.Or?
    requires c == Code(env, exp.l, |code|, false) && v == Num(|code| + |c| - prgIni)
    ensures |head| + |done| < |code|
    ensures Filling(env, e, exp.r, head, done + [v], body + c, prgIni, (code + c)[|head| + |done| := v])
  {
    hide Code, Body;
    var m := Count(exp.r);
    FillSlot(head + done, m, body, c, v);
    assert head + (done + [v]) == head + done + [v];
    assert done + [v] + Ends(exp.r, |body + c|) == done + ([v] + Ends(exp.r, |body + c|));
    RestSplits(env, exp, |code|);
    assert body + c + RestOf(env, exp.r, |code| + |c|) == body + (c + RestOf(env, exp.r, |code| + |c|));
  }

  lemma RestSplits(env: Env, x: Expr, at: nat)
    requires x.Or?
    ensures RestOf(env, x, at) == Code(env, x.l, at, false) + RestOf(env, x.r, at + Len(x.l))
  {}

  lemma FillSlot(head: seq<Value>, m: nat, body: seq<Value>, c: seq<Value>, v: Value)
    ensures (head + Zeros(m + 1) + body + c)[|head| := v] == head + [v] + Zeros(m) + (body + c)
  {}

  lemma FillingEnds(env: Env, e: Expr, exp: Expr, head: seq<Value>, done: seq<Value>, body: seq<Value>, prgIni: nat, code: seq<Value>, c: seq<Value>, v: Value)
    requires Filling(env, e, exp, head, done, body, prgIni, code) && !exp.Or?
    requires c == Code(env, exp, |code|, false) && v == Num(|code| + |c| - prgIni)
    ensures |head| + |done| < |code|
    ensures (code + c)[|head| + |done| := v] == head + Ends(e, 0) + Body(env, e, prgIni, false)
  {
    hide Code, Body, Zeros;
    FillSlot(head + done, 0, body, c, v);
    Joined(head, done, [v], body + c);
  }

  lemma Joined(a: seq<Value>, b: seq<Value>, c: seq<Value>, d: seq<Value>)
    ensures a + b + c + Zeros(0) + d == a + (b + c) + d
  {}
}
