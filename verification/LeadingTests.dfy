/** Which tests of a condition become keys: its first conjuncts, as long as they compare for equality an
    attribute of one side with one of the other. */
module LeadingTests {
  import opened Wrappers
  import opened Expressions
  import opened Negations
  import opened Machine
  import opened CodeGen
  import opened Keys

  /** The conjuncts, in order. */
  function Tests(e: Expr): seq<Expr> { if e.And? then Tests(e.l) + Tests(e.r) else [e] }

  function CodeOf(env: Env, es: seq<Expr>, at: nat, loaded: bool): seq<Value> {
    if es == [] then [] else Code(env, es[0], at, loaded) + CodeOf(env, es[1..], at + Len(es[0]), loaded)
  }

  function LenOf(es: seq<Expr>): nat { if es == [] then 0 else Len(es[0]) + LenOf(es[1..]) }

  lemma {:induction false} CodeOfBoth(env: Env, a: seq<Expr>, b: seq<Expr>, at: nat, loaded: bool)
    ensures CodeOf(env, a + b, at, loaded) == CodeOf(env, a, at, loaded) + CodeOf(env, b, at + LenOf(a), loaded)
    ensures LenOf(a + b) == LenOf(a) + LenOf(b)
  {
    hide Code, Len;
    if a == [] {
      assert a + b == b;
    } else {
      assert (a + b)[1..] == a[1..] + b;
      CodeOfBoth(env, a[1..], b, at + Len(a[0]), loaded);
    }
  }

  lemma {:induction false} CodeOfTests(env: Env, e: Expr, at: nat, loaded: bool)
    ensures Code(env, e, at, loaded) == CodeOf(env, Tests(e), at, loaded) && Len(e) == LenOf(Tests(e))
  {
    if e.And? {
      CodeOfTests(env, e.l, at, loaded);
      CodeOfTests(env, e.r, at + Len(e.l), loaded);
      CodeOfBoth(env, Tests(e.l), Tests(e.r), at, loaded);
    } else {
      assert Tests(e) == [e] && CodeOf(env, [], at + Len(e), loaded) == [] && LenOf([]) == 0;
    }
  }

  lemma {:induction false} TestsInControl(env: Env, e: Expr)
    requires InControl(env, e)
    ensures forall i :: 0 <= i < |Tests(e)| ==> InControl(env, Tests(e)[i]) && !Tests(e)[i].And?
  {
    if e.And? {
      TestsInControl(env, e.l);
      TestsInControl(env, e.r);
    }
  }

  /** What is accessed under any casts. */
  function Strip(e: Expr): Expr { if e.Cast? then Strip(e.e) else e }

  predicate Attribute(e: Expr) { Strip(e).Ref? && !Strip(e).whole }

  predicate KeyTest(t: Expr) {
    t.Rel? && t.test == EQ && Attribute(t.l) && Attribute(t.r) && Strip(t.l).mem != Strip(t.r).mem
  }

  // ---------- how code begins ----------

  /** Code of a value that begins with an access to an attribute is that access, or shows within five words
      that it is not the beginning of a test for equality. */
  predicate Begins(w: seq<Value>) {
    && (w != [] ==> !TestsEqual(Word(w, 0)))
    && (w != [] && PushesAttribute(Word(w, 0)) && |w| != 2 ==>
      |w| >= 3 && !TestsEqual(Word(w, 2)) && (PushesAttribute(Word(w, 2)) ==> |w| >= 5 && !TestsEqual(Word(w, 4))))
  }

  /** The same of arguments, which may also be two accesses. */
  predicate BeginArgs(w: seq<Value>) {
    Begins(w) || (|w| == 4 && PushesAttribute(Word(w, 0)) && PushesAttribute(Word(w, 2)))
  }

  predicate Other(op: int) { !PushesAttribute(Some(op)) && !TestsEqual(Some(op)) }

  /** An operation behind its operands. */
  lemma AndOperation(w: seq<Value>, op: int, more: seq<Value>)
    requires BeginArgs(w) && Other(op)
    ensures Begins(w + [Num(op)] + more)
  {
    var v := w + [Num(op)] + more;
    assert forall i :: 0 <= i < |w| ==> v[i] == w[i];
    assert v[|w|] == Num(op);
  }

  /** A value and more of them. */
  lemma AndMore(w: seq<Value>, v: seq<Value>)
    requires |w| >= 2 && Begins(w) && BeginArgs(v)
    ensures BeginArgs(w + v)
  {
    var b := w + v;
    assert forall i :: 0 <= i < |w| ==> b[i] == w[i];
    assert forall i :: 0 <= i < |v| ==> b[|w| + i] == v[i];
  }

  lemma OtherOps(env: Env, e: Expr)
    ensures Other(NOT) && Other(FCALL) && Other(EVAL) && forall t: Type :: Other(MINUS_OP + Letter(t))
    ensures forall op: Arith, t: Type :: Other(ADD_OP + ArithCode(op) + Letter(t))
  {}

  lemma {:induction false} ValueBegins(env: Env, e: Expr, at: nat, loaded: bool)
    requires OnStack(env, e)
    ensures Begins(Code(env, e, at, loaded)) && Len(e) >= 2
    decreases e, 1
  {
    hide Begins, BeginArgs, Checked, Other, OnStack, InControl;
    ValueParts(env, e);
    OtherOps(env, e);
    match e
    case Lit(_, _) => LeafBegins(env, e, at, loaded);
    case Ref(_, _, _, _) => LeafBegins(env, e, at, loaded);
    case Not(x) => ValueBegins(env, x, at, loaded); OneBegins(env, e, at, loaded, NOT);
    case Minus(x) => ValueBegins(env, x, at, loaded); OneBegins(env, e, at, loaded, MINUS_OP + Letter(TypeOf(env, x)));
    case Calc(op, l, r) =>
      ValueBegins(env, l, at, loaded);
      ValueBegins(env, r, at + Len(l), loaded);
      CalcBegins(env, e, at, loaded);
    case Eval(x) => EvalBegins(env, e, at, loaded);
    case Call(_, args) => ArgsBegin(env, args, at, loaded); CallBegins(env, e, at, loaded);
    case Cast(_, x) => ValueBegins(env, x, at, loaded);
    case _ =>
  }

  lemma ValueParts(env: Env, e: Expr)
    requires OnStack(env, e)
    ensures !Control(e) && (e.Calc? ==> OnStack(env, e.l) && OnStack(env, e.r)) && (e.Call? ==> CheckedArgs(env, e.args))
    ensures e.Not? || e.Minus? || e.Cast? ==> OnStack(env, e.e)
  {}

  lemma LeafBegins(env: Env, e: Expr, at: nat, loaded: bool)
    requires e.Lit? || e.Ref?
    ensures Begins(Code(env, e, at, loaded))
  {}

  lemma OneBegins(env: Env, e: Expr, at: nat, loaded: bool, op: int)
    requires e.Not? || e.Minus?
    requires op == OpWord(env, e) && Begins(Code(env, e.e, at, loaded)) && Other(op)
    ensures Begins(Code(env, e, at, loaded))
  {
    var w := Code(env, e.e, at, loaded);
    hide Begins, Other;
    assert BeginArgs(w);
    AndOperation(w, op, []);
    assert w + [Num(op)] + [] == w + [Num(op)];
  }

  lemma CalcBegins(env: Env, e: Expr, at: nat, loaded: bool)
    requires e.Calc? && Len(e.l) >= 2 && Begins(Code(env, e.l, at, loaded)) && Begins(Code(env, e.r, at + Len(e.l), loaded))
    ensures Begins(Code(env, e, at, loaded))
  {
    hide Begins, Other;
    var a, b, op := Code(env, e.l, at, loaded), Code(env, e.r, at + Len(e.l), loaded), ADD_OP + ArithCode(e.op) + Letter(TypeOf(env, e.l));
    OtherOps(env, e);
    assert BeginArgs(b);
    AndMore(a, b);
    AndOperation(a + b, op, []);
    assert a + b + [Num(op)] + [] == a + b + [Num(op)];
  }

  lemma EvalBegins(env: Env, e: Expr, at: nat, loaded: bool)
    requires e.Eval?
    ensures Begins(Code(env, e, at, loaded)) && Len(e) >= 2
  {}

  lemma CallBegins(env: Env, e: Expr, at: nat, loaded: bool)
    requires e.Call? && BeginArgs(CodeArgs(env, e.args, at, loaded))
    ensures Begins(Code(env, e, at, loaded))
  {
    hide Begins, BeginArgs, Other, CodeArgs;
    var w, more := CodeArgs(env, e.args, at, loaded), [Num(if loaded then env.bind(e.name) else 0), Num(e.name), Num(CountArgs(e.args))];
    OtherOps(env, e);
    AndOperation(w, FCALL, more);
    assert w + [Num(FCALL)] + more == w + [Num(FCALL), more[0], more[1], more[2]];
  }

  lemma {:induction false} ArgsBegin(env: Env, args: Args, at: nat, loaded: bool)
    requires CheckedArgs(env, args)
    ensures BeginArgs(CodeArgs(env, args, at, loaded))
    decreases args, 0
  {
    match args
    case NoArg =>
    case Arg(e, next) =>
      assert OnStack(env, e) && CheckedArgs(env, next);
      hide Begins, BeginArgs, Checked, OnStack;
      ValueBegins(env, e, at, loaded);
      ArgsBegin(env, next, at + Len(e), loaded);
      AndMore(Code(env, e, at, loaded), CodeArgs(env, next, at + Len(e), loaded));
  }

  // ---------- the first test ----------

  /** The code of an attribute, whatever it is cast to. */
  lemma {:induction false} AttributeCode(env: Env, e: Expr, at: nat, loaded: bool)
    requires OnStack(env, e)
    ensures Attribute(e) <==> Len(e) == 2 && PushesAttribute(Word(Code(env, e, at, loaded), 0))
    ensures var a := Strip(e);
      Attribute(e) ==> Code(env, e, at, loaded) == [Num(PUSHS + Letter(TypeOf(env, a))), Num(Pack(a.mem, a.pos, a.attr))]
    ensures Attribute(e) ==> Checked(env, Strip(e)) && Letter(TypeOf(env, Strip(e))) == Letter(TypeOf(env, e))
  {
    if e.Cast? {
      AttributeCode(env, e.e, at, loaded);
    } else if !e.Lit? && !e.Ref? && !e.Eval? {
      LongCode(env, e);
    }
  }

  lemma LongCode(env: Env, e: Expr)
    requires OnStack(env, e) && (e.Not? || e.Minus? || e.Calc? || e.Call?)
    ensures Len(e) > 2
  {
    if e.Not? || e.Minus? { ValueBegins(env, e.e, 0, false); }
    if e.Calc? { ValueBegins(env, e.l, 0, false); ValueBegins(env, e.r, 0, false); }
  }

  lemma NotIndexable(v: seq<Value>, rest: seq<Value>)
    requires v != [] && Begins(v) && |v| != 2
    ensures !Indexable(v + rest)
  {
    var w := v + rest;
    assert forall i :: 0 <= i < |v| ==> w[i] == v[i];
  }

  /** The key of such a test. */
  function TestKey(env: Env, t: Expr): int
    requires KeyTest(t)
  {
    var a, b := Strip(t.l), Strip(t.r);
    PackKey(PUSHS + Letter(TypeOf(env, a)), Pack(a.mem, a.pos, a.attr), Pack(b.mem, b.pos, b.attr))
  }

  predicate HasLetters(env: Env, w: seq<Value>)
    requires Indexable(w)
  {
    var op, first, second := w[0].num, w[1].num, w[3].num;
    && w[2].num % 4 == w[4].num % 4 == op % 4
    && HasLetter(env.fetch(MemOf(first), PosOf(first), AttrOf(first)), op % 4)
    && HasLetter(env.fetch(MemOf(second), PosOf(second), AttrOf(second)), op % 4)
  }

  /** The code of a conjunct begins with a key exactly if the conjunct is such a test. */
  lemma FirstTest(env: Env, t: Expr, at: nat, loaded: bool, rest: seq<Value>)
    requires Typed(env) && InControl(env, t) && !t.And? && !t.TNot?
    ensures var w := Code(env, t, at, loaded) + rest;
      && (Indexable(w) <==> KeyTest(t))
      && (KeyTest(t) ==> |w| >= 5 && w[5..] == rest && Len(t) == 5 && HasLetters(env, w) && PackKey(w[0].num, w[1].num, w[3].num) == TestKey(env, t))
  {
    hide Begins, Checked, Typed, Other, Indexable, OnStack, HasLetters;
    ControlParts(env, t);
    match t
    case Rel(_, _, _) => FirstRel(env, t, at, loaded, rest);
    case Or(_, _) => OrBegins(env, t, at, loaded); NotIndexable(Code(env, t, at, loaded), rest);
    case TTrue(x) => ConditionBegins(env, t, at, loaded); NotIndexable(Code(env, t, at, loaded), rest);
    case TFalse(x) => ConditionBegins(env, t, at, loaded); NotIndexable(Code(env, t, at, loaded), rest);
    case _ =>
  }

  lemma ControlParts(env: Env, t: Expr)
    requires InControl(env, t)
    ensures t.Rel? || t.And? || t.Or? || t.TNot? || t.TTrue? || t.TFalse?
    ensures t.Rel? ==> OnStack(env, t.l) && OnStack(env, t.r) && TypeOf(env, t.l) == TypeOf(env, t.r)
    ensures t.TTrue? || t.TFalse? ==> OnStack(env, t.e)
  {}

  lemma OrBegins(env: Env, t: Expr, at: nat, loaded: bool)
    requires t.Or?
    ensures Begins(Code(env, t, at, loaded)) && Len(t) > 2
  {}

  lemma ConditionBegins(env: Env, t: Expr, at: nat, loaded: bool)
    requires (t.TTrue? || t.TFalse?) && OnStack(env, t.e)
    ensures Begins(Code(env, t, at, loaded)) && Len(t) > 2
  {
    var w, op := Code(env, t.e, at, loaded), if t.TTrue? then TTRUE else TFALSE;
    assert Other(op);
    hide Begins, Other, OnStack;
    ValueBegins(env, t.e, at, loaded);
    assert BeginArgs(w);
    AndOperation(w, op, []);
    assert w + [Num(op)] + [] == w + [Num(op)];
  }

  lemma FirstRel(env: Env, t: Expr, at: nat, loaded: bool, rest: seq<Value>)
    requires Typed(env) && t.Rel? && OnStack(env, t.l) && OnStack(env, t.r) && TypeOf(env, t.l) == TypeOf(env, t.r)
    ensures var w := Code(env, t, at, loaded) + rest;
      && (Indexable(w) <==> KeyTest(t))
      && (KeyTest(t) ==> |w| >= 5 && w[5..] == rest && Len(t) == 5 && HasLetters(env, w) && PackKey(w[0].num, w[1].num, w[3].num) == TestKey(env, t))
  {
    hide *;
    var a, b := Code(env, t.l, at, loaded), Code(env, t.r, at + Len(t.l), loaded);
    var op := TEQ + TestCode(t.test) + Letter(TypeOf(env, t.l));
    RelCode(env, t, at, loaded);
    ValueBegins(env, t.l, at, loaded);
    ValueBegins(env, t.r, at + Len(t.l), loaded);
    AttributeCode(env, t.l, at, loaded);
    AttributeCode(env, t.r, at + Len(t.l), loaded);
    KeyTestIs(t);
    if Attribute(t.l) && Attribute(t.r) {
      TwoAttributes(env, t, op, rest);
      assert a + b + [Num(op)] + rest == [a[0], a[1], b[0], b[1], Num(op)] + rest;
    } else {
      NotTwo(a, b, op, rest);
    }
  }

  lemma KeyTestIs(t: Expr)
    requires t.Rel?
    ensures KeyTest(t) ==> Attribute(t.l) && Attribute(t.r)
  {}

  lemma RelCode(env: Env, t: Expr, at: nat, loaded: bool)
    requires t.Rel?
    ensures Code(env, t, at, loaded) == Code(env, t.l, at, loaded) + Code(env, t.r, at + Len(t.l), loaded) + [Num(TEQ + TestCode(t.test) + Letter(TypeOf(env, t.l)))]
    ensures Len(t) == Len(t.l) + Len(t.r) + 1
  {}

  lemma NotTwo(a: seq<Value>, b: seq<Value>, op: int, rest: seq<Value>)
    requires |a| >= 2 && |b| >= 2 && Begins(a) && Begins(b)
    requires |a| != 2 || !PushesAttribute(Word(a, 0)) || |b| != 2 || !PushesAttribute(Word(b, 0))
    ensures !Indexable(a + b + [Num(op)] + rest)
  {
    var w := a + b + [Num(op)] + rest;
    assert forall i :: 0 <= i < |a| ==> w[i] == a[i];
    assert forall i :: 0 <= i < |b| ==> w[|a| + i] == b[i];
  }

  lemma TwoAttributes(env: Env, t: Expr, op: int, rest: seq<Value>)
    requires Typed(env) && t.Rel? && Attribute(t.l) && Attribute(t.r) && TypeOf(env, t.l) == TypeOf(env, t.r)
    requires op == TEQ + TestCode(t.test) + Letter(TypeOf(env, t.l)) && Checked(env, Strip(t.l)) && Checked(env, Strip(t.r))
    requires Letter(TypeOf(env, Strip(t.l))) == Letter(TypeOf(env, t.l)) && Letter(TypeOf(env, Strip(t.r))) == Letter(TypeOf(env, t.r))
    ensures var a, b := Strip(t.l), Strip(t.r);
      var w := [Num(PUSHS + Letter(TypeOf(env, a))), Num(Pack(a.mem, a.pos, a.attr)), Num(PUSHS + Letter(TypeOf(env, b))), Num(Pack(b.mem, b.pos, b.attr)), Num(op)] + rest;
      && (Indexable(w) <==> KeyTest(t)) && w[5..] == rest
      && (KeyTest(t) ==> HasLetters(env, w) && PackKey(w[0].num, w[1].num, w[3].num) == TestKey(env, t))
  {
    hide *;
    var a, b := Strip(t.l), Strip(t.r);
    AttributeReads(env, t.l);
    AttributeReads(env, t.r);
    var first, second := Pack(a.mem, a.pos, a.attr), Pack(b.mem, b.pos, b.attr);
    TwoAccesses(env, t.test, Letter(TypeOf(env, a)), first, second, rest);
    KeyTestOf(env, t);
    assert op == TEQ + TestCode(t.test) + Letter(TypeOf(env, a));
  }

  /** The word of an access to an attribute leads to its place and reads a value of its type. */
  lemma AttributeReads(env: Env, e: Expr)
    requires Typed(env) && Attribute(e) && Checked(env, Strip(e))
    ensures var a := Strip(e);
      var w, letter := Pack(a.mem, a.pos, a.attr), Letter(TypeOf(env, a));
      a.Ref? && w >= 0 && MemOf(w) == a.mem && letter < 3 && HasLetter(env.fetch(MemOf(w), PosOf(w), AttrOf(w)), letter)
  {
    var a := Strip(e);
    Unpack(a.mem, a.pos, a.attr);
    hide MemOf, PosOf, AttrOf;
    LetterOf(env.fetch(a.mem, a.pos, a.attr), TypeOf(env, a));
  }

  lemma KeyTestOf(env: Env, t: Expr)
    requires t.Rel? && Attribute(t.l) && Attribute(t.r)
    ensures var a, b := Strip(t.l), Strip(t.r);
      && (KeyTest(t) <==> t.test == EQ && a.mem != b.mem)
      && (KeyTest(t) ==> TestKey(env, t) == PackKey(PUSHS + Letter(TypeOf(env, a)), Pack(a.mem, a.pos, a.attr), Pack(b.mem, b.pos, b.attr)))
  {
    hide PackKey, Pack;
  }

  /** Two accesses of a letter and a test are a key exactly if it is for equality and of both sides. */
  lemma TwoAccesses(env: Env, test: Test, letter: nat, first: int, second: int, rest: seq<Value>)
    requires first >= 0 && second >= 0 && letter < 3
    requires HasLetter(env.fetch(MemOf(first), PosOf(first), AttrOf(first)), letter)
    requires HasLetter(env.fetch(MemOf(second), PosOf(second), AttrOf(second)), letter)
    ensures var w := [Num(PUSHS + letter), Num(first), Num(PUSHS + letter), Num(second), Num(TEQ + TestCode(test) + letter)] + rest;
      && (Indexable(w) <==> test == EQ && MemOf(first) != MemOf(second)) && w[5..] == rest
      && (Indexable(w) ==> HasLetters(env, w))
  {
    hide MemOf, PosOf, AttrOf, HasLetter;
  }

  /** A value of a type has the letter of the type. */
  lemma LetterOf(v: Value, t: Type)
    requires HasType(v, t)
    ensures HasLetter(v, Letter(t)) && Letter(t) < 3
  {}

  // ---------- all leading tests ----------

  /** The keys of a list of conjuncts; a written negation has no code. */
  function KeysFrom(env: Env, es: seq<Expr>): seq<int> {
    if es == [] then []
    else if es[0].TNot? then KeysFrom(env, es[1..])
    else if KeyTest(es[0]) then [TestKey(env, es[0])] + KeysFrom(env, es[1..])
    else []
  }

  lemma {:induction false} KeysOfTests(env: Env, es: seq<Expr>, at: nat, loaded: bool)
    requires Typed(env) && forall i :: 0 <= i < |es| ==> InControl(env, es[i]) && !es[i].And?
    ensures KeysOf(CodeOf(env, es, at, loaded)) == KeysFrom(env, es) && WellTyped(env, CodeOf(env, es, at, loaded))
  {
    hide *;
    if es == [] {
      NoTests(env, at, loaded);
    } else {
      var t, more := es[0], CodeOf(env, es[1..], at + Len(es[0]), loaded);
      CodeOfFirst(env, es, at, loaded);
      assert forall i :: 0 <= i < |es[1..]| ==> es[1..][i] == es[i + 1];
      KeysOfTests(env, es[1..], at + Len(t), loaded);
      KeysFirst(env, Code(env, t, at, loaded) + more);
      if !t.TNot? { FirstTest(env, t, at, loaded, more); }
    }
  }

  lemma NoTests(env: Env, at: nat, loaded: bool)
    ensures KeysOf(CodeOf(env, [], at, loaded)) == [] == KeysFrom(env, []) && WellTyped(env, CodeOf(env, [], at, loaded))
  {}

  lemma CodeOfFirst(env: Env, es: seq<Expr>, at: nat, loaded: bool)
    requires es != []
    ensures CodeOf(env, es, at, loaded) == Code(env, es[0], at, loaded) + CodeOf(env, es[1..], at + Len(es[0]), loaded)
    ensures es[0].TNot? ==> CodeOf(env, es, at, loaded) == CodeOf(env, es[1..], at + Len(es[0]), loaded)
    ensures KeysFrom(env, es) ==
      if es[0].TNot? then KeysFrom(env, es[1..])
      else if KeyTest(es[0]) then [TestKey(env, es[0])] + KeysFrom(env, es[1..])
      else []
  {}

  lemma KeysFirst(env: Env, w: seq<Value>)
    ensures Indexable(w) ==> |w| >= 5 && w[0].Num? && w[1].Num? && w[3].Num?
    ensures Indexable(w) ==> KeysOf(w) == [PackKey(w[0].num, w[1].num, w[3].num)] + KeysOf(w[5..])
    ensures !Indexable(w) ==> KeysOf(w) == [] && WellTyped(env, w)
    ensures Indexable(w) && HasLetters(env, w) && WellTyped(env, w[5..]) ==> WellTyped(env, w)
  {
    hide PackKey, MemOf, PosOf, AttrOf;
  }

  /** The keys taken out of the code of a condition are those of its first conjuncts, as long as they compare
      attributes of both sides for equality, and their code is typed. */
  lemma KeysOfCode(env: Env, e: Expr, at: nat, loaded: bool)
    requires Typed(env) && InControl(env, e)
    ensures KeysOf(Code(env, e, at, loaded)) == KeysFrom(env, Tests(e)) && WellTyped(env, Code(env, e, at, loaded))
  {
    hide *;
    CodeOfTests(env, e, at, loaded);
    TestsInControl(env, e);
    KeysOfTests(env, Tests(e), at, loaded);
  }
}
