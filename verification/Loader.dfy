/** Loading: jumps become positions and function pointers are put in, in one pass over the words. */
module Loader {
  import opened Wrappers
  import opened Expressions
  import opened Machine
  import opened CodeGen

  /** How many words the operation at the head of w has. */
  function Width(w: seq<Value>): int
    requires w != []
  {
    var op, n := Word(w, 0), Word(w, 1);
    if op == Some(TOR) then (if n.Some? && n.value >= 0 then 2 + n.value else 0)
    else if op == Some(FCALL) then 4
    else if op == Some(EVAL) || (op.Some? && PUSH <= op.value <= PUSHO) then 2
    else 1
  }

  /** A jump counted from base becomes a position. */
  function Jump(v: Value, base: int): Value { if v.Num? then Num(base + v.num) else v }

  function Jumps(w: seq<Value>, base: int): (j: seq<Value>) { seq(|w|, i requires 0 <= i < |w| => Jump(w[i], base)) }

  /** One operation, loaded at position at. */
  function LoadOne(env: Env, w: seq<Value>, at: int): (l: seq<Value>)
    requires w != [] && Width(w) == |w|
    ensures |l| == |w|
  {
    var op := Word(w, 0);
    if op == Some(TOR) then w[..2] + Jumps(w[2..], at + |w|)
    else if op == Some(FCALL) && w[2].Num? then [w[0], Num(env.bind(w[2].num)), w[2], w[3]]
    else w
  }

  lemma FirstWidth(w: seq<Value>)
    requires w != [] && 0 < Width(w) <= |w|
    ensures Width(w[..Width(w)]) == Width(w)
  {}

  function Load(env: Env, w: seq<Value>, at: int): (l: seq<Value>)
    ensures |l| == |w|
    decreases |w|
  {
    if w == [] || !(0 < Width(w) <= |w|) then w
    else
      FirstWidth(w);
      LoadOne(env, w[..Width(w)], at) + Load(env, w[Width(w)..], at + Width(w))
  }

  method WidthAt(code: array<Value>, pc: nat, limit: nat) returns (width: int)
    requires pc < limit <= code.Length
    ensures width == Width(code[pc..limit])
  {
    var w := code[pc..limit];
    assert Word(w, 0) == Word(code[..], pc) && (pc + 1 < limit ==> Word(w, 1) == Word(code[..], pc + 1));
    var op := if code[pc].Num? then code[pc].num else -1;
    if op == TOR {
      width := if pc + 1 < limit && code[pc + 1].Num? && code[pc + 1].num >= 0 then 2 + code[pc + 1].num else 0;
    } else if op == FCALL {
      width := 4;
    } else if op == EVAL || PUSH <= op <= PUSHO {
      width := 2;
    } else {
      width := 1;
    }
  }

  /** Turns the words of a jump table into positions. */
  method LoadJumps(code: array<Value>, from: nat, to: nat, base: int)
    requires from <= to <= code.Length
    modifies code
    ensures code[..from] == old(code[..from]) && code[to..] == old(code[to..])
    ensures code[from..to] == Jumps(old(code[from..to]), base)
  {
    ghost var was := code[..];
    for i := from to to
      invariant code[..from] == was[..from] && code[i..] == was[i..]
      invariant code[from..i] == Jumps(was[from..i], base)
    {
      assert was[i..][1..] == was[i + 1..] && code[i] == was[i];
      code[i] := Jump(code[i], base);
      assert was[from..i + 1] == was[from..i] + [was[i]] && code[from..i + 1] == code[from..i] + [code[i]];
    }
  }

  /** Loads the operation at pc. */
  method LoadAt(env: Env, code: array<Value>, pc: nat, width: nat)
    requires 0 < width && pc + width <= code.Length && Width(code[pc..pc + width]) == width
    modifies code
    ensures code[..pc] == old(code[..pc]) && code[pc + width..] == old(code[pc + width..])
    ensures code[pc..pc + width] == LoadOne(env, old(code[pc..pc + width]), pc)
  {
    ghost var w := code[pc..pc + width];
    assert Word(w, 0) == if code[pc].Num? then Some(code[pc].num) else None;
    if code[pc] == Num(TOR) {
      assert w[2..] == code[pc + 2..pc + width] && w[..2] == code[pc..pc + 2]  && code[..pc + 2][..pc] == code[..pc];
      LoadJumps(code, pc + 2, pc + width, pc + width);
      assert code[..pc] == code[..pc + 2][..pc] && code[pc..pc + 2] == code[..pc + 2][pc..];
      assert code[pc..pc + width] == code[pc..pc + 2] + code[pc + 2..pc + width];
    } else if code[pc] == Num(FCALL) && code[pc + 2].Num? {
      code[pc + 1] := Num(env.bind(code[pc + 2].num));
    }
  }

  lemma LoadNext(env: Env, done: seq<Value>, w: seq<Value>, first: seq<Value>, at: nat)
    requires w != [] && 0 < Width(w) <= |w| && Width(w[..Width(w)]) == Width(w)
    requires first == LoadOne(env, w[..Width(w)], at)
    ensures done + Load(env, w, at) == (done + first) + Load(env, w[Width(w)..], at + Width(w))
  {
    hide Width, LoadOne;
  }

  /** Loading in place. */
  method LoadCode(env: Env, code: array<Value>, from: nat, limit: nat)
    requires from <= limit <= code.Length
    modifies code
    ensures code[..from] == old(code[..from]) && code[limit..] == old(code[limit..])
    ensures code[from..limit] == Load(env, old(code[from..limit]), from)
  {
    hide Load, LoadOne, Width;
    var pc := from;
    ghost var before, all, after := code[..from], Load(env, code[from..limit], from), code[limit..];
    assert code[from..from] == [] && [] + all == all;
    while pc < limit
      invariant from <= pc <= limit && code[..from] == before && code[limit..] == after
      invariant all == code[from..pc] + Load(env, code[pc..limit], pc)
    {
      ghost var done, w := code[from..pc], code[pc..limit];
      var width := WidthAt(code, pc, limit);
      if !(0 < width <= limit - pc) {
        LoadNone(env, w, pc);
        assert code[from..limit] == done + w;
        return;
      }
      FirstWidth(w);
      assert w[..width] == code[pc..pc + width] && w[width..] == code[pc + width..limit];
      ghost var head, tail := code[..pc], code[pc + width..];
      LoadAt(env, code, pc, width);
      Slices(code[..], head, tail, from, pc, width, limit, before, after, done, w[width..]);
      LoadNext(env, done, w, code[pc..pc + width], pc);
      pc := pc + width;
    }
    assert code[limit..limit] == [];
    LoadNone(env, [], limit);
    assert all == code[from..limit] + [];
  }

  lemma LoadNone(env: Env, w: seq<Value>, at: int)
    requires w == [] || !(0 < Width(w) <= |w|)
    ensures Load(env, w, at) == w
  {}

  /** What stays and what comes where between pc and pc + width. */
  lemma Slices(c: seq<Value>, head: seq<Value>, tail: seq<Value>, from: nat, pc: nat, width: nat, limit: nat,
    before: seq<Value>, after: seq<Value>, done: seq<Value>, rest: seq<Value>)
    requires from <= pc && pc + width <= limit <= |c| && c[..pc] == head && c[pc + width..] == tail
    requires head[..from] == before && head[from..] == done && tail[limit - pc - width..] == after && tail[..limit - pc - width] == rest
    ensures c[..from] == before && c[limit..] == after
    ensures c[from..pc + width] == done + c[pc..pc + width] && c[pc + width..limit] == rest
  {
    assert c[..from] == c[..pc][..from];
    assert c[from..pc] == c[..pc][from..];
    assert c[limit..] == c[pc + width..][limit - pc - width..];
    assert c[pc + width..limit] == c[pc + width..][..limit - pc - width];
  }

  // ---------- loading what the compiler made ----------

  /** Loading goes operation by operation. */
  lemma LoadFirst(env: Env, first: seq<Value>, rest: seq<Value>, at: int)
    requires first != [] && Width(first + rest) == Width(first) == |first|
    ensures Load(env, first + rest, at) == LoadOne(env, first, at) + Load(env, rest, at + |first|)
  {
    hide LoadOne, Width;
    var w := first + rest;
    assert w[..|first|] == first && w[|first|..] == rest;
  }

  /** The words w, whatever follows them, load at position at as the words l. */
  ghost predicate LoadsTo(env: Env, w: seq<Value>, l: seq<Value>, at: int) {
    |w| == |l| && forall rest :: Load(env, w + rest, at) == l + Load(env, rest, at + |w|)
  }

  lemma LoadsNothing(env: Env, at: int)
    ensures LoadsTo(env, [], [], at)
  {
    forall rest ensures Load(env, [] + rest, at) == [] + Load(env, rest, at + 0) {
      assert [] + rest == rest && [] + Load(env, rest, at) == Load(env, rest, at);
    }
  }

  lemma LoadsBoth(env: Env, v: seq<Value>, l: seq<Value>, w: seq<Value>, m: seq<Value>, at: int)
    requires LoadsTo(env, v, l, at) && LoadsTo(env, w, m, at + |v|)
    ensures LoadsTo(env, v + w, l + m, at)
  {
    hide Load;
    forall rest ensures Load(env, v + w + rest, at) == l + m + Load(env, rest, at + |v + w|) {
      assert v + w + rest == v + (w + rest);
      assert l + m + Load(env, rest, at + |v + w|) == l + (m + Load(env, rest, at + |v + w|));
    }
  }

  /** A word that stands for itself. */
  lemma LoadsOp(env: Env, op: int, at: int)
    requires op < FCALL && op != TOR && op != EVAL
    ensures LoadsTo(env, [Num(op)], [Num(op)], at)
  {
    hide Load;
    forall rest ensures Load(env, [Num(op)] + rest, at) == [Num(op)] + Load(env, rest, at + 1) {
      LoadFirst(env, [Num(op)], rest, at);
    }
  }

  /** An operation with an operand. */
  lemma LoadsPair(env: Env, op: int, v: Value, at: int)
    requires op == EVAL || PUSH <= op <= PUSHO
    ensures LoadsTo(env, [Num(op), v], [Num(op), v], at)
  {
    hide Load;
    forall rest ensures Load(env, [Num(op), v] + rest, at) == [Num(op), v] + Load(env, rest, at + 2) {
      LoadFirst(env, [Num(op), v], rest, at);
    }
  }

  lemma LoadsCall(env: Env, name: int, n: int, at: int)
    ensures LoadsTo(env, [Num(FCALL), Num(0), Num(name), Num(n)], [Num(FCALL), Num(env.bind(name)), Num(name), Num(n)], at)
  {
    hide Load;
    var w, l := [Num(FCALL), Num(0), Num(name), Num(n)], [Num(FCALL), Num(env.bind(name)), Num(name), Num(n)];
    forall rest ensures Load(env, w + rest, at) == l + Load(env, rest, at + 4) {
      LoadFirst(env, w, rest, at);
    }
  }

  lemma {:induction false} ShiftEnds(e: Expr, from: int, base: int)
    ensures Jumps(Ends(e, from), base) == Ends(e, base + from)
  {
    EndsLength(e, from);
    EndsLength(e, base + from);
    if e.Or? { ShiftEnds(e.r, from + Len(e.l), base); }
  }

  lemma LoadsTable(env: Env, e: Expr, at: nat)
    requires e.Or?
    ensures LoadsTo(env, [Num(TOR), Num(Count(e))] + Ends(e, 0), [Num(TOR), Num(Count(e))] + Ends(e, at + 2 + Count(e)), at)
  {
    hide *;
    var n := Count(e);
    var ends, moved := Ends(e, 0), Ends(e, at + 2 + n);
    EndsLength(e, 0);
    EndsLength(e, at + 2 + n);
    ShiftEnds(e, 0, at + 2 + n);
    TableLoads(env, n, ends, moved, at);
  }

  lemma TableLoads(env: Env, n: nat, ends: seq<Value>, moved: seq<Value>, at: int)
    requires |ends| == |moved| == n && Jumps(ends, at + 2 + n) == moved
    ensures LoadsTo(env, [Num(TOR), Num(n)] + ends, [Num(TOR), Num(n)] + moved, at)
  {
    hide Load, LoadOne, Width, Jumps;
    var w, l := [Num(TOR), Num(n)] + ends, [Num(TOR), Num(n)] + moved;
    TableWidth(env, n, ends, [], at);
    forall rest ensures Load(env, w + rest, at) == l + Load(env, rest, at + |w|) {
      TableWidth(env, n, ends, rest, at);
      LoadFirst(env, w, rest, at);
    }
  }

  lemma TableWidth(env: Env, n: nat, ends: seq<Value>, rest: seq<Value>, at: int)
    requires |ends| == n
    ensures var w := [Num(TOR), Num(n)] + ends;
      Width(w + rest) == Width(w) == |w| && LoadOne(env, w, at) == [Num(TOR), Num(n)] + Jumps(ends, at + 2 + n)
  {
    hide Jumps;
    var w := [Num(TOR), Num(n)] + ends;
    assert w[0] == Num(TOR) && w[1] == Num(n) && (w + rest)[0] == Num(TOR) && (w + rest)[1] == Num(n);
    assert w[2..] == ends && w[..2] == [Num(TOR), Num(n)];
  }

  /** Loading the words of the compiler at a position gives the code that the machine is proved to run. */
  lemma {:induction false} LoadIsCode(env: Env, e: Expr, at: nat)
    ensures LoadsTo(env, Code(env, e, at, false), Code(env, e, at, true), at)
    decreases e, 1
  {
    hide LoadsTo, Code, Body;
    match e
    case Lit(_, _) => LeafLoads(env, e, at);
    case Ref(_, _, _, _) => LeafLoads(env, e, at);
    case Rel(_, _, _) => LoadPairIsCode(env, e, at); PairLoads(env, e, at);
    case Calc(_, _, _) => LoadPairIsCode(env, e, at); PairLoads(env, e, at);
    case And(_, _) => LoadPairIsCode(env, e, at); PairLoads(env, e, at);
    case Or(_, _) => LoadIsBody(env, e, at + 2 + Count(e)); OrLoads(env, e, at);
    case TNot(_) => LoadsNothing(env, at); TNotCode(env, e, at);
    case Eval(x) => LoadIsCode(env, x, at + 2); EvalLoads(env, e, at);
    case Call(_, args) => LoadIsCodeArgs(env, args, at); CallLoads(env, e, at);
    case Cast(_, x) => LoadIsCode(env, x, at); OneLoads(env, e, at);
    case _ => LoadIsCode(env, e.e, at); OneLoads(env, e, at);
  }

  lemma LeafLoads(env: Env, e: Expr, at: nat)
    requires e.Lit? || e.Ref?
    ensures LoadsTo(env, Code(env, e, at, false), Code(env, e, at, true), at)
  {
    hide LoadsTo;
    match e
    case Lit(t, v) => LoadsPair(env, PUSH + Letter(t), v, at);
    case Ref(whole, mem, pos, attr) => LoadsPair(env, if whole then PUSHO else PUSHS + Letter(TypeOf(env, e)), Num(Pack(mem, pos, attr)), at);
  }

  lemma PairLoads(env: Env, e: Expr, at: nat)
    requires e.Rel? || e.And? || e.Calc?
    requires LoadsTo(env, Code(env, e.l, at, false) + Code(env, e.r, at + Len(e.l), false), Code(env, e.l, at, true) + Code(env, e.r, at + Len(e.l), true), at)
    ensures LoadsTo(env, Code(env, e, at, false), Code(env, e, at, true), at)
  {
    hide LoadsTo;
    var w, l := Code(env, e.l, at, false) + Code(env, e.r, at + Len(e.l), false), Code(env, e.l, at, true) + Code(env, e.r, at + Len(e.l), true);
    match e
    case Rel(t, a, _) => LoadsThen(env, w, l, TEQ + TestCode(t) + Letter(TypeOf(env, a)), at);
    case Calc(op, a, _) => LoadsThen(env, w, l, ADD_OP + ArithCode(op) + Letter(TypeOf(env, a)), at);
    case _ =>
  }

  lemma OneLoads(env: Env, e: Expr, at: nat)
    requires (e.Not? || e.TTrue? || e.TFalse? || e.Minus? || e.Cast?) && LoadsTo(env, Code(env, e.e, at, false), Code(env, e.e, at, true), at)
    ensures LoadsTo(env, Code(env, e, at, false), Code(env, e, at, true), at)
  {
    hide LoadsTo;
    if !e.Cast? { LoadsThen(env, Code(env, e.e, at, false), Code(env, e.e, at, true), OpWord(env, e), at); }
  }

  lemma OrLoads(env: Env, e: Expr, at: nat)
    requires e.Or? && LoadsTo(env, Body(env, e, at + 2 + Count(e), false), Body(env, e, at + 2 + Count(e), true), at + 2 + Count(e))
    ensures LoadsTo(env, Code(env, e, at, false), Code(env, e, at, true), at)
  {
    hide LoadsTo, Body, Ends;
    var n := Count(e);
    LoadsTable(env, e, at);
    EndsLength(e, 0);
    EndsLength(e, at + 2 + n);
    LoadsBoth(env, [Num(TOR), Num(n)] + Ends(e, 0), [Num(TOR), Num(n)] + Ends(e, at + 2 + n),
      Body(env, e, at + 2 + n, false), Body(env, e, at + 2 + n, true), at);
  }

  lemma TNotCode(env: Env, e: Expr, at: nat)
    requires e.TNot?
    ensures Code(env, e, at, false) == Code(env, e, at, true) == []
  {}

  lemma EvalLoads(env: Env, e: Expr, at: nat)
    requires e.Eval? && LoadsTo(env, Code(env, e.e, at + 2, false), Code(env, e.e, at + 2, true), at + 2)
    ensures LoadsTo(env, Code(env, e, at, false), Code(env, e, at, true), at)
  {
    hide LoadsTo;
    var w := [Num(EVAL), Num(Len(e.e))];
    LoadsPair(env, EVAL, Num(Len(e.e)), at);
    LoadsBoth(env, w, w, Code(env, e.e, at + 2, false), Code(env, e.e, at + 2, true), at);
  }

  lemma CallLoads(env: Env, e: Expr, at: nat)
    requires e.Call? && LoadsTo(env, CodeArgs(env, e.args, at, false), CodeArgs(env, e.args, at, true), at)
    ensures LoadsTo(env, Code(env, e, at, false), Code(env, e, at, true), at)
  {
    hide LoadsTo, CodeArgs;
    var n := CountArgs(e.args);
    LoadsCall(env, e.name, n, at + LenArgs(e.args));
    LoadsBoth(env, CodeArgs(env, e.args, at, false), CodeArgs(env, e.args, at, true), [Num(FCALL), Num(0), Num(e.name), Num(n)],
      [Num(FCALL), Num(env.bind(e.name)), Num(e.name), Num(n)], at);
  }

  lemma LoadsThen(env: Env, w: seq<Value>, l: seq<Value>, op: int, at: int)
    requires LoadsTo(env, w, l, at) && op < FCALL && op != TOR && op != EVAL
    ensures LoadsTo(env, w + [Num(op)], l + [Num(op)], at)
  {
    hide LoadsTo;
    LoadsOp(env, op, at + |w|);
    LoadsBoth(env, w, l, [Num(op)], [Num(op)], at);
  }

  lemma {:induction false} LoadPairIsCode(env: Env, e: Expr, at: nat)
    requires e.Rel? || e.And? || e.Calc?
    ensures LoadsTo(env, Code(env, e.l, at, false) + Code(env, e.r, at + Len(e.l), false), Code(env, e.l, at, true) + Code(env, e.r, at + Len(e.l), true), at)
    decreases e, 0
  {
    hide LoadsTo;
    LoadIsCode(env, e.l, at);
    LoadIsCode(env, e.r, at + Len(e.l));
    LoadsBoth(env, Code(env, e.l, at, false), Code(env, e.l, at, true), Code(env, e.r, at + Len(e.l), false), Code(env, e.r, at + Len(e.l), true), at);
  }

  lemma {:induction false} LoadIsBody(env: Env, e: Expr, at: nat)
    requires e.Or?
    ensures LoadsTo(env, Body(env, e, at, false), Body(env, e, at, true), at)
    decreases e, 0
  {
    hide LoadsTo, Code;
    var next := at + Len(e.l);
    LoadIsCode(env, e.l, at);
    if e.r.Or? {
      LoadIsBody(env, e.r, next);
      LoadsBoth(env, Code(env, e.l, at, false), Code(env, e.l, at, true), Body(env, e.r, next, false), Body(env, e.r, next, true), at);
    } else {
      LoadIsCode(env, e.r, next);
      LoadsBoth(env, Code(env, e.l, at, false), Code(env, e.l, at, true), Code(env, e.r, next, false), Code(env, e.r, next, true), at);
    }
  }

  lemma {:induction false} LoadIsCodeArgs(env: Env, args: Args, at: nat)
    ensures LoadsTo(env, CodeArgs(env, args, at, false), CodeArgs(env, args, at, true), at)
    decreases args, 0
  {
    hide LoadsTo, Code;
    match args
    case NoArg => LoadsNothing(env, at);
    case Arg(e, next) =>
      LoadIsCode(env, e, at);
      LoadIsCodeArgs(env, next, at + Len(e));
      LoadsBoth(env, Code(env, e, at, false), Code(env, e, at, true), CodeArgs(env, next, at + Len(e), false), CodeArgs(env, next, at + Len(e), true), at);
  }

  lemma LoadAll(env: Env, e: Expr, at: nat)
    ensures Load(env, Code(env, e, at, false), at) == Code(env, e, at, true)
  {
    var w := Code(env, e, at, false);
    LoadIsCode(env, e, at);
    assert w + [] == w;
    LoadNone(env, [], at + |w|);
    assert Load(env, w + [], at) == Code(env, e, at, true) + [];
  }

  /** The compiler's words do not depend on where they will be loaded. */
  lemma {:induction false} Movable(env: Env, e: Expr, at: nat, to: nat)
    ensures Code(env, e, at, false) == Code(env, e, to, false)
    decreases e, 1
  {
    match e
    case Lit(_, _) =>
    case Ref(_, _, _, _) =>
    case Rel(_, l, r) => Movable(env, l, at, to); Movable(env, r, at + Len(l), to + Len(l));
    case And(l, r) => Movable(env, l, at, to); Movable(env, r, at + Len(l), to + Len(l));
    case Calc(_, l, r) => Movable(env, l, at, to); Movable(env, r, at + Len(l), to + Len(l));
    case Or(_, _) => MovableBody(env, e, at + 2 + Count(e), to + 2 + Count(e));
    case TNot(_) =>
    case Eval(x) => Movable(env, x, at + 2, to + 2);
    case Call(_, args) => MovableArgs(env, args, at, to);
    case _ => Movable(env, e.e, at, to);
  }

  lemma {:induction false} MovableBody(env: Env, e: Expr, at: nat, to: nat)
    requires e.Or?
    ensures Body(env, e, at, false) == Body(env, e, to, false)
    decreases e, 0
  {
    hide Code;
    Movable(env, e.l, at, to);
    if e.r.Or? { MovableBody(env, e.r, at + Len(e.l), to + Len(e.l)); } else { Movable(env, e.r, at + Len(e.l), to + Len(e.l)); }
  }

  lemma {:induction false} MovableArgs(env: Env, args: Args, at: nat, to: nat)
    ensures CodeArgs(env, args, at, false) == CodeArgs(env, args, to, false)
    decreases args, 0
  {
    match args
    case NoArg =>
    case Arg(e, next) => Movable(env, e, at, to); MovableArgs(env, next, at + Len(e), to + Len(e));
  }
}
