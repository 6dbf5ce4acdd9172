/** The stack machine that runs the code of a node. */
module Machine {
  import opened Wrappers
  import opened Expressions

  const ADD_OP := 0x100
  const MINUS_OP := 0x110
  const TOR := 0x201
  const TTRUE := 0x203
  const TFALSE := 0x204
  const EVAL := 0x205
  const NOT := 0x206
  const TEQ := 0x210
  const FCALL := 0x300
  const PUSH := 0x400
  const PUSHS := 0x404
  const PUSHO := 0x410

  // The low two bits of a typed opcode.
  const A := 0   // strings
  const N := 1   // numbers
  const F := 2   // floats

  function Letter(t: Type): nat { match t case STR => A case FLO => F case _ => N }

  function TestCode(t: Test): nat { match t case EQ => 0 case NE => 4 case LT => 8 case GT => 12 case LE => 16 case GE => 20 }
  function ArithCode(op: Arith): nat { match op case ADD => 0 case SUB => 4 case MUL => 8 case DIV => 12 }

  function TestOf(n: int): Test {
    if n < 4 then EQ else if n < 8 then NE else if n < 12 then LT else if n < 16 then GT else if n < 20 then LE else GE
  }
  function ArithOf(n: int): Arith { if n < 4 then ADD else if n < 8 then SUB else if n < 12 then MUL else DIV }

  /** The operand of an access: the memory side in bit 15, the position in 7 bits, the attribute in 8. */
  function Pack(mem: int, pos: int, attr: int): int { mem * 0x8000 + pos * 0x100 + attr }
  function MemOf(w: int): int { w / 0x8000 % 2 }
  function PosOf(w: int): int { w / 0x100 % 0x80 }
  function AttrOf(w: int): int { w % 0x100 }

  lemma Unpack(mem: int, pos: int, attr: int)
    requires 0 <= mem < 2 && 0 <= pos < 0x80 && 0 <= attr < 0x100
    ensures var w := Pack(mem, pos, attr); MemOf(w) == mem && PosOf(w) == pos && AttrOf(w) == attr
  {
    var w := Pack(mem, pos, attr);
    assert w / 0x100 == mem * 0x80 + pos;
    assert w / 0x8000 == mem;
  }

  /** Only what fits in 1, 7 and 8 bits comes back. */
  lemma PackFits(mem: int, pos: int, attr: int)
    ensures var w := Pack(mem, pos, attr);
      MemOf(w) == mem && PosOf(w) == pos && AttrOf(w) == attr <==> 0 <= mem < 2 && 0 <= pos < 0x80 && 0 <= attr < 0x100
  {
    if 0 <= mem < 2 && 0 <= pos < 0x80 && 0 <= attr < 0x100 { Unpack(mem, pos, attr); }
  }

  /** A leaf that can be compiled: a constant of its type, or an access that fits in a word, to an object as a
      whole or to an attribute, but not to attribute 0 in place of the object. */
  lemma LeafMeans(env: Env, e: Expr)
    requires e.Lit? || e.Ref?
    ensures e.Lit? ==> (Leaf(env, e) <==>
      match e.typ
      case STR => e.val.Str?
      case FLO => e.val.Flo?
      case BOOL => e.val == Num(0) || e.val == Num(1)
      case PATTERN => false
      case _ => e.val.Num?)
    ensures e.Ref? ==> (Leaf(env, e) <==>
      var w := Pack(e.mem, e.pos, e.attr);
      && MemOf(w) == e.mem && PosOf(w) == e.pos && AttrOf(w) == e.attr
      && if e.whole then e.attr == 0 else e.attr != 0 || env.attrType(e.mem, e.pos, 0) != PATTERN)
  {
    if e.Ref? { PackFits(e.mem, e.pos, e.attr); }
    hide MemOf, PosOf, AttrOf;
  }

  /** One word of code, or nothing past its end. */
  function Word(code: seq<Value>, pc: int): Option<int> {
    if 0 <= pc < |code| && code[pc].Num? then Some(code[pc].num) else None
  }

  /** A string test as its opcode decides it, with the null string looked at first. */
  predicate TestStrings(t: Test, x: Option<string>, y: Option<string>) {
    match t
    case EQ => if x.None? then y.None? else y.Some? && CompareStrings(x.value, y.value) == 0
    case NE => if x.None? then y.Some? else y.None? || CompareStrings(x.value, y.value) != 0
    case LT => y.Some? && (x.None? || CompareStrings(x.value, y.value) < 0)
    case LE => x.None? || (y.Some? && CompareStrings(x.value, y.value) <= 0)
    case GE => y.None? || (x.Some? && CompareStrings(x.value, y.value) >= 0)
    case GT => x.Some? && (y.None? || CompareStrings(x.value, y.value) > 0)
  }

  /** A test on the two top values, of the letter of the opcode; nothing if they are of another kind. */
  function RunTest(t: Test, letter: int, a: Value, b: Value): Option<bool> {
    match (a, b)
    case (Num(x), Num(y)) => if letter == N then Some(Passes(t, x - y)) else None
    case (Flo(x), Flo(y)) => (
      if letter != F then None
      else match t
        case EQ => Some(x == y) case NE => Some(x != y) case LT => Some(x < y)
        case GT => Some(x > y) case LE => Some(x <= y) case GE => Some(x >= y))
    case (Str(x), Str(y)) => if letter == A then Some(TestStrings(t, x, y)) else None
    case _ => None
  }

  function RunArith(op: Arith, letter: int, a: Value, b: Value): Option<Value> {
    if (letter == N && a.Num? && b.Num?) || (letter == F && a.Flo? && b.Flo?) then Calculate(op, a, b) else None
  }

  lemma RunTestIs(t: Test, a: Value, b: Value, typ: Type)
    requires HasType(a, typ) && HasType(b, typ)
    ensures RunTest(t, Letter(typ), a, b) == Some(Passes(t, Compare(a, b)))
  {}

  lemma RunArithIs(op: Arith, a: Value, b: Value, typ: Type)
    requires HasType(a, typ) && HasType(b, typ) && (typ == NUM || typ == FLO)
    ensures RunArith(op, Letter(typ), a, b) == Calculate(op, a, b)
  {}

  /** The code of a node, with the objects and functions it reaches. */
  datatype Program = Program(code: seq<Value>, env: Env)

  /** Where an operation leaves the machine, and whether the object goes on; or a fault. */
  datatype Out = Fault | Out(go: bool, pc: nat, stack: seq<Value>)

  function Drop(st: seq<Value>, k: nat): seq<Value>
    requires k <= |st|
  {
    st[..|st| - k]
  }

  function Top(st: seq<Value>): Value
    requires st != []
  {
    st[|st| - 1]
  }

  /** The operation at pc. */
  function Step(p: Program, pc: nat, st: seq<Value>): (o: Out)
    requires pc < |p.code|
    ensures o.Out? ==> pc < o.pc <= |p.code|
    decreases |p.code| - pc, 2, 0
  {
    var w := Word(p.code, pc);
    if w.None? then Fault
    else if w.value == EVAL then RunEval(p, pc, st)
    else if w.value == TOR then RunTor(p, pc, st)
    else if w.value == FCALL then RunCall(p, pc, st)
    else if PUSH <= w.value <= PUSHO then RunPush(p, pc, st, w.value)
    else RunStack(p, pc, st, w.value)
  }

  /** The operations that only work on the stack. */
  function RunStack(p: Program, pc: nat, st: seq<Value>, op: int): (o: Out)
    requires pc < |p.code|
    ensures o.Out? ==> o.pc == pc + 1
  {
    var n := |st|;
    if op == TTRUE || op == TFALSE then
      if n > 0 && Top(st).Num? then Out((Top(st).num != 0) == (op == TTRUE), pc + 1, Drop(st, 1)) else Fault
    else if op == NOT then
      if n > 0 && Top(st).Num? then Out(true, pc + 1, Drop(st, 1) + [Truth(Top(st).num == 0)]) else Fault
    else if TEQ <= op < TEQ + 24 then
      if n < 2 then Fault else
      var r := RunTest(TestOf(op - TEQ), op % 4, st[n - 2], st[n - 1]);
      if r.None? then Fault else Out(r.value, pc + 1, Drop(st, 2))
    else if ADD_OP <= op < MINUS_OP then
      if n < 2 then Fault else
      var r := RunArith(ArithOf(op - ADD_OP), op % 4, st[n - 2], st[n - 1]);
      if r.None? then Fault else Out(true, pc + 1, Drop(st, 2) + [r.value])
    else if op == MINUS_OP + N || op == MINUS_OP + F then
      if n > 0 && (if op == MINUS_OP + N then Top(st).Num? else Top(st).Flo?) then
        Out(true, pc + 1, Drop(st, 1) + [Negative(Top(st))])
      else Fault
    else Fault
  }

  /** Constants, attributes and objects. */
  function RunPush(p: Program, pc: nat, st: seq<Value>, op: int): (o: Out)
    requires pc < |p.code|
    ensures o.Out? ==> o.pc == pc + 2 <= |p.code|
  {
    if pc + 2 > |p.code| then Fault
    else if PUSH <= op <= PUSH + F then Out(true, pc + 2, st + [p.code[pc + 1]])
    else
      var w := Word(p.code, pc + 1);
      if w.None? then Fault
      else if PUSHS <= op <= PUSHS + F then Out(true, pc + 2, st + [p.env.fetch(MemOf(w.value), PosOf(w.value), AttrOf(w.value))])
      else if op == PUSHO then Out(true, pc + 2, st + [p.env.objectAt(MemOf(w.value), PosOf(w.value))])
      else Fault
  }

  /** The function whose pointer the loader has put behind the opcode, on its n arguments. */
  function RunCall(p: Program, pc: nat, st: seq<Value>): (o: Out)
    requires pc < |p.code|
    ensures o.Out? ==> o.pc == pc + 4 <= |p.code|
  {
    var f, n := Word(p.code, pc + 1), Word(p.code, pc + 3);
    if f.None? || n.None? || !(0 <= n.value <= |st|) then Fault
    else Out(true, pc + 4, Drop(st, n.value) + [p.env.apply(f.value, st[|st| - n.value..])])
  }

  /** Runs the code behind, and puts on the stack whether it went on to its end. */
  function RunEval(p: Program, pc: nat, st: seq<Value>): (o: Out)
    requires pc < |p.code|
    ensures o.Out? ==> pc < o.pc <= |p.code|
    decreases |p.code| - pc, 1, 0
  {
    var len := Word(p.code, pc + 1);
    if len.None? || len.value < 0 || pc + 2 + len.value > |p.code| then Fault
    else
      var r := Run(p, pc + 2, st, pc + 2 + len.value);
      if r.Fault? then Fault else Out(true, pc + 2 + len.value, r.stack + [Truth(r.go)])
  }

  /** Tries alternatives in turn: a table of n offsets says where each ends. */
  function RunTor(p: Program, pc: nat, st: seq<Value>): (o: Out)
    requires pc < |p.code|
    ensures o.Out? ==> pc < o.pc <= |p.code|
    decreases |p.code| - pc, 1, 1
  {
    var n := Word(p.code, pc + 1);
    if n.None? || n.value < 1 || pc + 2 + n.value > |p.code| then Fault
    else Alternatives(p, pc, n.value, 0, pc + 2 + n.value, st)
  }

  function Alternatives(p: Program, tor: nat, n: nat, k: nat, pc: nat, st: seq<Value>): (o: Out)
    requires tor < pc <= |p.code| && k < n
    ensures o.Out? ==> tor < o.pc <= |p.code|
    decreases |p.code| - tor, 0, n - k
  {
    var end, last := Word(p.code, tor + 2 + k), Word(p.code, tor + 1 + n);
    if end.None? || last.None? || !(pc <= end.value <= |p.code|) then Fault
    else
      var r := Run(p, pc, st, end.value);
      if r.Fault? then Fault
      else if r.go then (if tor < last.value <= |p.code| then Out(true, last.value, r.stack) else Fault)
      else if k + 1 < n then Alternatives(p, tor, n, k + 1, end.value, r.stack)
      else Out(false, end.value, r.stack)
  }

  /** Operations one after the other, until one does not go on or the end is reached. */
  function Run(p: Program, pc: nat, st: seq<Value>, end: nat): (o: Out)
    requires pc <= |p.code|
    ensures o.Out? ==> pc <= o.pc <= |p.code|
    decreases |p.code| - pc, 3, 0
  {
    if pc == end then Out(true, pc, st)
    else if pc > end || pc == |p.code| then Fault
    else
      var r := Step(p, pc, st);
      if r.Fault? || !r.go then r else Run(p, r.pc, r.stack, end)
  }
}
