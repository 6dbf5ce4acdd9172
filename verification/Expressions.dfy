/** The conditions of a rule: their types, and what they mean in an environment. */
module Expressions {
  import opened Wrappers

  datatype Type = STR | NUM | FLO | CHAR | BOOL | PATTERN

  /** What a stack slot, an attribute or a code word holds. */
  datatype Value = Num(num: int) | Flo(flo: real) | Str(str: Option<string>)

  datatype Test = EQ | NE | LT | GT | LE | GE
  datatype Arith = ADD | SUB | MUL | DIV

  /** An expression tree. Not, TTrue, TFalse and Eval are put in by the type check, between conditions
      decided by the flow of control and booleans kept on the stack. */
  datatype Expr =
    | Lit(typ: Type, val: Value)
    | Ref(whole: bool, mem: int, pos: int, attr: int)   // a matched object, or one of its attributes
    | Rel(test: Test, l: Expr, r: Expr)
    | And(l: Expr, r: Expr)
    | Or(l: Expr, r: Expr)
    | TNot(e: Expr)
    | Not(e: Expr)
    | TTrue(e: Expr)
    | TFalse(e: Expr)
    | Eval(e: Expr)
    | Calc(op: Arith, l: Expr, r: Expr)
    | Minus(e: Expr)
    | Call(name: int, args: Args)
    | Cast(to: Type, e: Expr)

  datatype Args = NoArg | Arg(e: Expr, next: Args)

  /** The declaration of a user function. */
  datatype Signature = Signature(params: seq<Type>, more: bool, result: Type)

  /** The matched objects and the user functions. */
  datatype Env = Env(
    fetch: (int, int, int) -> Value,       // an attribute, by memory side, position and number
    attrType: (int, int, int) -> Type,
    objectAt: (int, int) -> Value,         // the object itself
    bind: int -> int,                      // the function of a name
    apply: (int, seq<Value>) -> Value,
    signature: int -> Signature)

  function Read(env: Env, e: Expr): Value
    requires e.Ref?
  {
    if e.whole then env.objectAt(e.mem, e.pos) else env.fetch(e.mem, e.pos, e.attr)
  }

  predicate Holds(v: Value) { v.Num? && v.num != 0 }

  function Truth(b: bool): Value { Num(if b then 1 else 0) }

  /** The order of two strings: the null string comes first. */
  function CompareStrings(a: string, b: string): int {
    if a == [] then (if b == [] then 0 else -1)
    else if b == [] then 1
    else if a[0] != b[0] then (if a[0] < b[0] then -1 else 1)
    else CompareStrings(a[1..], b[1..])
  }

  function Compare(a: Value, b: Value): int {
    match (a, b)
    case (Num(x), Num(y)) => x - y
    case (Flo(x), Flo(y)) => if x == y then 0 else if x < y then -1 else 1
    case (Str(None), Str(None)) => 0
    case (Str(None), Str(Some(_))) => -1
    case (Str(Some(_)), Str(None)) => 1
    case (Str(Some(x)), Str(Some(y))) => CompareStrings(x, y)
    case _ => 0
  }

  predicate Passes(test: Test, order: int) {
    match test
    case EQ => order == 0
    case NE => order != 0
    case LT => order < 0
    case GT => order > 0
    case LE => order <= 0
    case GE => order >= 0
  }

  /** Integer division that truncates toward zero. */
  function Quotient(a: int, b: int): int
    requires b != 0
  {
    if a >= 0 then (if b > 0 then a / b else -(a / -b)) else if b > 0 then -(-a / b) else -a / -b
  }

  /** Nothing for a division by zero. */
  function Calculate(op: Arith, a: Value, b: Value): Option<Value> {
    match (a, b)
    case (Num(x), Num(y)) => (
      match op
      case ADD => Some(Num(x + y))
      case SUB => Some(Num(x - y))
      case MUL => Some(Num(x * y))
      case DIV => if y == 0 then None else Some(Num(Quotient(x, y))))
    case (Flo(x), Flo(y)) => (
      match op
      case ADD => Some(Flo(x + y))
      case SUB => Some(Flo(x - y))
      case MUL => Some(Flo(x * y))
      case DIV => if y == 0.0 then None else Some(Flo(x / y)))
    case _ => None
  }

  function Negative(v: Value): Value {
    match v case Num(x) => Num(-x) case Flo(x) => Flo(-x) case Str(_) => v
  }

  // ---------- what the operations are ----------

  /** a comes before b: at the first place where they differ, or as a part at its beginning. */
  predicate Precedes(a: string, b: string) {
    exists k :: 0 <= k <= |a| && k < |b| && SameUpTo(a, b, k) && (k == |a| || a[k] < b[k])
  }

  predicate SameUpTo(a: string, b: string, k: nat)
    requires k <= |a| && k <= |b|
  {
    forall i :: 0 <= i < k ==> a[i] == b[i]
  }

  lemma {:induction false} FirstDifference(a: string, b: string) returns (k: nat)
    ensures k <= |a| && k <= |b| && SameUpTo(a, b, k)
    ensures CompareStrings(a, b) ==
      if k == |a| then (if k == |b| then 0 else -1) else if k == |b| then 1 else if a[k] < b[k] then -1 else 1
    ensures k < |a| && k < |b| ==> a[k] != b[k]
  {
    if a == [] || b == [] || a[0] != b[0] {
      k := 0;
    } else {
      k := FirstDifference(a[1..], b[1..]);
      k := k + 1;
      assert forall i :: 0 < i < k ==> a[i] == a[1..][i - 1] && b[i] == b[1..][i - 1];
    }
  }

  /** The comparison of strings is negative, positive or 0 exactly if the one, the other or neither comes first. */
  lemma CompareStringsMeans(a: string, b: string)
    ensures CompareStrings(a, b) < 0 <==> Precedes(a, b)
    ensures CompareStrings(a, b) > 0 <==> Precedes(b, a)
    ensures CompareStrings(a, b) == 0 <==> a == b
  {
    var k := FirstDifference(a, b);
    assert SameUpTo(b, a, k);
    forall j | 0 <= j <= |a| && j < |b| && SameUpTo(a, b, j) && (j == |a| || a[j] < b[j]) ensures j == k {}
    forall j | 0 <= j <= |b| && j < |a| && SameUpTo(b, a, j) && (j == |b| || b[j] < a[j]) ensures j == k {}
    if CompareStrings(a, b) == 0 { assert a == b; }
  }

  /** x taken y times. */
  function Times(x: int, y: int): int
    decreases if y < 0 then -y else y
  {
    if y == 0 then 0 else if y > 0 then Times(x, y - 1) + x else Times(x, y + 1) - x
  }

  lemma {:induction false} TimesIs(x: int, y: int)
    ensures Times(x, y) == x * y
    decreases if y < 0 then -y else y
  {
    if y > 0 { TimesIs(x, y - 1); } else if y < 0 { TimesIs(x, y + 1); }
  }

  function Size(x: int): nat { if x < 0 then -x else x }

  /** v is the sum, the difference, the product or the quotient of a and b, said by how to get back from it. */
  predicate Results(op: Arith, a: Value, b: Value, v: Value) {
    match (a, b, v)
    case (Num(x), Num(y), Num(z)) => (
      match op
      case ADD => z - y == x
      case SUB => z + y == x
      case MUL => z == Times(x, y)
      case DIV => var r := x - Times(z, y); Size(r) < Size(y) && (r == 0 || (r > 0 <==> x > 0)))
    case (Flo(x), Flo(y), Flo(z)) => (
      match op
      case ADD => z - y == x
      case SUB => z + y == x
      case MUL => if y == 0.0 then z == 0.0 else z / y == x
      case DIV => y != 0.0 && z * y == x)
    case _ => false
  }

  predicate IsZero(v: Value) { v == Num(0) || v == Flo(0.0) }

  lemma QuotientIs(x: int, y: int)
    requires y != 0
    ensures Quotient(x, y) == if (x < 0) == (y < 0) then Size(x) / Size(y) else -(Size(x) / Size(y))
  {}

  lemma DivMod(u: nat, v: nat)
    requires v > 0
    ensures 0 <= u / v * v <= u < u / v * v + v
  {}

  lemma Signs(q: int, y: int)
    ensures q * -y == -(q * y) && -q * y == -(q * y) && -q * -y == q * y
  {}

  lemma ProductIs(x: int, y: int)
    requires y != 0
    ensures var p := Size(x) / Size(y) * Size(y); Quotient(x, y) * y == if x < 0 then -p else p
  {
    QuotientIs(x, y);
    Signs(Size(x) / Size(y), Size(y));
    hide Quotient;
  }

  lemma Remains(x: int, y: int, p: int, q: int)
    requires 0 <= p <= Size(x) < p + Size(y) && q == if x < 0 then -p else p
    ensures var r := x - q; Size(r) < Size(y) && (r == 0 || (r > 0 <==> x > 0))
  {}

  lemma QuotientLaw(x: int, y: int)
    requires y != 0
    ensures var r := x - Quotient(x, y) * y; Size(r) < Size(y) && (r == 0 || (r > 0 <==> x > 0))
  {
    hide *;
    SizeIs(y);
    ProductIs(x, y);
    DivMod(Size(x), Size(y));
    Remains(x, y, Size(x) / Size(y) * Size(y), Quotient(x, y) * y);
  }

  lemma SizeIs(y: int)
    ensures Size(y) > 0 <==> y != 0
  {}

  /** Arithmetic on two numbers or two floats is right, and missing exactly for a division by zero. */
  lemma CalculateMeans(op: Arith, a: Value, b: Value)
    requires (a.Num? && b.Num?) || (a.Flo? && b.Flo?)
    ensures Calculate(op, a, b).None? <==> op == DIV && IsZero(b)
    ensures Calculate(op, a, b).Some? ==> Results(op, a, b, Calculate(op, a, b).value)
  {
    if a.Num? && b.Num? {
      TimesIs(a.num, b.num);
      if op == DIV && b.num != 0 {
        QuotientLaw(a.num, b.num);
        TimesIs(Quotient(a.num, b.num), b.num);
      }
      hide Quotient;
    }
  }

  /** A value and its negative sum to zero. */
  lemma NegativeMeans(v: Value)
    requires v.Num? || v.Flo?
    ensures Calculate(ADD, v, Negative(v)).Some? && IsZero(Calculate(ADD, v, Negative(v)).value)
    ensures Negative(v).Num? == v.Num?
  {}

  /** The value of an expression, or nothing if a division by zero is met on the way. */
  function Sem(env: Env, e: Expr): Option<Value> {
    match e
    case Lit(_, v) => Some(v)
    case Ref(_, _, _, _) => Some(Read(env, e))
    case Rel(t, l, r) =>
      var a, b := Sem(env, l), Sem(env, r);
      if a.Some? && b.Some? then Some(Truth(Passes(t, Compare(a.value, b.value)))) else None
    case And(l, r) =>
      var a := Sem(env, l);
      if a.Some? && Holds(a.value) then Whether(Sem(env, r)) else Whether(a)
    case Or(l, r) =>
      var a := Sem(env, l);
      if a.Some? && !Holds(a.value) then Whether(Sem(env, r)) else Whether(a)
    case TNot(x) => Opposite(Sem(env, x))
    case Not(x) => Opposite(Sem(env, x))
    case TTrue(x) => Whether(Sem(env, x))
    case TFalse(x) => Opposite(Sem(env, x))
    case Eval(x) => Whether(Sem(env, x))
    case Calc(op, l, r) =>
      var a, b := Sem(env, l), Sem(env, r);
      if a.Some? && b.Some? then Calculate(op, a.value, b.value) else None
    case Minus(x) =>
      var a := Sem(env, x);
      if a.Some? then Some(Negative(a.value)) else None
    case Call(name, args) =>
      var vs := SemArgs(env, args);
      if vs.Some? then Some(env.apply(env.bind(name), vs.value)) else None
    case Cast(_, x) => Sem(env, x)
  }

  function SemArgs(env: Env, args: Args): Option<seq<Value>> {
    match args
    case NoArg => Some([])
    case Arg(e, next) =>
      var v, vs := Sem(env, e), SemArgs(env, next);
      if v.Some? && vs.Some? then Some([v.value] + vs.value) else None
  }

  function CountArgs(args: Args): nat {
    match args case NoArg => 0 case Arg(_, next) => 1 + CountArgs(next)
  }

  function Whether(v: Option<Value>): Option<Value> { if v.Some? then Some(Truth(Holds(v.value))) else None }
  function Opposite(v: Option<Value>): Option<Value> { if v.Some? then Some(Truth(!Holds(v.value))) else None }

  // ---------- types ----------

  /** Booleans, characters and objects are kept as numbers. */
  predicate HasType(v: Value, t: Type) {
    match t case STR => v.Str? case FLO => v.Flo? case _ => v.Num?
  }

  function TypeOf(env: Env, e: Expr): Type {
    match e
    case Lit(t, _) => t
    case Ref(whole, mem, pos, attr) => if whole then PATTERN else env.attrType(mem, pos, attr)
    case Calc(_, l, _) => TypeOf(env, l)
    case Minus(x) => TypeOf(env, x)
    case Call(name, _) => env.signature(name).result
    case Cast(to, _) => to
    case _ => BOOL
  }

  /** Conditions decided by the flow of control leave nothing on the stack. */
  predicate Control(e: Expr) {
    e.Rel? || e.And? || e.Or? || e.TNot? || e.TTrue? || e.TFalse?
  }

  predicate Castable(t: Type) { t == NUM || t == CHAR || t == BOOL || t == PATTERN }

  /** A constant, or a reference whose parts fit their fields in a code word. */
  predicate Leaf(env: Env, e: Expr) {
    match e
    case Lit(t, v) => HasType(v, t) && t != PATTERN && (t == BOOL ==> v == Truth(false) || v == Truth(true))
    case Ref(whole, mem, pos, attr) =>
      0 <= mem < 2 && 0 <= pos < 0x80 && 0 <= attr < 0x100 && if whole then attr == 0 else attr == 0 ==> env.attrType(mem, pos, attr) != PATTERN
    case _ => true
  }

  /** What the type check makes sure of. */
  predicate Checked(env: Env, e: Expr)
    decreases e, 0
  {
    match e
    case Lit(_, _) => Leaf(env, e)
    case Ref(_, _, _, _) => Leaf(env, e)
    case Rel(_, l, r) => OnStack(env, l) && OnStack(env, r) && TypeOf(env, l) == TypeOf(env, r)
    case And(l, r) => InControl(env, l) && InControl(env, r)
    case Or(l, r) => InControl(env, l) && InControl(env, r)
    case TNot(x) => InControl(env, x)
    case Not(x) => OnStack(env, x) && TypeOf(env, x) == BOOL
    case TTrue(x) => OnStack(env, x) && TypeOf(env, x) == BOOL
    case TFalse(x) => OnStack(env, x) && TypeOf(env, x) == BOOL
    case Eval(x) => InControl(env, x)
    case Calc(_, l, r) =>
      OnStack(env, l) && OnStack(env, r) && TypeOf(env, l) == TypeOf(env, r) && (TypeOf(env, l) == NUM || TypeOf(env, l) == FLO)
    case Minus(x) => OnStack(env, x) && (TypeOf(env, x) == NUM || TypeOf(env, x) == FLO)
    case Call(name, args) => CheckedArgs(env, args)
    case Cast(to, x) => OnStack(env, x) && Castable(TypeOf(env, x)) && Castable(to)
  }

  predicate OnStack(env: Env, e: Expr)
    decreases e, 1
  {
    Checked(env, e) && !Control(e)
  }

  predicate InControl(env: Env, e: Expr)
    decreases e, 1
  {
    Checked(env, e) && Control(e)
  }

  predicate CheckedArgs(env: Env, args: Args)
    decreases args, 2
  {
    match args case NoArg => true case Arg(e, next) => OnStack(env, e) && CheckedArgs(env, next)
  }

  /** Attributes and function results are of their types. */
  ghost predicate Typed(env: Env) {
    && (forall mem, pos, attr :: HasType(env.fetch(mem, pos, attr), env.attrType(mem, pos, attr)))
    && (forall mem, pos :: env.objectAt(mem, pos).Num?)
    && (forall name, vs :: HasType(env.apply(env.bind(name), vs), env.signature(name).result))
  }

  /** The value of a checked expression is of its type. */
  lemma {:induction false} SemTyped(env: Env, e: Expr)
    requires Typed(env) && Checked(env, e) && Sem(env, e).Some?
    ensures HasType(Sem(env, e).value, TypeOf(env, e))
  {
    match e
    case Calc(_, l, r) => SemTyped(env, l); SemTyped(env, r);
    case Minus(x) => SemTyped(env, x);
    case Cast(_, x) => SemTyped(env, x);
    case _ =>
  }
}
