/** Equality tests that are moved from the code of a join into the keys of its index. */
module Keys {
  import opened Wrappers
  import opened Expressions
  import opened Machine

  const SIDE := 0x8000         // the side bit of an access, and the weight of the left field of a key
  const TYPE := 0x4000_0000    // the weight of the type of a key

  predicate PushesAttribute(w: Option<int>) { w.Some? && PUSHS <= w.value <= PUSHS + F }
  predicate TestsEqual(w: Option<int>) { w.Some? && TEQ <= w.value <= TEQ + F }

  /** The code begins with a test for equality of an attribute of each side. */
  predicate Indexable(code: seq<Value>) {
    && |code| >= 5 && PushesAttribute(Word(code, 0)) && PushesAttribute(Word(code, 2)) && TestsEqual(Word(code, 4))
    && code[1].Num? && code[3].Num? && code[1].num >= 0 && code[3].num >= 0 && MemOf(code[1].num) != MemOf(code[3].num)
  }

  /** The key of a test: type, place on the left, place on the right. */
  function PackKey(op: int, first: int, second: int): int {
    if MemOf(first) == 1 then second % SIDE * SIDE + first % SIDE + op % 4 * TYPE
    else first % SIDE * SIDE + second % SIDE + op % 4 * TYPE
  }

  /** The keys of the leading tests. */
  function KeysOf(code: seq<Value>): seq<int> {
    if Indexable(code) then [PackKey(code[0].num, code[1].num, code[3].num)] + KeysOf(code[5..]) else []
  }

  /** Scans the code for leading tests, and stops at the first thing that is not one. */
  method GetInterKeysInCode(code: seq<Value>) returns (keys: seq<int>)
    ensures keys == KeysOf(code)
  {
    hide KeysOf, PackKey, MemOf, Indexable;
    var offset, ok := 0, true;
    keys := [];
    assert code[0..] == code && [] + KeysOf(code) == KeysOf(code);
    while ok && offset + 5 <= |code|
      invariant 0 <= offset <= |code|
      invariant KeysOf(code) == keys + if ok then KeysOf(code[offset..]) else []
      decreases |code| - offset, ok
    {
      KeysNext(code, offset);
      ok := false;
      if PushesAttribute(Word(code, offset)) && PushesAttribute(Word(code, offset + 2)) && TestsEqual(Word(code, offset + 4)) {
        var first, second := code[offset + 1], code[offset + 3];
        if first.Num? && second.Num? && first.num >= 0 && second.num >= 0 && MemOf(first.num) != MemOf(second.num) {
          keys := keys + [PackKey(code[offset].num, first.num, second.num)];
          ok, offset := true, offset + 5;
        }
      }
    }
    if ok { TooShort(code[offset..]); }
  }

  lemma KeysNext(code: seq<Value>, offset: nat)
    requires offset + 5 <= |code|
    ensures var first, second := code[offset + 1], code[offset + 3];
      KeysOf(code[offset..]) ==
        if PushesAttribute(Word(code, offset)) && PushesAttribute(Word(code, offset + 2)) && TestsEqual(Word(code, offset + 4))
          && first.Num? && second.Num? && first.num >= 0 && second.num >= 0 && MemOf(first.num) != MemOf(second.num)
        then [PackKey(code[offset].num, first.num, second.num)] + KeysOf(code[offset + 5..])
        else []
  {
    hide MemOf, PackKey;
    var rest := code[offset..];
    assert rest[5..] == code[offset + 5..];
    assert Word(rest, 0) == Word(code, offset) && Word(rest, 2) == Word(code, offset + 2) && Word(rest, 4) == Word(code, offset + 4);
  }

  lemma TooShort(code: seq<Value>)
    requires |code| < 5
    ensures KeysOf(code) == []
  {}

  // ---------- reading a key ----------

  function KeyType(key: int): int { key / TYPE % 4 }

  /** The place of the attribute that a key means on a side: 7 bits of position, 8 of attribute. */
  function KeyPlace(key: int, side: int): int { (if side == 0 then key / SIDE else key) % SIDE }

  /** The value by which the index orders the items of a side. */
  function GetObjInfo(env: Env, key: int, side: int): Value {
    env.fetch(side, KeyPlace(key, side) / 0x100, KeyPlace(key, side) % 0x100)
  }

  /** Reading back a packed key gives the type and both places. */
  lemma KeyRoundTrip(op: int, first: int, second: int)
    requires first >= 0 && second >= 0 && MemOf(first) != MemOf(second)
    ensures var key := PackKey(op, first, second);
      && KeyType(key) == op % 4
      && KeyPlace(key, MemOf(first)) == first % SIDE && KeyPlace(key, MemOf(second)) == second % SIDE
  {
    var left, right := if MemOf(first) == 1 then second % SIDE else first % SIDE, if MemOf(first) == 1 then first % SIDE else second % SIDE;
    KeyFields(op % 4, left, right);
  }

  lemma KeyFields(t: int, left: int, right: int)
    requires 0 <= t < 4 && 0 <= left < SIDE && 0 <= right < SIDE
    ensures var key := left * SIDE + right + t * TYPE;
      KeyType(key) == t && KeyPlace(key, 0) == left && KeyPlace(key, 1) == right
  {
    var key := left * SIDE + right + t * TYPE;
    assert key == (left + t * SIDE) * SIDE + right;
    assert key / SIDE == left + t * SIDE;
  }

  lemma PlaceParts(w: int)
    requires w >= 0
    ensures w % SIDE / 0x100 == PosOf(w) && w % SIDE % 0x100 == AttrOf(w)
  {
    var q, r := w / SIDE, w % SIDE;
    assert w == q * SIDE + r;
    assert w / 0x100 == q * 0x80 + r / 0x100;
  }

  /** A key reads the very attributes that the two accesses of its test push. */
  lemma KeyReads(env: Env, op: int, first: int, second: int)
    requires first >= 0 && second >= 0 && MemOf(first) != MemOf(second)
    ensures var key := PackKey(op, first, second);
      && GetObjInfo(env, key, MemOf(first)) == env.fetch(MemOf(first), PosOf(first), AttrOf(first))
      && GetObjInfo(env, key, MemOf(second)) == env.fetch(MemOf(second), PosOf(second), AttrOf(second))
  {
    KeyRoundTrip(op, first, second);
    PlaceParts(first);
    PlaceParts(second);
  }

  /** The order of the items of an index under one key, by the type in the key. */
  function CompareKey(key: int, target: Value, internal: Value): int {
    match KeyType(key)
    case 1 => if target.Num? && internal.Num? then target.num - internal.num else -1
    case 0 => if target.Str? && internal.Str? then Compare(target, internal) else -1
    case 2 => if target.Flo? && internal.Flo? then (if target.flo < internal.flo then -1 else if target.flo == internal.flo then 0 else 1) else -1
    case _ => -1
  }

  /** A left and a right item agree on every level of the index. */
  predicate SameKeys(env: Env, keys: seq<int>) {
    forall k :: 0 <= k < |keys| ==> CompareKey(keys[k], GetObjInfo(env, keys[k], 0), GetObjInfo(env, keys[k], 1)) == 0
  }

  predicate HasLetter(v: Value, letter: int) {
    if letter == A then v.Str? else if letter == N then v.Num? else letter == F && v.Flo?
  }

  /** The leading tests are typed: their three operations have one letter, and so have the attributes. */
  predicate WellTyped(env: Env, code: seq<Value>)
    decreases |code|
  {
    Indexable(code) ==>
      var op, first, second := code[0].num, code[1].num, code[3].num;
      && code[2].num % 4 == code[4].num % 4 == op % 4
      && HasLetter(env.fetch(MemOf(first), PosOf(first), AttrOf(first)), op % 4)
      && HasLetter(env.fetch(MemOf(second), PosOf(second), AttrOf(second)), op % 4)
      && WellTyped(env, code[5..])
  }

  // ---------- the index and the code ----------

  lemma SameKeysFirst(env: Env, k: int, keys: seq<int>)
    ensures SameKeys(env, [k] + keys) <==> CompareKey(k, GetObjInfo(env, k, 0), GetObjInfo(env, k, 1)) == 0 && SameKeys(env, keys)
  {
    if SameKeys(env, [k] + keys) {
      assert ([k] + keys)[0] == k;
      forall i | 0 <= i < |keys| ensures CompareKey(keys[i], GetObjInfo(env, keys[i], 0), GetObjInfo(env, keys[i], 1)) == 0 {
        assert ([k] + keys)[i + 1] == keys[i];
      }
    }
  }

  lemma CompareStringsZero(a: string, b: string)
    ensures CompareStrings(a, b) == 0 <==> CompareStrings(b, a) == 0
  {}

  /** Two values compare as equal under a key exactly if the opcode's test for equality passes. */
  lemma CompareIsTest(key: int, a: Value, b: Value)
    requires HasLetter(a, KeyType(key)) && HasLetter(b, KeyType(key))
    ensures RunTest(EQ, KeyType(key), a, b) == Some(CompareKey(key, a, b) == 0)
    ensures RunTest(EQ, KeyType(key), b, a) == Some(CompareKey(key, a, b) == 0)
  {
    if a.Str? && a.str.Some? && b.str.Some? { CompareStringsZero(a.str.value, b.str.value); }
  }

  // ---------- the order of a key ----------

  lemma {:induction false} CompareStringsChain(a: string, b: string, c: string)
    requires CompareStrings(a, b) <= 0 && CompareStrings(b, c) <= 0
    ensures CompareStrings(a, c) <= 0 && (CompareStrings(a, c) == 0 <==> CompareStrings(a, b) == 0 && CompareStrings(b, c) == 0)
  {
    if a != [] && b != [] && c != [] && a[0] == b[0] == c[0] { CompareStringsChain(a[1..], b[1..], c[1..]); }
  }

  lemma CompareStringsTurned(a: string, b: string)
    ensures CompareStrings(a, b) < 0 <==> CompareStrings(b, a) > 0
  {
    CompareStringsMeans(a, b);
    CompareStringsMeans(b, a);
  }

  /** The order of a key is that of the tests of its letter, from either side. */
  lemma CompareKeyMeans(key: int, a: Value, b: Value)
    requires HasLetter(a, KeyType(key)) && HasLetter(b, KeyType(key))
    ensures CompareKey(key, a, b) < 0 <==> RunTest(LT, KeyType(key), a, b) == Some(true)
    ensures CompareKey(key, a, b) > 0 <==> RunTest(GT, KeyType(key), a, b) == Some(true)
    ensures CompareKey(key, a, b) == 0 <==> RunTest(EQ, KeyType(key), a, b) == Some(true)
    ensures CompareKey(key, a, b) < 0 <==> CompareKey(key, b, a) > 0
    ensures CompareKey(key, a, b) == 0 <==> CompareKey(key, b, a) == 0
  {
    if a.Str? && a.str.Some? && b.str.Some? {
      CompareStringsTurned(a.str.value, b.str.value);
      CompareStringsTurned(b.str.value, a.str.value);
    }
    hide CompareStrings;
  }

  lemma CompareKeyChain(key: int, a: Value, b: Value, c: Value)
    requires HasLetter(a, KeyType(key)) && HasLetter(b, KeyType(key)) && HasLetter(c, KeyType(key))
    requires CompareKey(key, a, b) <= 0 && CompareKey(key, b, c) <= 0
    ensures CompareKey(key, a, c) <= 0 && (CompareKey(key, a, c) == 0 <==> CompareKey(key, a, b) == 0 && CompareKey(key, b, c) == 0)
  {
    if a.Str? && a.str.Some? && b.str.Some? && c.str.Some? { CompareStringsChain(a.str.value, b.str.value, c.str.value); }
    hide CompareStrings;
  }

  /** How many of the values come before v. */
  function Rank(key: int, vs: set<Value>, v: Value): nat { |set w | w in vs && CompareKey(key, w, v) < 0| }

  /** Any values of a key's letter can be numbered in the order of the key. */
  lemma RankMeans(key: int, vs: set<Value>, a: Value, b: Value)
    requires a in vs && b in vs && forall v :: v in vs ==> HasLetter(v, KeyType(key))
    ensures Rank(key, vs, a) < Rank(key, vs, b) <==> CompareKey(key, a, b) < 0
    ensures Rank(key, vs, a) == Rank(key, vs, b) <==> CompareKey(key, a, b) == 0
  {
    hide CompareKey, HasLetter;
    CompareKeyMeans(key, a, b);
    CompareKeyMeans(key, b, a);
    if CompareKey(key, a, b) < 0 {
      RankGrows(key, vs, a, b);
    } else if CompareKey(key, b, a) < 0 {
      RankGrows(key, vs, b, a);
    } else {
      RankStays(key, vs, a, b);
    }
  }

  lemma RankGrows(key: int, vs: set<Value>, a: Value, b: Value)
    requires a in vs && b in vs && (forall v :: v in vs ==> HasLetter(v, KeyType(key))) && CompareKey(key, a, b) < 0
    ensures Rank(key, vs, a) < Rank(key, vs, b)
  {
    var p, q := set w | w in vs && CompareKey(key, w, a) < 0, set w | w in vs && CompareKey(key, w, b) < 0;
    forall w | w in p ensures w in q { CompareKeyChain(key, w, a, b); }
    CompareKeyMeans(key, a, a);
    hide CompareKey;
    assert a in q && a !in p;
    Smaller(p, q, a);
  }

  lemma RankStays(key: int, vs: set<Value>, a: Value, b: Value)
    requires a in vs && b in vs && (forall v :: v in vs ==> HasLetter(v, KeyType(key)))
    requires CompareKey(key, a, b) == CompareKey(key, b, a) == 0
    ensures Rank(key, vs, a) == Rank(key, vs, b)
  {
    forall w | w in vs ensures CompareKey(key, w, a) < 0 <==> CompareKey(key, w, b) < 0 {
      if CompareKey(key, w, a) < 0 { CompareKeyChain(key, w, a, b); }
      if CompareKey(key, w, b) < 0 { CompareKeyChain(key, w, b, a); }
    }
    hide CompareKey;
    assert (set w | w in vs && CompareKey(key, w, a) < 0) == set w | w in vs && CompareKey(key, w, b) < 0;
  }

  lemma Smaller<T>(p: set<T>, q: set<T>, x: T)
    requires p <= q && x in q && x !in p
    ensures |p| < |q|
  {
    Fewer(p, q - {x});
  }

  lemma {:induction false} Fewer<T>(p: set<T>, q: set<T>)
    requires p <= q
    ensures |p| <= |q|
    decreases |p|
  {
    if p != {} {
      var x :| x in p;
      Fewer(p - {x}, q - {x});
    }
  }

  lemma StepPushes(p: Program, pc: nat, st: seq<Value>)
    requires pc + 1 < |p.code| && PushesAttribute(Word(p.code, pc)) && p.code[pc + 1].Num?
    ensures var w := p.code[pc + 1].num;
      Step(p, pc, st) == Out(true, pc + 2, st + [p.env.fetch(MemOf(w), PosOf(w), AttrOf(w))])
  {}

  lemma StepTests(p: Program, pc: nat, st: seq<Value>, a: Value, b: Value, op: int)
    requires pc < |p.code| && Word(p.code, pc) == Some(op) && TEQ <= op <= TEQ + F && RunTest(EQ, op % 4, a, b).Some?
    ensures Step(p, pc, st + [a] + [b]) == Out(RunTest(EQ, op % 4, a, b).value, pc + 1, st)
  {
    var s := st + [a] + [b];
    assert s[|s| - 2] == a && s[|s| - 1] == b && Drop(s, 2) == st;
    hide RunTest;
  }

  lemma RunNext(p: Program, pc: nat, st: seq<Value>, end: nat, o: Out)
    requires pc < end && pc < |p.code| && Step(p, pc, st) == o
    ensures Run(p, pc, st, end) == if o.Fault? || !o.go then o else Run(p, o.pc, o.stack, end)
  {}

  /** One leading test, run. */
  lemma TestRuns(p: Program, at: nat, st: seq<Value>, end: nat)
    requires at <= end <= |p.code|
    requires var code := p.code[at..end]; Indexable(code) && WellTyped(p.env, code)
    ensures var key := PackKey(p.code[at].num, p.code[at + 1].num, p.code[at + 3].num);
      Run(p, at, st, end) ==
        if CompareKey(key, GetObjInfo(p.env, key, 0), GetObjInfo(p.env, key, 1)) == 0 then Run(p, at + 5, st, end) else Out(false, at + 5, st)
  {
    var code := p.code[at..end];
    var op, first, second := code[0].num, code[1].num, code[3].num;
    var key := PackKey(op, first, second);
    var a, b := p.env.fetch(MemOf(first), PosOf(first), AttrOf(first)), p.env.fetch(MemOf(second), PosOf(second), AttrOf(second));
    KeyReads(p.env, op, first, second);
    KeyRoundTrip(op, first, second);
    Words(p.code, at, end);
    assert (MemOf(first) == 0 && MemOf(second) == 1) || (MemOf(first) == 1 && MemOf(second) == 0);
    CompareIsTest(key, GetObjInfo(p.env, key, 0), GetObjInfo(p.env, key, 1));
    hide Run, Step, RunTest, CompareKey, PackKey, KeyType, GetObjInfo, MemOf, PosOf, AttrOf;
    StepPushes(p, at, st);
    RunNext(p, at, st, end, Step(p, at, st));
    StepPushes(p, at + 2, st + [a]);
    RunNext(p, at + 2, st + [a], end, Step(p, at + 2, st + [a]));
    StepTests(p, at + 4, st, a, b, code[4].num);
    RunNext(p, at + 4, st + [a] + [b], end, Step(p, at + 4, st + [a] + [b]));
  }

  lemma Words(code: seq<Value>, at: nat, end: nat)
    requires at + 5 <= end <= |code|
    ensures var c := code[at..end];
      && Word(code, at) == Word(c, 0) && Word(code, at + 2) == Word(c, 2) && Word(code, at + 4) == Word(c, 4)
      && code[at] == c[0] && code[at + 1] == c[1] && code[at + 3] == c[3] && c[5..] == code[at + 5..end]
  {}

  /** The leading tests of a join stop a couple exactly if its items differ under some key of the
      index; a couple that the index finds goes on with the rest of the code as if it had run them. */
  lemma {:induction false} IndexAgrees(p: Program, at: nat, st: seq<Value>, end: nat)
    requires at <= end <= |p.code| && WellTyped(p.env, p.code[at..end])
    ensures var keys := KeysOf(p.code[at..end]);
      && at + 5 * |keys| <= end
      && if SameKeys(p.env, keys) then Run(p, at, st, end) == Run(p, at + 5 * |keys|, st, end)
         else Run(p, at, st, end).Out? && !Run(p, at, st, end).go && Run(p, at, st, end).stack == st
    decreases end - at
  {
    hide Run, CompareKey, PackKey, GetObjInfo;
    var code := p.code[at..end];
    if Indexable(code) {
      TestRuns(p, at, st, end);
      Words(p.code, at, end);
      IndexAgrees(p, at + 5, st, end);
      SameKeysFirst(p.env, PackKey(code[0].num, code[1].num, code[3].num), KeysOf(code[5..]));
    }
  }

  // ---------- modified objects ----------

  /** An attribute differs, as far as a key of that type can tell. */
  predicate Differs(t: int, was: Value, now: Value) {
    match t
    case 1 => was.Num? && now.Num? && was.num != now.num
    case 2 => was.Flo? && now.Flo? && was.flo != now.flo
    case 0 => was.Str? && now.Str? && was.str != now.str && (was.str.None? || now.str.None? || CompareStrings(was.str.value, now.str.value) != 0)
    case _ => false
  }

  /** A key reads an attribute of the object at objpos that differs. */
  predicate Touches(key: int, side: int, objpos: int, was: int -> Value, now: int -> Value) {
    var place := KeyPlace(key, side);
    place / 0x100 == objpos && Differs(KeyType(key), was(place % 0x100), now(place % 0x100))
  }

  /** Whether a modified object, at a position on the side of the tree, has to be indexed again. */
  method KeysModified(keys: seq<int>, side: int, objpos: int, was: int -> Value, now: int -> Value) returns (modified: bool)
    ensures modified <==> exists nk :: 0 <= nk < |keys| && Touches(keys[nk], side, objpos, was, now)
  {
    hide KeyPlace, KeyType, Differs;
    for nk := 0 to |keys|
      invariant forall k :: 0 <= k < nk ==> !Touches(keys[k], side, objpos, was, now)
    {
      var place := KeyPlace(keys[nk], side);
      if place / 0x100 == objpos && Differs(KeyType(keys[nk]), was(place % 0x100), now(place % 0x100)) {
        assert Touches(keys[nk], side, objpos, was, now);
        return true;
      }
    }
    modified := false;
  }

  lemma {:induction false} EqualStrings(a: string, b: string)
    requires CompareStrings(a, b) == 0
    ensures a == b
  {
    if a != [] {
      EqualStrings(a[1..], b[1..]);
      assert a == [a[0]] + a[1..] && b == [b[0]] + b[1..];
    }
  }

  /** An object that has not to be indexed again keeps its place: under every key it compares with
      anything as it did before. */
  lemma UnmodifiedKeepsPlace(key: int, target: Value, was: Value, now: Value)
    requires HasLetter(was, KeyType(key)) && HasLetter(now, KeyType(key)) && !Differs(KeyType(key), was, now)
    ensures CompareKey(key, target, now) == CompareKey(key, target, was) && CompareKey(key, now, target) == CompareKey(key, was, target)
  {
    if was.Str? && was.str.Some? && now.str.Some? && was.str != now.str { EqualStrings(was.str.value, now.str.value); }
  }

  /** An attribute differs exactly if something compares differently with it under the key. */
  lemma DiffersMeans(key: int, was: Value, now: Value)
    requires HasLetter(was, KeyType(key)) && HasLetter(now, KeyType(key))
    ensures Differs(KeyType(key), was, now) <==> CompareKey(key, was, now) != 0
    ensures Differs(KeyType(key), was, now) <==> exists target :: CompareKey(key, target, now) != CompareKey(key, target, was)
  {
    CompareKeyMeans(key, was, was);
    if Differs(KeyType(key), was, now) {
      assert CompareKey(key, was, now) != CompareKey(key, was, was);
    } else {
      forall target ensures CompareKey(key, target, now) == CompareKey(key, target, was) { UnmodifiedKeepsPlace(key, target, was, now); }
      UnmodifiedKeepsPlace(key, was, was, now);
    }
  }
}
