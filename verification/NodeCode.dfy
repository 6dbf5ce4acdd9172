/** How a join node takes in the code of a condition: leading tests for equality become keys, the rest
    is appended to its tests. */
module NodeCode {
  import opened Wrappers
  import opened Expressions
  import opened Machine
  import opened CodeGen
  import opened Loader
  import opened Keys
  import opened LeadingTests

  const CODELEN := 1   // where a node keeps the number of words of its tests
  const NKEYS := 4     // and of its keys

  function Numbers(keys: seq<int>): (w: seq<Value>)
    ensures |w| == |keys| && forall i :: 0 <= i < |keys| ==> w[i] == Num(keys[i])
  {
    seq(|keys|, i requires 0 <= i < |keys| => Num(keys[i]))
  }

  function KeysWidth(words: seq<Value>): (n: nat)
    ensures n == 5 * |KeysOf(words)| <= |words|
  {
    KeysFit(words);
    5 * |KeysOf(words)|
  }

  lemma {:induction false} KeysFit(words: seq<Value>)
    ensures 5 * |KeysOf(words)| <= |words|
    decreases |words|
  {
    if Indexable(words) { KeysFit(words[5..]); }
  }

  /** The words that are still to be run for a couple that the index finds. */
  function Remaining(words: seq<Value>): seq<Value> { words[KeysWidth(words)..] }

  // ---------- copying bytes ----------

  function Power(k: nat): (n: nat)
    ensures n > 0
  {
    if k == 0 then 1 else 0x100 * Power(k - 1)
  }

  /** The low k bytes of from over those of into. A word that holds no number is not torn. */
  function Torn(k: nat, from: Value, into: Value): Value {
    if from.Num? && into.Num? then Num(into.num - into.num % Power(k) + from.num % Power(k)) else into
  }

  /** What is at into after n bytes, of words of 8, are copied over it from the words of from. */
  function CopyBytes(n: nat, from: seq<Value>, into: seq<Value>): (c: seq<Value>)
    requires |from| == |into|
    ensures |c| == |from|
  {
    seq(|from|, i requires 0 <= i < |from| => CopiedWord(n, i, from[i], into[i]))
  }

  function CopiedWord(n: nat, i: nat, from: Value, into: Value): Value {
    if 8 * (i + 1) <= n then from else if 8 * i < n then Torn(n - 8 * i, from, into) else into
  }

  /** Byte k of a word. */
  function Byte(v: int, k: nat): int { v / Power(k) % 0x100 }

  lemma {:induction false} PowerSum(a: nat, b: nat)
    ensures Power(a + b) == Power(a) * Power(b)
  {
    if a > 0 {
      PowerSum(a - 1, b);
      Associates(0x100, Power(a - 1), Power(b));
    }
  }

  lemma Associates(a: int, b: int, c: int)
    ensures a * (b * c) == (a * b) * c
  {}

  lemma Multiple(p: int, d: int)
    requires p > 0
    ensures (d >= 1 ==> p * d >= p) && (d <= -1 ==> p * d <= -p)
  {}

  lemma Distributes(p: int, a: int, b: int)
    ensures p * (a + b) == p * a + p * b && p * (a - b) == p * a - p * b
  {}

  lemma DivideOnce(x: int, p: int, q: int, r: int)
    requires p > 0 && x == p * q + r && 0 <= r < p
    ensures x / p == q
  {
    Distributes(p, q, x / p);
    Multiple(p, q - x / p);
  }

  lemma DivideTwice(x: int, p: int, q: int)
    requires p > 0 && q > 0
    ensures p * q > 0 && x / (p * q) == x / p / q
  {
    var a, r := x / p, x % p;
    var s, u := a / q, a % q;
    Rests(p, q, u, r);
    Composes(p, q, s, u);
    assert x == p * q * s + (p * u + r);
    DivideOnce(x, p * q, s, p * u + r);
  }

  lemma Rests(p: int, q: int, u: int, r: int)
    requires p > 0 && 0 <= u < q && 0 <= r < p
    ensures 0 <= p * u + r < p * q
  {
    Distributes(p, q, u);
    Multiple(p, q - u);
    if u > 0 { Multiple(p, u); }
  }

  lemma Composes(p: int, q: int, s: int, u: int)
    ensures p * (q * s + u) == p * q * s + p * u
  {
    Distributes(p, q * s, u);
    Associates(p, q, s);
  }

  /** A multiple of a higher power changes no lower byte. */
  lemma ByteShift(x: int, t: int, k: nat)
    ensures Byte(x + Power(k) * (0x100 * t), k) == Byte(x, k)
  {
    var p := Power(k);
    var q, r := x / p, x % p;
    assert p * (0x100 * t) + p * q == p * (q + 0x100 * t);
    DivideOnce(x + p * (0x100 * t), p, q + 0x100 * t, r);
  }

  lemma TornByte(m: nat, k: nat, a: int, b: int)
    ensures Byte(b - b % Power(m) + a % Power(m), k) == if k < m then Byte(a, k) else Byte(b, k)
  {
    var p := Power(m);
    var v, q, r := b - b % p + a % p, b / p, a % p;
    assert v == p * q + r;
    if k < m {
      var t := q - a / p;
      assert v == a + p * t;
      PowerSum(k, m - k);
      var s := Power(m - k - 1);
      assert p == Power(k) * (0x100 * s);
      Associates(Power(k), 0x100 * s, t);
      Associates(0x100, s, t);
      ByteShift(a, s * t, k);
    } else {
      PowerSum(m, k - m);
      DivideOnce(v, p, q, r);
      DivideTwice(v, p, Power(k - m));
      DivideTwice(b, p, Power(k - m));
    }
  }

  /** Copying n bytes leaves byte by byte the first n of the one and the others of the other. */
  lemma CopyBytesMeans(n: nat, from: seq<Value>, into: seq<Value>, i: nat, k: nat)
    requires |from| == |into| && i < |from| && k < 8 && from[i].Num? && into[i].Num?
    ensures var c := CopyBytes(n, from, into)[i];
      c.Num? && Byte(c.num, k) == if 8 * i + k < n then Byte(from[i].num, k) else Byte(into[i].num, k)
  {
    if 8 * i < n < 8 * (i + 1) { TornByte(n - 8 * i, k, from[i].num, into[i].num); }
    hide Byte, Power;
  }

  /** What fresh memory holds. */
  function Fresh(fill: nat -> Value, at: nat, n: nat): (w: seq<Value>)
    ensures |w| == n
  {
    seq(n, i requires 0 <= i < n => fill(at + i))
  }

  /** The words that arrive behind the tests of a node, before they are loaded. Without keys all the words
      are copied; with keys, as many bytes as there are words left. */
  function Landed(words: seq<Value>, at: nat, fill: nat -> Value): (w: seq<Value>)
    ensures |w| == |Remaining(words)|
  {
    var rest := Remaining(words);
    if KeysOf(words) == [] then words else CopyBytes(|rest|, rest, Fresh(fill, at, |rest|))
  }

  // ---------- the node ----------

  class InterNode {
    var code: array<Value>
    var lcode: nat
    const lenAnd: nat      // 7 words of header, 8 for a timed join

    /** A new node, without keys and without tests; window is the length of its time window, if it has one. */
    constructor (op: int, flags: int, window: Option<int>, left: Value, right: Value)
      ensures Valid() && fresh(code) && KeyWords() == Tests() == []
      ensures lenAnd == if window.Some? then 8 else 7
    {
      var header := [Num(op), Num(0), Num(0), Num(flags), Num(0)] + (if window.Some? then [Num(window.value)] else []) + [left, right];
      lenAnd, lcode := |header|, |header|;
      code := new Value[|header|](i requires 0 <= i < |header| => header[i]);
    }

    ghost predicate Valid()
      reads this, code
    {
      && NKEYS < lenAnd && lcode == code.Length
      && code.Length >= lenAnd && code[NKEYS].Num? && 0 <= code[NKEYS].num
      && lenAnd + code[NKEYS].num <= lcode && code[CODELEN] == Num(lcode - lenAnd - code[NKEYS].num)
    }

    /** The words of its keys. */
    ghost function KeyWords(): seq<Value>
      reads this, code
      requires Valid()
    {
      code[lenAnd..lenAnd + code[NKEYS].num]
    }

    /** Its tests, ready to run. */
    ghost function Tests(): seq<Value>
      reads this, code
      requires Valid()
    {
      code[lenAnd + code[NKEYS].num..]
    }

    /** The node is made of this header, these keys and these tests. */
    ghost predicate Consists(header: seq<Value>, keys: seq<Value>, tests: seq<Value>)
      reads this, code
    {
      && NKEYS < lenAnd == |header| && lcode == code.Length && code[..] == header + keys + tests
      && header[NKEYS] == Num(|keys|) && header[CODELEN] == Num(|tests|)
    }

    lemma ConsistsIs(header: seq<Value>, keys: seq<Value>, tests: seq<Value>)
      ensures Consists(header, keys, tests) <==> Valid() && code[..lenAnd] == header && KeyWords() == keys && Tests() == tests
    {
      if Consists(header, keys, tests) {
        assert code[NKEYS] == code[..][NKEYS] && code[CODELEN] == code[..][CODELEN];
        assert code[..lenAnd] == code[..][..lenAnd];
      }
      if Valid() {
        var n := lenAnd + code[NKEYS].num;
        assert code[..] == code[..lenAnd] + code[lenAnd..n] + code[n..];
      }
    }

    lemma HeaderFits()
      requires Valid()
      ensures CODELEN == 1 && NKEYS == 4 < lenAnd <= code.Length
    {}

    lemma HeaderWords()
      requires lenAnd <= code.Length
      ensures forall i :: 0 <= i < lenAnd ==> code[i] == code[..lenAnd][i]
    {}

    lemma HeaderIs(header: seq<Value>, keys: seq<Value>, tests: seq<Value>)
      requires Consists(header, keys, tests)
      ensures CODELEN == 1 && NKEYS == 4 < lenAnd == |header| && lcode == code.Length && code[..] == header + keys + tests
      ensures code[NKEYS] == header[NKEYS] == Num(|keys|) && code[CODELEN] == header[CODELEN] == Num(|tests|)
    {
      assert code[NKEYS] == code[..][NKEYS] && code[CODELEN] == code[..][CODELEN];
    }

    /** Makes room behind the code. */
    method Reallocate(inc: nat, fill: nat -> Value)
      requires lcode == code.Length
      modifies this`code
      ensures fresh(code) && code[..] == old(code[..]) + Fresh(fill, lcode, inc)
    {
      var was, length := code[..], lcode;
      code := new Value[lcode + inc](i requires 0 <= i < length + inc => if i < length then was[i] else fill(i));
    }

    /** Writes words over those from position from on. */
    method Write(from: nat, words: seq<Value>)
      requires from + |words| <= code.Length
      modifies code
      ensures code[..from] == old(code[..from]) && code[from + |words|..] == old(code[from + |words|..])
      ensures code[from..from + |words|] == words
    {
      forall i | 0 <= i < |words| { code[from + i] := words[i]; }
    }

    /** Moves the words between two positions up. */
    method MoveUp(from: nat, upto: nat, shift: nat)
      requires from <= upto && upto + shift <= code.Length
      modifies code
      ensures code[..from] == old(code[..from]) && code[upto + shift..] == old(code[upto + shift..])
      ensures code[from + shift..upto + shift] == old(code[from..upto])
    {
      forall i | from <= i < upto { code[i + shift] := code[i]; }
    }

    /** Makes room for nkeys words at position last, by moving up the tests, and for n words behind them. */
    method OpenAt(last: nat, nkeys: nat, n: nat, fill: nat -> Value, ghost done: seq<Value>, ghost tests: seq<Value>)
      requires lcode == code.Length && code[..] == done + tests && last == |done|
      modifies this`code
      ensures fresh(code) && last + nkeys <= code.Length
      ensures code[..last] == done && code[last + nkeys..] == tests + Fresh(fill, lcode + nkeys, n)
    {
      hide *;
      Reallocate(nkeys + n, fill);
      Before(code[..], done, tests, Fresh(fill, lcode, nkeys + n), last, lcode, nkeys);
      MoveUp(last, lcode, nkeys);
      FreshFrom(fill, lcode, nkeys, n);
      After(code[..], done, tests, Fresh(fill, lcode + nkeys, n), last, nkeys);
    }

    /** Puts new keys behind the old ones, moves the tests up, and leaves room for n words behind them. */
    method PutKeys(found: seq<int>, n: nat, fill: nat -> Value, ghost header: seq<Value>, ghost keys: seq<Value>, ghost tests: seq<Value>)
      requires Consists(header, keys, tests)
      modifies this`code, code
      ensures fresh(code)
      ensures code[..] == header[NKEYS := Num(|keys| + |found|)] + (keys + Numbers(found)) + tests + Fresh(fill, lcode + |found|, n)
    {
      hide *;
      HeaderIs(header, keys, tests);
      var nkeys, last := |found|, lenAnd + code[NKEYS].num;
      OpenAt(last, nkeys, n, fill, header + keys, tests);
      Write(last, Numbers(found));
      ghost var c, left := code[..], Fresh(fill, lcode + nkeys, n);
      Joined(c, header + keys, Numbers(found), tests + left);
      code[NKEYS] := Num(last - lenAnd + nkeys);
      assert code[..] == c[NKEYS := Num(|keys| + nkeys)];
      Counted(header, keys, Numbers(found), tests, left, Num(|keys| + nkeys));
    }

    /** Puts words behind the tests, counts them and loads them. */
    method PutTests(env: Env, words: seq<Value>, at: nat, ghost header: seq<Value>, ghost keys: seq<Value>, ghost tests: seq<Value>)
      requires at + |words| == code.Length && |header| == lenAnd > NKEYS && |code[..at]| == |header + keys + tests|
      requires code[..at] == header + keys + tests && header[CODELEN] == Num(|tests|)
      modifies code
      ensures code[..] == header[CODELEN := Num(|tests| + |words|)] + keys + (tests + Load(env, words, at))
    {
      hide *;
      ghost var done, count := header + keys + tests, Num(|tests| + |words|);
      HeaderPlaces();
      HeaderWord(code[..at], header, keys, tests);
      assert code[CODELEN] == code[..at][CODELEN];
      Write(at, words);
      ghost var c := code[..at];
      code[CODELEN] := Num(code[CODELEN].num + |words|);
      assert code[..at] == c[CODELEN := count];
      LoadCode(env, code, at, at + |words|);
      Joined(code[..], done[CODELEN := count], Load(env, words, at), []);
      CountedFirst(header, keys, tests, Load(env, words, at), count);
    }

    /** Keys are put in and what is left of the words, if anything, is appended. */
    method AddKeyed(env: Env, words: seq<Value>, found: seq<int>, fill: nat -> Value, ghost header: seq<Value>, ghost keys: seq<Value>, ghost tests: seq<Value>)
      requires Consists(header, keys, tests) && found == KeysOf(words) && found != []
      modifies this, code
      ensures var at := old(lcode) + |found|; var all := tests + Load(env, Landed(words, at, fill), at);
        Consists(header[NKEYS := Num(|keys| + |found|)][CODELEN := Num(|all|)], keys + Numbers(found), all)
    {
      hide Load, Landed, KeysOf, Numbers;
      KeysFit(words);
      var at, n := lcode + |found|, |words| - 5 * |found|;
      PutKeys(found, n, fill, header, keys, tests);
      ghost var landed := Landed(words, at, fill);
      ghost var header', keys' := header[NKEYS := Num(|keys| + |found|)], keys + Numbers(found);
      if n > 0 {
        assert code[..at] == code[..][..at] == header' + keys' + tests;
        PutTests(env, Landed(words, at, fill), at, header', keys', tests);
      } else {
        LoadNone(env, landed, at);
      }
      lcode := at + n;
    }

    /** All the words are appended. */
    method AddPlain(env: Env, words: seq<Value>, fill: nat -> Value, ghost header: seq<Value>, ghost keys: seq<Value>, ghost tests: seq<Value>)
      requires Consists(header, keys, tests)
      modifies this, code
      ensures var all := tests + Load(env, words, old(lcode)); Consists(header[CODELEN := Num(|all|)], keys, all)
    {
      hide Load;
      ghost var at := lcode;
      Reallocate(|words|, fill);
      assert code[..at] == code[..][..at] == header + keys + tests;
      PutTests(env, words, lcode, header, keys, tests);
      lcode := lcode + |words|;
    }

    /** Adds the code of a condition. */
    method AddCode(env: Env, words: seq<Value>, fill: nat -> Value)
      requires Valid()
      modifies this, code
      ensures Valid()
      ensures KeyWords() == old(KeyWords()) + Numbers(KeysOf(words))
      ensures var at := old(lcode) + |KeysOf(words)|; Tests() == old(Tests()) + Load(env, Landed(words, at, fill), at)
      ensures forall i :: 0 <= i < lenAnd && i != CODELEN && i != NKEYS ==> code[i] == old(code[i])
    {
      hide *;
      HeaderFits();
      HeaderWords();
      ghost var header, keys, tests := code[..lenAnd], KeyWords(), Tests();
      ConsistsIs(header, keys, tests);
      var found := GetInterKeysInCode(words);
      if words == [] {
        NothingAdded(env, lcode, fill);
      } else if |found| > 0 {
        ghost var at := lcode + |found|;
        AddKeyed(env, words, found, fill, header, keys, tests);
        ghost var all := tests + Load(env, Landed(words, at, fill), at);
        ConsistsIs(header[NKEYS := Num(|keys| + |found|)][CODELEN := Num(|all|)], keys + Numbers(found), all);
        BothCounts(header, Num(|keys| + |found|), Num(|all|));
        HeaderFits();
        HeaderWords();
      } else {
        ghost var at := lcode;
        AddPlain(env, words, fill, header, keys, tests);
        NoKeys(words, at, fill);
        ghost var all := tests + Load(env, words, at);
        ConsistsIs(header[CODELEN := Num(|all|)], keys, all);
        BothCounts(header, Num(|keys|), Num(|all|));
        HeaderFits();
        HeaderWords();
      }
    }
  }

  lemma NothingAdded(env: Env, at: nat, fill: nat -> Value)
    ensures KeysOf([]) == [] && Landed([], at, fill) == [] && Load(env, [], at) == []
  {}

  lemma NoKeys(words: seq<Value>, at: nat, fill: nat -> Value)
    requires KeysOf(words) == []
    ensures Landed(words, at, fill) == words && Numbers(KeysOf(words)) == []
  {}

  lemma FreshFrom(fill: nat -> Value, at: nat, shift: nat, n: nat)
    ensures Fresh(fill, at, shift + n)[shift..] == Fresh(fill, at + shift, n)
  {}

  lemma Before(c: seq<Value>, done: seq<Value>, tests: seq<Value>, more: seq<Value>, last: nat, end: nat, nkeys: nat)
    requires c == done + tests + more && last == |done| && end == last + |tests| && nkeys <= |more|
    ensures c[..last] == done && c[last..end] == tests && c[end + nkeys..] == more[nkeys..]
  {}

  lemma Joined(c: seq<Value>, a: seq<Value>, b: seq<Value>, rest: seq<Value>)
    requires |a| + |b| <= |c| && c[..|a|] == a && c[|a|..|a| + |b|] == b && c[|a| + |b|..] == rest
    ensures c == a + b + rest
  {}

  lemma Counted(header: seq<Value>, keys: seq<Value>, more: seq<Value>, tests: seq<Value>, left: seq<Value>, count: Value)
    requires 0 <= NKEYS < |header|
    ensures ((header + keys) + more + (tests + left))[NKEYS := count] == header[NKEYS := count] + (keys + more) + tests + left
  {}

  lemma CountedFirst(header: seq<Value>, keys: seq<Value>, tests: seq<Value>, more: seq<Value>, count: Value)
    requires 0 <= CODELEN < |header|
    ensures (header + keys + tests)[CODELEN := count] + more + [] == header[CODELEN := count] + keys + (tests + more)
  {}

  lemma BothCounts(was: seq<Value>, a: Value, b: Value)
    requires CODELEN < NKEYS < |was|
    ensures forall i :: 0 <= i < |was| && i != CODELEN && i != NKEYS ==> was[NKEYS := a][CODELEN := b][i] == was[i] == was[CODELEN := b][i]
  {}

  lemma HeaderPlaces()
    ensures CODELEN == 1 && NKEYS == 4
  {}

  lemma HeaderWord(c: seq<Value>, header: seq<Value>, keys: seq<Value>, tests: seq<Value>)
    requires c == header + keys + tests && |header| > CODELEN >= 0
    ensures c[CODELEN] == header[CODELEN]
  {}

  lemma After(c: seq<Value>, done: seq<Value>, tests: seq<Value>, left: seq<Value>, last: nat, nkeys: nat)
    requires last + nkeys + |tests| <= |c| && last == |done|
    requires c[..last] == done && c[last + nkeys..last + |tests| + nkeys] == tests && c[last + |tests| + nkeys..] == left
    ensures c[..last] == done && c[last + nkeys..] == tests + left
  {}

  // ---------- what arrives ----------

  lemma LoadSplits(env: Env, w: seq<Value>, at: int)
    requires w != [] && 0 < Width(w) <= |w|
    ensures var n := Width(w);
      Width(w[..n]) == n && Load(env, w, at) == LoadOne(env, w[..n], at) + Load(env, w[n..], at + n)
  {
    hide LoadOne;
    FirstWidth(w);
  }

  lemma LastOfOne(env: Env, w: seq<Value>, at: int)
    requires w != [] && Width(w) == |w|
    ensures LoadOne(env, w, at)[|w| - 1].Num? == w[|w| - 1].Num?
  {}

  lemma {:induction false} LoadLast(env: Env, w: seq<Value>, at: int)
    requires w != []
    ensures Load(env, w, at)[|w| - 1].Num? == w[|w| - 1].Num?
    decreases |w|
  {
    hide Load, LoadOne, Width;
    var n := Width(w);
    if 0 < n <= |w| {
      LoadSplits(env, w, at);
      LastOfOne(env, w[..n], at);
      if n < |w| { LoadLast(env, w[n..], at + n); } else { LoadNone(env, w[n..], at + n); }
    } else {
      LoadNone(env, w, at);
    }
  }

  /** A word that memory may hold in place of v, and that loading does not turn into v. */
  function Other(v: Value): Value { if v.Num? then Str(None) else Num(0) }

  lemma LastIsFresh(rest: seq<Value>, at: nat, fill: nat -> Value)
    requires rest != [] && fill(at + |rest| - 1) == Other(rest[|rest| - 1])
    ensures CopyBytes(|rest|, rest, Fresh(fill, at, |rest|))[|rest| - 1] == Other(rest[|rest| - 1])
  {
    var n := |rest|;
    assert CopiedWord(n, n - 1, rest[n - 1], Other(rest[n - 1])) == Other(rest[n - 1]);
  }

  /** Some memory gives away that the last of the remaining words was not copied. */
  lemma LastIsNotCopied(words: seq<Value>, at: nat, fill: nat -> Value)
    requires KeysOf(words) != [] && Remaining(words) != []
    requires var rest := Remaining(words); fill(at + |rest| - 1) == Other(rest[|rest| - 1])
    ensures var rest := Remaining(words); Landed(words, at, fill)[|rest| - 1] == Other(rest[|rest| - 1])
  {
    hide KeysOf, Remaining, CopyBytes, Fresh;
    LastIsFresh(Remaining(words), at, fill);
  }

  /** Whatever memory holds, the remaining words arrive behind the tests, if and only if there are no
      keys or no words beside them. */
  lemma RestArrives(env: Env, words: seq<Value>, at: nat)
    ensures (forall fill: nat -> Value :: Load(env, Landed(words, at, fill), at) == Load(env, Remaining(words), at))
      <==> KeysOf(words) == [] || |words| == 5 * |KeysOf(words)|
  {
    var rest := Remaining(words);
    if KeysOf(words) == [] {
      assert rest == words;
    } else if rest != [] {
      var fill: nat -> Value := i => Other(rest[|rest| - 1]);
      LastIsNotCopied(words, at, fill);
      LoadLast(env, rest, at);
      LoadLast(env, Landed(words, at, fill), at);
      assert Load(env, Landed(words, at, fill), at) != Load(env, rest, at);
    }
  }

  /** p.a = q.a & p.b < q.b, as one operand of a conjunction, is given to a node as it stands. */
  function KeyAndRest(): Expr {
    And(Rel(EQ, Ref(false, 0, 0, 1), Ref(false, 1, 0, 1)), Rel(LT, Ref(false, 0, 0, 2), Ref(false, 1, 0, 2)))
  }

  function Both(): seq<Value> {
    [Num(PUSHS + N), Num(1), Num(PUSHS + N), Num(SIDE + 1), Num(TEQ + N)] + Second()
  }
  function Second(): seq<Value> { [Num(PUSHS + N), Num(2), Num(PUSHS + N), Num(SIDE + 2), Num(TEQ + 8 + N)] }

  lemma TestWords(env: Env, t: Test, attr: int, at: nat)
    requires (forall mem, pos, a :: env.attrType(mem, pos, a) == NUM) && 0 <= attr < 0x100
    ensures var e := Rel(t, Ref(false, 0, 0, attr), Ref(false, 1, 0, attr));
      Len(e) == 5 && Code(env, e, at, false) == [Num(PUSHS + N), Num(attr), Num(PUSHS + N), Num(SIDE + attr), Num(TEQ + TestCode(t) + N)]
  {
    assert Code(env, Ref(false, 0, 0, attr), at, false) == [Num(PUSHS + N), Num(attr)];
    assert Code(env, Ref(false, 1, 0, attr), at + 2, false) == [Num(PUSHS + N), Num(SIDE + attr)];
  }

  lemma CodeIsBoth(env: Env)
    requires forall mem, pos, attr :: env.attrType(mem, pos, attr) == NUM
    ensures Code(env, KeyAndRest(), 0, false) == Both()
  {
    hide Code, Len;
    TestWords(env, EQ, 1, 0);
    TestWords(env, LT, 2, 5);
    AndWords(env, KeyAndRest(), 0);
  }

  lemma AndWords(env: Env, e: Expr, at: nat)
    requires e.And?
    ensures Code(env, e, at, false) == Code(env, e.l, at, false) + Code(env, e.r, at + Len(e.l), false)
  {}

  lemma OneKey()
    ensures |KeysOf(Both())| == 1 && Remaining(Both()) == Second()
  {
    var w := Both();
    assert w[5..] == Second() && !Indexable(Second()) && KeysOf(Second()) == [];
    assert Indexable(w);
  }

  lemma FiveBytes(zero: seq<Value>)
    requires |zero| == 5 && forall i :: 0 <= i < 5 ==> zero[i] == Num(0)
    ensures CopyBytes(5, Second(), zero) == [Num(PUSHS + N), Num(0), Num(0), Num(0), Num(0)]
  {
    assert Power(5) == 0x100_0000_0000;
    assert Torn(5, Num(PUSHS + N), Num(0)) == Num(PUSHS + N);
  }

  /** Five words are left, and five bytes arrive. */
  lemma TestIsLost(env: Env, at: nat, fill: nat -> Value)
    requires forall mem, pos, attr :: env.attrType(mem, pos, attr) == NUM
    requires forall i :: fill(i) == Num(0)
    ensures var words := Code(env, KeyAndRest(), 0, false);
      |KeysOf(words)| == 1 && Landed(words, at, fill) == [Num(PUSHS + N), Num(0), Num(0), Num(0), Num(0)] != Remaining(words)
  {
    hide KeysOf, Code, CopyBytes, Remaining;
    CodeIsBoth(env);
    OneKey();
    FiveBytes(Fresh(fill, at, 5));
  }

  /** What is there instead ends at a word that is no operation. */
  lemma LostTestFaults(p: Program, at: nat, st: seq<Value>)
    requires Has(p.code, at, [Num(PUSHS + N), Num(0), Num(0), Num(0), Num(0)])
    ensures Run(p, at, st, at + 5).Fault?
  {
    var w := [Num(PUSHS + N), Num(0), Num(0), Num(0), Num(0)];
    var st' := st + [p.env.fetch(0, 0, 0)];
    assert p.code[at] == w[0] && p.code[at + 1] == w[1] && p.code[at + 2] == w[2];
    RunStep(p, at, st, at + 5, Out(true, at + 2, st'));
    RunStep(p, at + 2, st', at + 5, Fault);
  }

  /** If all the words are keys, what the index finds is what the words would have let through. */
  lemma IndexAlone(p: Program, at: nat, st: seq<Value>, end: nat)
    requires at <= end <= |p.code| && WellTyped(p.env, p.code[at..end]) && Remaining(p.code[at..end]) == []
    ensures Run(p, at, st, end).Out? && Run(p, at, st, end).stack == st
    ensures Run(p, at, st, end).go <==> SameKeys(p.env, KeysOf(p.code[at..end]))
  {
    IndexAgrees(p, at, st, end);
    RunDone(p, end, st);
  }

  // ---------- the node and the condition ----------

  /** Loading changes nothing in leading tests. */
  lemma {:induction false} KeysLoaded(env: Env, w: seq<Value>, at: int)
    ensures KeysOf(Load(env, w, at)) == KeysOf(w)
    decreases |w|
  {
    hide Load, MemOf, PackKey;
    var l := Load(env, w, at);
    if w != [] { FirstStays(env, w, at); }
    if |w| >= 5 && PushesAttribute(Word(w, 0)) {
      PairStays(env, w, at);
      FirstStays(env, w[2..], at + 2);
      if PushesAttribute(Word(w, 2)) {
        PairStays(env, w[2..], at + 2);
        FirstStays(env, w[4..], at + 4);
        assert w[2..][2..] == w[4..];
        if TestsEqual(Word(w, 4)) {
          TestStays(env, w[4..], at + 4);
          assert w[4..][1..] == w[5..];
          KeysLoaded(env, w[5..], at + 5);
          assert l[..5] == w[..5] && l[5..] == Load(env, w[5..], at + 5);
        }
      }
    }
  }

  lemma FirstStays(env: Env, w: seq<Value>, at: int)
    requires w != []
    ensures Load(env, w, at)[0] == w[0]
  {}

  lemma PairStays(env: Env, w: seq<Value>, at: int)
    requires |w| >= 2 && PushesAttribute(Word(w, 0))
    ensures Load(env, w, at) == w[..2] + Load(env, w[2..], at + 2)
  {}

  lemma TestStays(env: Env, w: seq<Value>, at: int)
    requires w != [] && TestsEqual(Word(w, 0))
    ensures Load(env, w, at) == w[..1] + Load(env, w[1..], at + 1)
  {}

  /** The code of a condition at the end of a program decides as the condition does. */
  lemma EndDecides(p: Program, f: Expr, at: nat, st: seq<Value>)
    requires Typed(p.env) && InControl(p.env, f) && at <= |p.code| && p.code[at..] == Code(p.env, f, at, true)
    ensures var r, v := Run(p, at, st, |p.code|), Does(p.env, f);
      (r.Out? && r.go <==> IsTrue(v)) && (r.Fault? <==> v.None?) && (r.Out? ==> r.stack == st)
  {
    hide Run, Does, Checked, Typed, Code;
    assert at + Len(f) == |p.code|;
    assert Ready(p, f, at, |p.code|);
    CodeMeets(p, f, at, st, |p.code|);
    RunDone(p, |p.code|, st);
  }

  lemma NoKeysAgree(env: Env, words: seq<Value>)
    ensures SameKeys(env, [])
    ensures KeysOf(words) == [] ==> Remaining(words) == words
    ensures Remaining(words) == [] <==> |words| == 5 * |KeysOf(words)|
  {}

  lemma WholeCode(code: seq<Value>, env: Env, f: Expr)
    requires code == Code(env, f, 0, true)
    ensures code[0..] == code && code[0..|code|] == code && |Code(env, f, 0, false)| == |code|
  {}

  lemma LoadsEmpty(env: Env, at: int)
    ensures Load(env, [], at) == []
  {}

  /** The words of a condition that a node has taken in, when there are no keys or nothing but keys: a couple
      has equal keys and goes through the tests exactly if it goes through the whole code. */
  lemma NodeDecides(p: Program, whole: Program, f: Expr, at: nat, st: seq<Value>)
    requires p.env == whole.env && Typed(p.env) && InControl(p.env, f) && at <= |p.code|
    requires whole.code == Code(p.env, f, 0, true)
    requires var w := Code(p.env, f, 0, false);
      (KeysOf(w) == [] || |w| == 5 * |KeysOf(w)|) && p.code[at..] == Load(p.env, Remaining(w), at)
    ensures var r, v := Run(p, at, st, |p.code|), Does(p.env, f);
      var same := SameKeys(p.env, KeysOf(Code(p.env, f, 0, false)));
      (same && r.Out? && r.go <==> IsTrue(v)) && (same && r.Fault? <==> v.None?) && (r.Out? ==> r.stack == st)
  {
    var env, w := p.env, Code(p.env, f, 0, false);
    hide *;
    WholeCode(whole.code, env, f);
    EndDecides(whole, f, 0, st);
    LoadAll(env, f, 0);
    KeysLoaded(env, w, 0);
    NoKeysAgree(env, w);
    if KeysOf(w) == [] {
      Movable(env, f, 0, at);
      LoadAll(env, f, at);
      EndDecides(p, f, at, st);
    } else {
      NoKeysAgree(env, whole.code);
      KeysOfCode(env, f, 0, true);
      IndexAlone(whole, 0, st, |whole.code|);
      LoadsEmpty(env, at);
      RunDone(p, |p.code|, st);
    }
  }

  // ---------- what is moved ----------

  predicate Jumping(w: seq<Value>) { w != [] && Word(w, 0) == Some(TOR) && exists i :: 2 <= i < |w| && w[i].Num? }

  /** Some operation of w jumps. */
  predicate HasJump(w: seq<Value>)
    decreases |w|
  {
    w != [] && 0 < Width(w) <= |w| && (Jumping(w[..Width(w)]) || HasJump(w[Width(w)..]))
  }

  lemma MovedOne(env: Env, w: seq<Value>, at: int, shift: nat)
    requires w != [] && Width(w) == |w|
    ensures LoadOne(env, w, at) == LoadOne(env, w, at + shift) <==> shift == 0 || !Jumping(w)
  {
    var a, b := LoadOne(env, w, at), LoadOne(env, w, at + shift);
    if Word(w, 0) == Some(TOR) {
      forall i | 2 <= i < |w| ensures a[i] == Jump(w[i], at + |w|) && b[i] == Jump(w[i], at + shift + |w|) {
        assert w[2..][i - 2] == w[i];
      }
    }
  }

  /** Loaded tests that are moved up to make room for keys are what they should be at the new place, if
      and only if they do not jump: positions of jumps are not moved with them. */
  lemma {:induction false} MovedTests(env: Env, w: seq<Value>, at: int, shift: nat)
    ensures Load(env, w, at) == Load(env, w, at + shift) <==> shift == 0 || !HasJump(w)
    decreases |w|
  {
    hide Load, LoadOne, Width, Jumping;
    if w != [] && 0 < Width(w) <= |w| {
      var n := Width(w);
      LoadSplits(env, w, at);
      LoadSplits(env, w, at + shift);
      MovedTests(env, w[n..], at + n, shift);
      MovedOne(env, w[..n], at, shift);
      SameParts(LoadOne(env, w[..n], at), Load(env, w[n..], at + n), LoadOne(env, w[..n], at + shift), Load(env, w[n..], at + shift + n));
    } else {
      LoadNone(env, w, at);
      LoadNone(env, w, at + shift);
    }
  }

  lemma SameParts(a: seq<Value>, b: seq<Value>, c: seq<Value>, d: seq<Value>)
    requires |a| == |c|
    ensures a + b == c + d <==> a == c && b == d
  {
    assert (a + b)[..|a|] == a && (c + d)[..|a|] == c && (a + b)[|a|..] == b && (c + d)[|a|..] == d;
  }

  /** A disjunction jumps. */
  lemma DisjunctionJumps(env: Env, e: Expr, at: nat)
    requires e.Or?
    ensures HasJump(Code(env, e, at, false))
  {
    var w, n := Code(env, e, at, false), Count(e);
    EndsLength(e, 0);
    var ends := Ends(e, 0);
    assert w[0] == Num(TOR) && w[1] == Num(n) && w[2..2 + n] == ends;
    assert w[..Width(w)][2] == ends[0];
  }
}
