/** The machine as it runs: a place in the code and a stack, moved on by every operation. */
module Execution {
  import opened Wrappers
  import opened Expressions
  import opened Machine

  class Interpreter {
    const p: Program
    var pc: nat
    var stack: seq<Value>

    constructor (p: Program)
      ensures this.p == p && pc == 0 && stack == []
    {
      this.p := p;
      pc, stack := 0, [];
    }

    /** The machine is where r says. */
    ghost predicate Did(r: Out, ok: bool, go: bool)
      reads this
    {
      if r.Fault? then !ok else ok && go == r.go && pc == r.pc && stack == r.stack
    }

    lemma DidIs(r: Out, ok: bool, go: bool)
      ensures Did(r, ok, go) <==> if r.Fault? then !ok else ok && go == r.go && pc == r.pc && stack == r.stack
    {}

    /** Executes operations until one does not go on, or the end is reached. */
    method Execute(end: nat) returns (ok: bool, go: bool)
      requires pc <= |p.code|
      modifies this
      ensures Did(Run(p, old(pc), old(stack), end), ok, go)
      decreases |p.code| - pc, 3
    {
      ok, go := true, true;
      ghost var all := Run(p, pc, stack, end);
      while go && pc != end
        invariant ok && pc <= |p.code| && old(pc) <= pc
        invariant if go then all == Run(p, pc, stack, end) else Did(all, ok, go)
        decreases |p.code| - pc, go
      {
        if pc > end || pc == |p.code| { return false, false; }
        ok, go := Operation();
        if !ok { return false, false; }
      }
    }

    /** The operation at the present place. */
    method Operation() returns (ok: bool, go: bool)
      requires pc < |p.code|
      modifies this
      ensures Did(Step(p, old(pc), old(stack)), ok, go)
      decreases |p.code| - pc, 2
    {
      var w := Word(p.code, pc);
      if w == Some(EVAL) {
        ok := EvalCall();
        go := true;
      } else if w == Some(TOR) {
        ok, go := TorCall();
      } else {
        var r := Step(p, pc, stack);
        ok, go := r.Out?, r.Out? && r.go;
        if ok { pc, stack := r.pc, r.stack; }
      }
    }

    /** Whether the code behind goes on to its end is put on the stack. */
    method EvalCall() returns (ok: bool)
      requires pc < |p.code|
      modifies this
      ensures Did(RunEval(p, old(pc), old(stack)), ok, true)
      decreases |p.code| - pc, 1
    {
      var len := Word(p.code, pc + 1);
      if len.None? || len.value < 0 || pc + 2 + len.value > |p.code| { return false; }
      var endOfCode := pc + 2 + len.value;
      pc := pc + 2;
      var go;
      ok, go := Execute(endOfCode);
      pc, stack := endOfCode, stack + [Truth(go)];
    }

    /** Tries the alternatives in turn until one goes on to its end. */
    method TorCall() returns (ok: bool, go: bool)
      requires pc < |p.code|
      modifies this
      ensures Did(RunTor(p, old(pc), old(stack)), ok, go)
      decreases |p.code| - pc, 1
    {
      var tor, n := pc, Word(p.code, pc + 1);
      if n.None? || n.value < 1 || pc + 2 + n.value > |p.code| { return false, false; }
      var k := 0;
      pc := tor + 2 + n.value;
      go := false;
      ghost var all := Alternatives(p, tor, n.value, 0, pc, stack);
      while k < n.value && !go
        invariant 0 <= k <= n.value && tor < pc <= |p.code|
        invariant if go || k == n.value then Did(all, true, go) else all == Alternatives(p, tor, n.value, k, pc, stack)
        decreases n.value - k, !go
      {
        var end, last := Word(p.code, tor + 2 + k), Word(p.code, tor + 1 + n.value);
        if end.None? || last.None? || !(pc <= end.value <= |p.code|) { return false, false; }
        ok, go := Execute(end.value);
        if !ok { return false, false; }
        if go {
          if !(tor < last.value <= |p.code|) { return false, false; }
          pc := last.value;
        } else {
          pc, k := end.value, k + 1;
        }
      }
      ok := true;
    }
  }
}
