/** The generated code does what the program interpreter does. Each lemma follows one piece of generated code
    inside a finished function `fn` and returns how many steps the machine takes and where it then stands. */
module BrainfSimulation {
  import opened Wrappers
  import opened BrainfLexer
  import opened BrainfSyntax
  import opened BrainfMeaning
  import opened BrainfIr
  import opened BrainfCodegen

  /** The finished function contains the code generated between `g` and `g'`; the block `g'` still builds may
      have been extended further. */
  ghost predicate Contains(fn: seq<Block>, g: Gen, g': Gen) {
    && g.Wf() && g'.Wf()
    && |g'.fn| <= |fn|
    && (forall b | |g.fn| <= b < |g'.fn| && b != g'.cur :: fn[b] == g'.fn[b])
    && (g.cur != g'.cur ==> g.cur < |g'.fn| && fn[g.cur] == g'.fn[g.cur])
    && g'.fn[g'.cur] <= fn[g'.cur]
  }

  lemma ContainsSplit(fn: seq<Block>, g: Gen, g1: Gen, g': Gen)
    requires Grew(g, g1) && Grew(g1, g') && Contains(fn, g, g')
    ensures Contains(fn, g, g1) && Contains(fn, g1, g')
  {
  }

  ghost function IoOf(w: World): Io {
    Io(Live(w.tape), w.input, w.output)
  }

  /** The machine's registers know the tape and the head. */
  ghost predicate Knows(m: Machine, head: Reg, st: State, checked: bool) {
    && m.io == IoOf(st.w)
    && ARR in m.env && m.env[ARR] == 0
    && (checked ==> ARRMAX in m.env && m.env[ARRMAX] == |st.w.tape|)
    && head in m.env && m.env[head] == st.head
  }

  /** The machine stands at the end of the code generated so far. */
  ghost predicate AtEndOf(c: Config, g: Gen, st: State, checked: bool) {
    && g.Wf()
    && c.Active? && c.m.block == g.cur && c.m.pc == |g.fn[g.cur]|
    && Knows(c.m, g.head, st, checked)
  }

  /** `c`, reached after `k` steps, is where an outcome other than finishing puts the machine. */
  ghost predicate Ended(out: Outcome, c: Config, fuel: nat, k: nat) {
    match out
    case Finished(_) => false
    case Trap(st) => c == Trapped(IoOf(st.w))
    case OffTape(st) => c.Active? && c.m.block == ERROR && c.m.pc == 0 && c.m.io == IoOf(st.w)
                        && ARR in c.m.env && c.m.env[ARR] == 0
    case Running(st) => c.Active? && c.m.io == IoOf(st.w) && k >= fuel
  }

  /** `c`, reached after `k` steps, is where the outcome `out` of the source puts the machine. */
  ghost predicate Agrees(out: Outcome, c: Config, g': Gen, checked: bool, fuel: nat, k: nat) {
    if out.Finished? then AtEndOf(c, g', out.st, checked) else Ended(out, c, fuel, k)
  }

  /** The finished function has `code` in block `b` from position `at` on. */
  ghost predicate Code(fn: seq<Block>, b: BlockId, at: nat, code: seq<Instr>) {
    b < |fn| && at + |code| <= |fn[b]| && (forall i {:trigger code[i]} | 0 <= i < |code| :: fn[b][at + i] == code[i])
  }

  /** One step, at the `i`-th instruction of a known stretch of code. */
  lemma Advance(fn: seq<Block>, start: Config, k: nat, c: Config, at: nat, code: seq<Instr>, i: nat, instr: Instr)
    returns (k': nat, c': Config)
    requires Reached(fn, start, k, c) && c.Active?
    requires Code(fn, c.m.block, at, code) && i < |code| && c.m.pc == at + i
    requires code[i] == instr && Uses(instr) <= c.m.env.Keys
    ensures k' == k + 1 && c' == Obey(instr, c.m) && Reached(fn, start, k', c')
  {
    k', c' := k + 1, Obey(instr, c.m);
    assert Step(fn, c) == c' && Run(fn, c, 1) == c';
    ReachedIsRun(fn, c, 1, c');
    ReachedAdd(fn, start, k, c, 1, c');
  }

  /** The machine stands at instruction `pc` and knows tape and head. */
  ghost predicate Stands(c: Config, pc: nat, head: Reg, st: State, checked: bool) {
    c.Active? && c.m.pc == pc && Knows(c.m, head, st, checked)
  }

  /** The machine has done one primitive, in straight-line code that ends before `pc` of block `b`. */
  ghost predicate Performed(out: Outcome, c: Config, b: BlockId, pc: nat, head: Reg, checked: bool) {
    match out
    case Finished(st) => Stands(c, pc, head, st, checked) && c.m.block == b
    case Trap(st) => c == Trapped(IoOf(st.w))
    case _ => false
  }

  lemma ReadRuns(r: Reg, head: Reg, pc: nat, fn: seq<Block>, st: State, c: Config, checked: bool)
    returns (k: nat, c': Config)
    requires ARRMAX < head < r && Stands(c, pc, head, st, checked)
    requires Code(fn, c.m.block, pc, [GetChar(r), Trunc(r + 1, r), Store(r + 1, head)])
    ensures Reached(fn, c, k, c')
    ensures Performed(Perform(Read, st, checked), c', c.m.block, pc + 3, head, checked)
  {
    hide Reached, Run, Step, Code;
    var code := [GetChar(r), Trunc(r + 1, r), Store(r + 1, head)];
    k, c' := 0, c;
    var v := if st.w.input == [] then 255 else st.w.input[0];
    k, c' := Advance(fn, c, k, c', pc, code, 0, GetChar(r));
    assert Wrap(c'.m.env[r]) == v;
    k, c' := Advance(fn, c, k, c', pc, code, 1, Trunc(r + 1, r));
    assert c'.m.env[r + 1] == v;
    k, c' := Advance(fn, c, k, c', pc, code, 2, Store(r + 1, head));
  }

  lemma WriteRuns(r: Reg, head: Reg, pc: nat, fn: seq<Block>, st: State, c: Config, checked: bool)
    returns (k: nat, c': Config)
    requires ARRMAX < head < r && Stands(c, pc, head, st, checked)
    requires Code(fn, c.m.block, pc, [Load(r, head), SExt(r + 1, r), PutChar(r + 1)])
    ensures Reached(fn, c, k, c')
    ensures Performed(Perform(Write, st, checked), c', c.m.block, pc + 3, head, checked)
  {
    hide Reached, Run, Step, Code;
    var code := [Load(r, head), SExt(r + 1, r), PutChar(r + 1)];
    k, c' := 0, c;
    k, c' := Advance(fn, c, k, c', pc, code, 0, Load(r, head));
    if c'.Active? {
      k, c' := Advance(fn, c, k, c', pc, code, 1, SExt(r + 1, r));
      k, c' := Advance(fn, c, k, c', pc, code, 2, PutChar(r + 1));
    }
  }

  lemma ChangeRuns(n: int, r: Reg, head: Reg, pc: nat, fn: seq<Block>, st: State, c: Config, checked: bool)
    returns (k: nat, c': Config)
    requires ARRMAX < head < r && Stands(c, pc, head, st, checked)
    requires Code(fn, c.m.block, pc, [Load(r, head), AddI8(r + 1, r, Wrap(n)), Store(r + 1, head)])
    ensures Reached(fn, c, k, c')
    ensures Performed(Perform(Change(n), st, checked), c', c.m.block, pc + 3, head, checked)
  {
    hide Reached, Run, Step, Code;
    var code := [Load(r, head), AddI8(r + 1, r, Wrap(n)), Store(r + 1, head)];
    k, c' := 0, c;
    k, c' := Advance(fn, c, k, c', pc, code, 0, Load(r, head));
    if c'.Active? {
      k, c' := Advance(fn, c, k, c', pc, code, 1, AddI8(r + 1, r, Wrap(n)));
      k, c' := Advance(fn, c, k, c', pc, code, 2, Store(r + 1, head));
    }
  }

  lemma MoveSimulates(n: int, g: Gen, fn: seq<Block>, st: State, c: Config, checked: bool, fuel: nat)
    returns (k: nat, c': Config)
    requires AtEndOf(c, g, st, checked) && Contains(fn, g, EmitPrim(Move(n), g, checked))
    ensures Reached(fn, c, k, c')
    ensures Agrees(Perform(Move(n), st, checked), c', EmitPrim(Move(n), g, checked), checked, fuel, k)
  {
    hide Reached, Run, Step;
    var g' := EmitPrim(Move(n), g, checked);
    var h, pc := g.next, |g.fn[g.cur]|;
    var move := [Gep(h, g.head, n)];
    if !checked {
      assert Code(fn, g.cur, pc, move) by {
        assert g'.fn[g.cur] == g.fn[g.cur] + move;
      }
      k, c' := 0, c;
      k, c' := Advance(fn, c, k, c', pc, move, 0, Gep(h, g.head, n));
    } else {
      var test := [IcmpUge(h + 1, h, ARRMAX), IcmpUlt(h + 2, h, ARR), Or(h + 3, h + 1, h + 2),
                   CondBr(h + 3, ERROR, |g.fn|)];
      var code := move + test;
      assert Code(fn, g.cur, pc, code) by {
        assert g'.fn[g.cur] == g.fn[g.cur] + move + test;
      }
      k, c' := 0, c;
      k, c' := Advance(fn, c, k, c', pc, code, 0, Gep(h, g.head, n));
      k, c' := Advance(fn, c, k, c', pc, code, 1, IcmpUge(h + 1, h, ARRMAX));
      k, c' := Advance(fn, c, k, c', pc, code, 2, IcmpUlt(h + 2, h, ARR));
      k, c' := Advance(fn, c, k, c', pc, code, 3, Or(h + 3, h + 1, h + 2));
      k, c' := Advance(fn, c, k, c', pc, code, 4, CondBr(h + 3, ERROR, |g.fn|));
    }
  }

  lemma PrimSimulates(prim: Prim, g: Gen, fn: seq<Block>, st: State, c: Config, checked: bool, fuel: nat)
    returns (k: nat, c': Config)
    requires AtEndOf(c, g, st, checked) && Contains(fn, g, EmitPrim(prim, g, checked))
    ensures Reached(fn, c, k, c')
    ensures Agrees(Perform(prim, st, checked), c', EmitPrim(prim, g, checked), checked, fuel, k)
  {
    hide Reached, Run, Step;
    var r, pc := g.next, |g.fn[g.cur]|;
    var g' := EmitPrim(prim, g, checked);
    assert !prim.Move? ==> Code(fn, g.cur, pc, g'.fn[g.cur][pc..]);
    match prim
    case Read => k, c' := ReadRuns(r, g.head, pc, fn, st, c, checked);
    case Write => k, c' := WriteRuns(r, g.head, pc, fn, st, c, checked);
    case Change(n) => k, c' := ChangeRuns(n, r, g.head, pc, fn, st, c, checked);
    case Move(n) => k, c' := MoveSimulates(n, g, fn, st, c, checked, fuel);
  }

  /** The machine is in a test block, past its phi, which holds the head. */
  ghost predicate AtTest(c: Config, testbb: BlockId, phi: Reg, st: State, checked: bool) {
    c.Active? && c.m.block == testbb && c.m.pc == 1 && Knows(c.m, phi, st, checked)
  }

  function HeadPhi(g: Gen, inner: Gen): Instr {
    Phi(g.next, [Incoming(g.head, g.cur), Incoming(inner.head, inner.cur)])
  }

  /** The finished test block of the loop opened at `g` and closed at `inner`. */
  function TestCode(g: Gen, inner: Gen): seq<Instr> {
    var t := inner.next;
    [HeadPhi(g, inner), Load(t, g.next), IcmpZero(t + 1, t), CondBr(t + 1, |inner.fn|, |g.fn| + 1)]
  }

  function ExitPhi(g: Gen, inner: Gen): Instr {
    Phi(inner.next + 2, [Incoming(g.next, |g.fn|)])
  }

  /** What a finished function holds for one loop; `inner` is where building stood at the end of its body. */
  ghost predicate LoopCode(fn: seq<Block>, g: Gen, inner: Gen) {
    && g.Wf() && inner.Wf() && g.next < inner.next && inner.cur != g.cur
    && Code(fn, g.cur, |g.fn[g.cur]|, [Br(|g.fn|)])
    && Code(fn, |g.fn|, 0, TestCode(g, inner))
    && Code(fn, inner.cur, |inner.fn[inner.cur]|, [Br(|g.fn|)])
    && Code(fn, |inner.fn|, 0, [ExitPhi(g, inner)])
  }

  lemma LoopIsCode(g: Gen, inner: Gen, fn: seq<Block>)
    requires g.Wf() && Grew(OpenLoop(g), inner) && OpenTest(inner, |g.fn|)
    requires Contains(fn, g, CloseLoop(inner, |g.fn|, |g.fn| + 1))
    ensures LoopCode(fn, g, inner) && Contains(fn, OpenLoop(g), inner)
  {
    var testbb := |g.fn|;
    var start := OpenLoop(g);
    var done := CloseLoop(inner, testbb, testbb + 1);
    var jump := [Br(testbb)];
    assert inner.cur > testbb && done.cur == |inner.fn|;
    assert fn[g.cur] == g.fn[g.cur] + jump by {
      assert done.fn[g.cur] == inner.fn[g.cur] == start.fn[g.cur];
    }
    assert fn[testbb] == TestCode(g, inner) by {
      assert inner.fn[testbb] == start.fn[testbb] == [Phi(g.next, [Incoming(g.head, g.cur)])];
      assert [Incoming(g.head, g.cur)] + [Incoming(inner.head, inner.cur)] == HeadPhi(g, inner).incoming;
    }
    assert fn[inner.cur] == inner.fn[inner.cur] + jump by {
      assert done.fn[inner.cur] == inner.fn[inner.cur] + jump;
    }
    assert Contains(fn, start, inner) by {
      assert forall b | |start.fn| <= b < |inner.fn| && b != inner.cur :: fn[b] == done.fn[b] == inner.fn[b];
      assert start.cur != inner.cur ==> fn[start.cur] == done.fn[start.cur] == inner.fn[start.cur];
    }
  }

  lemma Jump(fn: seq<Block>, start: Config, k: nat, c: Config, pc: nat, head: Reg, target: BlockId,
             phi: Instr, code: seq<Instr>, st: State, checked: bool) returns (k': nat, c': Config)
    requires Reached(fn, start, k, c) && Stands(c, pc, head, st, checked)
    requires Code(fn, c.m.block, pc, [Br(target)])
    requires Code(fn, target, 0, code) && code != [] && code[0] == phi
    requires phi.Phi? && phi.dst > ARRMAX && PhiValue(phi.incoming, c.m.block) == Some(head)
    ensures k' == k + 2 && Reached(fn, start, k', c')
    ensures AtTest(c', target, phi.dst, st, checked)
  {
    k', c' := Advance(fn, start, k, c, pc, [Br(target)], 0, Br(target));
    k', c' := Advance(fn, start, k', c', 0, code, 0, phi);
  }

  /** The loop test: trap, leave for the exit block, or enter the body block. */
  lemma TestRuns(phi: Instr, t: Reg, exitbb: BlockId, bodybb: BlockId, fn: seq<Block>, st: State, c: Config,
                 checked: bool) returns (k: nat, c': Config)
    requires phi.Phi? && ARRMAX < phi.dst < t && Stands(c, 1, phi.dst, st, checked)
    requires Code(fn, c.m.block, 0, [phi, Load(t, phi.dst), IcmpZero(t + 1, t), CondBr(t + 1, exitbb, bodybb)])
    ensures Reached(fn, c, k, c')
    ensures if !st.InTape() then c' == Trapped(IoOf(st.w))
            else k >= 1 && Stands(c', 0, phi.dst, st, checked) && c'.m.prev == c.m.block
                 && c'.m.block == if st.Cell() == 0 then exitbb else bodybb
  {
    hide Reached, Run, Step;
    var code := [phi, Load(t, phi.dst), IcmpZero(t + 1, t), CondBr(t + 1, exitbb, bodybb)];
    k, c' := 0, c;
    k, c' := Advance(fn, c, k, c', 0, code, 1, Load(t, phi.dst));
    if st.InTape() {
      k, c' := Advance(fn, c, k, c', 0, code, 2, IcmpZero(t + 1, t));
      k, c' := Advance(fn, c, k, c', 0, code, 3, CondBr(t + 1, exitbb, bodybb));
    }
  }

  lemma ExitRuns(g: Gen, inner: Gen, fn: seq<Block>, start: Config, k: nat, c: Config, st: State, checked: bool)
    returns (k': nat, c': Config)
    requires Reached(fn, start, k, c) && Code(fn, |inner.fn|, 0, [ExitPhi(g, inner)]) && inner.Wf()
    requires Stands(c, 0, g.next, st, checked) && c.m.prev == |g.fn| && c.m.block == |inner.fn|
    ensures Reached(fn, start, k', c') && AtTest(c', |inner.fn|, inner.next + 2, st, checked)
  {
    assert PhiValue([Incoming(g.next, |g.fn|)], |g.fn|) == Some(g.next);
    k', c' := Advance(fn, start, k, c, 0, [ExitPhi(g, inner)], 0, ExitPhi(g, inner));
  }

  lemma TwoIncoming(a: Incoming, b: Incoming)
    requires a.from != b.from
    ensures PhiValue([a, b], a.from) == Some(a.value) && PhiValue([a, b], b.from) == Some(b.value)
  {
    assert [a, b][1..] == [b];
  }

  /** Once more around: from the end of the body back to the test. */
  lemma BackEdge(g: Gen, inner: Gen, fn: seq<Block>, start: Config, k: nat, c: Config, st: State, checked: bool)
    returns (k': nat, c': Config)
    requires LoopCode(fn, g, inner) && Reached(fn, start, k, c) && AtEndOf(c, inner, st, checked)
    ensures k' > k && Reached(fn, start, k', c') && AtTest(c', |g.fn|, g.next, st, checked)
  {
    TwoIncoming(Incoming(g.head, g.cur), Incoming(inner.head, inner.cur));
    k', c' := Jump(fn, start, k, c, |inner.fn[inner.cur]|, inner.head, |g.fn|, HeadPhi(g, inner), TestCode(g, inner),
                   st, checked);
  }

  lemma LoopEntry(g: Gen, inner: Gen, fn: seq<Block>, st: State, c: Config, checked: bool)
    returns (k: nat, c': Config)
    requires LoopCode(fn, g, inner) && AtEndOf(c, g, st, checked)
    ensures Reached(fn, c, k, c') && AtTest(c', |g.fn|, g.next, st, checked)
  {
    TwoIncoming(Incoming(g.head, g.cur), Incoming(inner.head, inner.cur));
    ReachedIsRun(fn, c, 0, c);
    k, c' := Jump(fn, c, 0, c, |g.fn[g.cur]|, g.head, |g.fn|, HeadPhi(g, inner), TestCode(g, inner), st, checked);
  }

  lemma {:induction false} LoopSimulates(body: Prog, g: Gen, inner: Gen, fn: seq<Block>, st: State, c: Config,
                                         checked: bool, fuel: nat) returns (k: nat, c': Config)
    requires LoopCode(fn, g, inner)
    requires inner == Generate(body, OpenLoop(g), checked) && Contains(fn, OpenLoop(g), inner)
    requires AtTest(c, |g.fn|, g.next, st, checked)
    ensures Reached(fn, c, k, c')
    ensures var out := Iterate(body, st, checked, fuel);
            if out.Finished? then AtTest(c', |inner.fn|, inner.next + 2, out.st, checked) else Ended(out, c', fuel, k)
    decreases fuel, body, 1
  {
    hide Reached, Contains, Exec, Generate;
    k, c' := TestRuns(HeadPhi(g, inner), inner.next, |inner.fn|, |g.fn| + 1, fn, st, c, checked);
    if st.InTape() && st.Cell() == 0 {
      k, c' := ExitRuns(g, inner, fn, c, k, c', st, checked);
    } else if st.InTape() && fuel != 0 {
      var k1, c1 := Simulates(body, OpenLoop(g), fn, st, c', checked, fuel - 1);
      ReachedAdd(fn, c, k, c', k1, c1);
      k, c' := k + k1, c1;
      var out := Exec(body, st, checked, fuel - 1);
      if out.Finished? {
        var k2, c2 := BackEdge(g, inner, fn, c, k, c1, out.st, checked);
        var k3, c3 := LoopSimulates(body, g, inner, fn, out.st, c2, checked, fuel - 1);
        ReachedAdd(fn, c, k2, c2, k3, c3);
        k, c' := k2 + k3, c3;
      }
    }
  }

  /** A whole loop, from the block before it to its exit block. */
  lemma {:induction false} WhileSimulates(body: Prog, g: Gen, fn: seq<Block>, st: State, c: Config,
                                          checked: bool, fuel: nat) returns (k: nat, c': Config)
    requires AtEndOf(c, g, st, checked) && Contains(fn, g, GenerateLoop(body, g, checked))
    ensures Reached(fn, c, k, c')
    ensures Agrees(Iterate(body, st, checked, fuel), c', GenerateLoop(body, g, checked), checked, fuel, k)
    decreases fuel, body, 2
  {
    hide Reached, LoopCode, Iterate, Generate;
    var inner := Generate(body, OpenLoop(g), checked);
    assert inner.fn[|g.fn|] == OpenLoop(g).fn[|g.fn|];
    LoopIsCode(g, inner, fn);
    k, c' := LoopEntry(g, inner, fn, st, c, checked);
    var k1, c1 := LoopSimulates(body, g, inner, fn, st, c', checked, fuel);
    ReachedAdd(fn, c, k, c', k1, c1);
    k, c' := k + k1, c1;
  }

  /** The generated code of a program, from where it starts to where it ends, in lockstep with the source:
      every loop iteration of the source takes at least one machine step. */
  lemma {:induction false} Simulates(p: Prog, g: Gen, fn: seq<Block>, st: State, c: Config,
                                     checked: bool, fuel: nat) returns (k: nat, c': Config)
    requires AtEndOf(c, g, st, checked) && Contains(fn, g, Generate(p, g, checked))
    ensures Reached(fn, c, k, c')
    ensures Agrees(Exec(p, st, checked, fuel), c', Generate(p, g, checked), checked, fuel, k)
    decreases fuel, p, 0
  {
    hide Reached, EmitPrim, GenerateLoop, Perform, Iterate;
    match p
    case Done =>
      k, c' := 0, c;
      ReachedIsRun(fn, c, 0, c);
    case Then(prim, rest) =>
      var g1 := EmitPrim(prim, g, checked);
      ContainsSplit(fn, g, g1, Generate(p, g, checked));
      k, c' := PrimSimulates(prim, g, fn, st, c, checked, fuel);
      k, c' := RestSimulates(rest, g1, fn, Perform(prim, st, checked), c, k, c', checked, fuel);
    case While(body, rest) =>
      var g1 := GenerateLoop(body, g, checked);
      ContainsSplit(fn, g, g1, Generate(p, g, checked));
      k, c' := WhileSimulates(body, g, fn, st, c, checked, fuel);
      k, c' := RestSimulates(rest, g1, fn, Iterate(body, st, checked, fuel), c, k, c', checked, fuel);
  }

  /** After the first command has ended with `out` in `c1`, the rest of the program runs if it finished. */
  lemma {:induction false} RestSimulates(rest: Prog, g1: Gen, fn: seq<Block>, out: Outcome, c: Config, k1: nat,
                                         c1: Config, checked: bool, fuel: nat) returns (k: nat, c': Config)
    requires g1.Wf() && Contains(fn, g1, Generate(rest, g1, checked))
    requires Reached(fn, c, k1, c1) && Agrees(out, c1, g1, checked, fuel, k1)
    ensures Reached(fn, c, k, c')
    ensures Agrees(if out.Finished? then Exec(rest, out.st, checked, fuel) else out, c', Generate(rest, g1, checked),
                   checked, fuel, k)
    decreases fuel, rest, 1
  {
    hide Reached, Contains, Generate, Exec;
    k, c' := k1, c1;
    if out.Finished? {
      var k2, c2 := Simulates(rest, g1, fn, out.st, c1, checked, fuel);
      ReachedAdd(fn, c, k1, c1, k2, c2);
      k, c' := k1 + k2, c2;
    }
  }
}
