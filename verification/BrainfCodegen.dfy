/** Code generation as a specification: what each symbol adds to a function under construction. */
module BrainfCodegen {
  import opened BrainfLexer
  import opened BrainfSyntax
  import opened BrainfMeaning
  import opened BrainfIr

  const ARR: Reg := 0
  const ARRMAX: Reg := 1
  const ENTRY: BlockId := 0
  const END: BlockId := 1
  const ERROR: BlockId := 2

  /** A function under construction: its blocks, the block the builder appends to, the SSA name of the head,
      and the next unused name. */
  datatype Gen = Gen(fn: seq<Block>, cur: BlockId, head: Reg, next: Reg) {
    predicate Wf() {
      cur < |fn| && ARRMAX < head < next
    }

    /** An instruction at the insertion point. */
    function Insert(i: Instr): Gen
      requires cur < |fn|
    {
      this.(fn := fn[cur := fn[cur] + [i]])
    }

    /** An instruction that defines the next name. */
    function Define(i: Instr): Gen
      requires cur < |fn|
    {
      this.(fn := fn[cur := fn[cur] + [i]], next := next + 1)
    }

    /** A new empty block, without moving the builder. */
    function Create(code: Block): Gen {
      this.(fn := fn + [code])
    }
  }

  /** From `g` to `g'` only the block being built and new blocks have changed, and the former was extended. */
  ghost predicate Grew(g: Gen, g': Gen) {
    && g.Wf() && g'.Wf()
    && |g.fn| <= |g'.fn| && g.next <= g'.next
    && (forall b | 0 <= b < |g.fn| && b != g.cur :: g'.fn[b] == g.fn[b])
    && g.fn[g.cur] <= g'.fn[g.cur]
    && (g'.cur == g.cur || g'.cur >= |g.fn|)
  }

  /** A move by one pointer addition; with the check, also a branch to the error block if it left the tape. */
  function EmitMove(n: int, g: Gen, checked: bool): Gen
    requires g.Wf()
  {
    var h := g.next;
    var moved := g.Define(Gep(h, g.head, n)).(head := h);
    if checked then EmitCheck(moved) else moved
  }

  function EmitCheck(g: Gen): Gen
    requires g.Wf()
  {
    var t := g.next;
    var nextbb := |g.fn|;
    g.Define(IcmpUge(t, g.head, ARRMAX))
      .Define(IcmpUlt(t + 1, g.head, ARR))
      .Define(Or(t + 2, t, t + 1))
      .Create([])
      .Insert(CondBr(t + 2, ERROR, nextbb))
      .(cur := nextbb)
  }

  function EmitPrim(prim: Prim, g: Gen, checked: bool): (g': Gen)
    requires g.Wf()
    ensures Grew(g, g')
  {
    var r := g.next;
    match prim
    case Read => g.Define(GetChar(r)).Define(Trunc(r + 1, r)).Insert(Store(r + 1, g.head))
    case Write => g.Define(Load(r, g.head)).Define(SExt(r + 1, r)).Insert(PutChar(r + 1))
    case Move(n) => EmitMove(n, g, checked)
    case Change(n) => g.Define(Load(r, g.head)).Define(AddI8(r + 1, r, Wrap(n))).Insert(Store(r + 1, g.head))
  }

  /** At `[`: the test block with its half-built phi, and the body block, where building goes on. */
  function OpenLoop(g: Gen): (g': Gen)
    requires g.Wf()
    ensures Grew(g, g')
  {
    var testbb := |g.fn|;
    g.Insert(Br(testbb))
      .Create([Phi(g.next, [Incoming(g.head, g.cur)])])
      .Create([])
      .(cur := testbb + 1, head := g.next, next := g.next + 1)
  }

  /** `testbb` is the test block of a loop whose phi still lacks its second value. */
  predicate OpenTest(g: Gen, testbb: BlockId) {
    && testbb < |g.fn| && testbb != g.cur
    && |g.fn[testbb]| == 1 && g.fn[testbb][0].Phi?
  }

  /** At `]`: back to the test block, whose phi and loop test are completed, and on to a new exit block. */
  function CloseLoop(g: Gen, testbb: BlockId, bodybb: BlockId): (g': Gen)
    requires g.Wf() && OpenTest(g, testbb)
    ensures g'.Wf()
  {
    var phi := g.fn[testbb][0];
    var exitbb := |g.fn|;
    var t := g.next;
    var test := [Phi(phi.dst, phi.incoming + [Incoming(g.head, g.cur)]),
                 Load(t, phi.dst), IcmpZero(t + 1, t), CondBr(t + 1, exitbb, bodybb)];
    var jumped := g.Insert(Br(testbb));
    jumped.(fn := jumped.fn[testbb := test])
      .Create([Phi(t + 2, [Incoming(phi.dst, testbb)])])
      .(cur := exitbb, head := t + 2, next := t + 3)
  }

  function Generate(p: Prog, g: Gen, checked: bool): (g': Gen)
    requires g.Wf()
    ensures Grew(g, g')
    decreases p, 0
  {
    match p
    case Done => g
    case Then(prim, rest) => Generate(rest, EmitPrim(prim, g, checked), checked)
    case While(body, rest) => Generate(rest, GenerateLoop(body, g, checked), checked)
  }

  function GenerateLoop(body: Prog, g: Gen, checked: bool): (g': Gen)
    requires g.Wf()
    ensures Grew(g, g')
    decreases body, 1
  {
    var testbb := |g.fn|;
    var start := OpenLoop(g);
    var inner := Generate(body, start, checked);
    assert inner.fn[testbb] == start.fn[testbb];
    CloseLoop(inner, testbb, testbb + 1)
  }

  function Header(mem: nat, checked: bool): (g: Gen)
    ensures g.Wf()
  {
    var entry := [Malloc(ARR, mem), Memset(ARR, mem)]
                 + (if checked then [Gep(ARRMAX, ARR, mem)] else [])
                 + [Gep(ARRMAX + 1, ARR, mem / 2)];
    Gen([entry, [Free(ARR), Ret]] + (if checked then [[Puts, Br(END)]] else []),
        ENTRY, ARRMAX + 1, ARRMAX + 2)
  }

  function Finish(g: Gen): seq<Block>
    requires g.Wf()
  {
    g.Insert(Br(END)).fn
  }

  /** The whole compiled function. */
  function Compile(p: Prog, mem: nat, checked: bool): seq<Block> {
    Finish(Generate(p, Header(mem, checked), checked))
  }
}
