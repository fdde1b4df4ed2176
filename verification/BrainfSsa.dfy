/** The emitted function is in SSA form: a certificate that the code generator maintains while it builds, half
    finished loops included, and what the certificate gives for the finished function. */
module BrainfSsa {
  import opened BrainfLexer
  import opened BrainfSyntax
  import opened BrainfMeaning
  import opened BrainfIr
  import opened BrainfCodegen

  function Def(i: Instr): set<Reg> {
    match i
    case Malloc(dst, _) => {dst}
    case Gep(dst, _, _) => {dst}
    case GetChar(dst) => {dst}
    case Trunc(dst, _) => {dst}
    case SExt(dst, _) => {dst}
    case Load(dst, _) => {dst}
    case AddI8(dst, _, _) => {dst}
    case IcmpUge(dst, _, _) => {dst}
    case IcmpUlt(dst, _, _) => {dst}
    case IcmpZero(dst, _) => {dst}
    case Or(dst, _, _) => {dst}
    case Phi(dst, _) => {dst}
    case _ => {}
  }

  function Targets(i: Instr): set<BlockId> {
    match i
    case Br(target) => {target}
    case CondBr(_, yes, no) => {yes, no}
    case _ => {}
  }

  /** The registers a stretch of code defines. */
  function Defs(code: seq<Instr>): set<Reg> {
    if code == [] then {} else Defs(code[..|code| - 1]) + Def(code[|code| - 1])
  }

  /** The blocks a block branches to. */
  function Jumps(code: seq<Instr>): set<BlockId> {
    if code == [] then {} else Jumps(code[..|code| - 1]) + Targets(code[|code| - 1])
  }

  ghost predicate Straight(code: seq<Instr>) {
    forall i | 0 <= i < |code| :: !code[i].IsTerminator()
  }

  ghost predicate OneTerminator(code: seq<Instr>) {
    code != [] && code[|code| - 1].IsTerminator() && Straight(code[..|code| - 1])
  }

  predicate HasPhi(code: seq<Instr>) {
    code != [] && code[0].Phi?
  }

  ghost predicate PhisFirst(code: seq<Instr>) {
    forall i | 0 < i < |code| :: !code[i].Phi?
  }

  /** Each register read, other than by a phi, is in `known` or defined earlier in the block. */
  ghost predicate UsesKnown(code: seq<Instr>, known: set<Reg>) {
    forall i | 0 <= i < |code| :: Uses(code[i]) <= known + Defs(code[..i])
  }

  ghost predicate DefinedOnce(fn: seq<Block>) {
    forall b, i, b', i' | 0 <= b < |fn| && 0 <= i < |fn[b]| && 0 <= b' < |fn| && 0 <= i' < |fn[b']|
             && (b, i) != (b', i') ::
      Def(fn[b][i]) !! Def(fn[b'][i'])
  }

  /** A phi has exactly one value for each predecessor and none besides. */
  ghost predicate PhiMatches(fn: seq<Block>, b: BlockId, incoming: seq<Incoming>) {
    && (forall i, j | 0 <= i < j < |incoming| :: incoming[i].from != incoming[j].from)
    && (forall i | 0 <= i < |incoming| :: incoming[i].from < |fn| && b in Jumps(fn[incoming[i].from]))
    && (forall a | 0 <= a < |fn| && b in Jumps(fn[a]) :: exists i :: 0 <= i < |incoming| && incoming[i].from == a)
  }

  // ---------- The certificate ----------

  /** For each block a set of registers that are defined whenever control enters it. */
  type Entry = seq<set<Reg>>

  ghost function Out(fn: seq<Block>, entry: Entry, b: BlockId): set<Reg>
    requires b < |fn| && b < |entry|
  {
    entry[b] + Defs(fn[b])
  }

  ghost predicate BlockOk(fn: seq<Block>, entry: Entry, b: BlockId)
    requires b < |fn| == |entry|
  {
    && PhisFirst(fn[b])
    && UsesKnown(fn[b], entry[b])
    && (forall t | t in Jumps(fn[b]) :: 0 < t < |fn| && entry[t] <= Out(fn, entry, b))
  }

  ghost predicate PhiOk(fn: seq<Block>, entry: Entry, b: BlockId)
    requires b < |fn| == |entry|
  {
    HasPhi(fn[b]) ==>
      && PhiMatches(fn, b, fn[b][0].incoming)
      && (forall i | 0 <= i < |fn[b][0].incoming| ::
            fn[b][0].incoming[i].value in Out(fn, entry, fn[b][0].incoming[i].from))
  }

  /** Exactly the blocks in `open` still lack their terminator. */
  ghost predicate Shapes(fn: seq<Block>, open: set<BlockId>) {
    && (forall b | b in open :: b < |fn| && Straight(fn[b]))
    && (forall b | 0 <= b < |fn| && b !in open :: OneTerminator(fn[b]))
  }

  ghost predicate Flow(fn: seq<Block>, entry: Entry) {
    |fn| == |entry| && forall b | 0 <= b < |fn| :: BlockOk(fn, entry, b)
  }

  ghost predicate Phis(fn: seq<Block>, entry: Entry) {
    |fn| == |entry| && forall b | 0 <= b < |fn| :: PhiOk(fn, entry, b)
  }

  /** Every name is defined at most once and is below `next`. */
  ghost predicate Names(fn: seq<Block>, next: Reg) {
    && (forall b, i, r | 0 <= b < |fn| && 0 <= i < |fn[b]| && r in Def(fn[b][i]) :: r < next)
    && DefinedOnce(fn)
  }

  ghost predicate Inv(fn: seq<Block>, next: Reg, open: set<BlockId>, entry: Entry) {
    Shapes(fn, open) && Flow(fn, entry) && Phis(fn, entry) && Names(fn, next)
  }

  lemma AppendFacts(code: seq<Instr>, i: Instr)
    ensures Defs(code + [i]) == Defs(code) + Def(i)
    ensures Jumps(code + [i]) == Jumps(code) + Targets(i)
    ensures (code + [i])[..|code|] == code
  {
    assert (code + [i])[..|code|] == code;
  }

  /** `i` may go to the end of block `b`: it defines only unused names, reads only known ones, and jumps only
      to blocks that have no phi to be told and that expect no more than is known here. */
  ghost predicate MayAppend(fn: seq<Block>, next: Reg, open: set<BlockId>, entry: Entry, b: BlockId, i: Instr,
                            next': Reg) {
    && |fn| == |entry| && b in open && b < |fn| && next <= next'
    && !i.Phi? && Uses(i) <= Out(fn, entry, b)
    && (forall r | r in Def(i) :: next <= r < next')
    && (forall t | t in Targets(i) :: 0 < t < |fn| && !HasPhi(fn[t]) && entry[t] <= Out(fn, entry, b))
  }

  function Append(fn: seq<Block>, b: BlockId, i: Instr): seq<Block>
    requires b < |fn|
  {
    fn[b := fn[b] + [i]]
  }

  lemma AppendBlock(code: seq<Instr>, i: Instr, known: set<Reg>)
    requires PhisFirst(code) && UsesKnown(code, known) && Uses(i) <= known + Defs(code)
    requires !i.Phi? || code == []
    ensures PhisFirst(code + [i]) && UsesKnown(code + [i], known)
  {
    forall j | 0 <= j < |code + [i]|
      ensures Uses((code + [i])[j]) <= known + Defs((code + [i])[..j])
    {
      assert (code + [i])[..j] == code[..j];
      assert j < |code| ==> (code + [i])[j] == code[j];
      assert code[..|code|] == code;
    }
  }

  lemma AppendFlow(fn: seq<Block>, next: Reg, open: set<BlockId>, entry: Entry, b: BlockId, i: Instr, next': Reg)
    requires Flow(fn, entry) && MayAppend(fn, next, open, entry, b, i, next')
    ensures Flow(Append(fn, b, i), entry)
    ensures Out(Append(fn, b, i), entry, b) == Out(fn, entry, b) + Def(i)
  {
    assert BlockOk(fn, entry, b);
    AppendFacts(fn[b], i);
    AppendBlock(fn[b], i, entry[b]);
    forall a | 0 <= a < |fn| ensures BlockOk(Append(fn, b, i), entry, a) {
      assert BlockOk(fn, entry, a);
    }
  }

  lemma AppendPhis(fn: seq<Block>, next: Reg, open: set<BlockId>, entry: Entry, b: BlockId, i: Instr, next': Reg)
    requires Phis(fn, entry) && MayAppend(fn, next, open, entry, b, i, next')
    ensures Phis(Append(fn, b, i), entry)
  {
    AppendFacts(fn[b], i);
    var fn' := Append(fn, b, i);
    forall a | 0 <= a < |fn| ensures PhiOk(fn', entry, a) {
      assert PhiOk(fn, entry, a);
      if HasPhi(fn'[a]) {
        assert fn'[a][0] == fn[a][0];
        assert a !in Targets(i);
        assert forall c | 0 <= c < |fn| ::
            (a in Jumps(fn'[c]) <==> a in Jumps(fn[c])) && Out(fn, entry, c) <= Out(fn', entry, c);
      }
    }
  }

  lemma AppendNames(fn: seq<Block>, next: Reg, b: BlockId, i: Instr, next': Reg)
    requires Names(fn, next) && b < |fn| && next <= next' && forall r | r in Def(i) :: next <= r < next'
    ensures Names(Append(fn, b, i), next')
  {
    var fn' := Append(fn, b, i);
    assert forall a, j | 0 <= a < |fn| && 0 <= j < |fn[a]| :: fn'[a][j] == fn[a][j];
    assert fn'[b][|fn[b]|] == i;
  }

  lemma InvAppend(fn: seq<Block>, next: Reg, open: set<BlockId>, entry: Entry, b: BlockId, i: Instr, next': Reg)
    requires Inv(fn, next, open, entry) && MayAppend(fn, next, open, entry, b, i, next')
    ensures Inv(Append(fn, b, i), next', if i.IsTerminator() then open - {b} else open, entry)
    ensures Out(Append(fn, b, i), entry, b) == Out(fn, entry, b) + Def(i)
  {
    hide Flow, Phis, Names, BlockOk, PhiOk;
    AppendFlow(fn, next, open, entry, b, i, next');
    AppendPhis(fn, next, open, entry, b, i, next');
    AppendNames(fn, next, b, i, next');
    AppendFacts(fn[b], i);
  }

  lemma CreateFlow(fn: seq<Block>, entry: Entry, known: set<Reg>)
    requires Flow(fn, entry)
    ensures Flow(fn + [[]], entry + [known])
  {
    var fn', entry' := fn + [[]], entry + [known];
    forall a | 0 <= a < |fn| ensures BlockOk(fn', entry', a) {
      assert BlockOk(fn, entry, a);
      assert fn'[a] == fn[a] && entry'[a] == entry[a];
    }
    assert fn'[|fn|] == [];
  }

  lemma CreatePhis(fn: seq<Block>, entry: Entry, known: set<Reg>)
    requires Phis(fn, entry)
    ensures Phis(fn + [[]], entry + [known])
  {
    var fn', entry' := fn + [[]], entry + [known];
    assert fn'[|fn|] == [];
    assert forall c | 0 <= c < |fn| :: fn'[c] == fn[c] && Out(fn', entry', c) == Out(fn, entry, c);
    forall a | 0 <= a < |fn| ensures PhiOk(fn', entry', a) {
      assert PhiOk(fn, entry, a);
    }
  }

  /** A new empty block, of which `known` is promised. */
  lemma InvCreate(fn: seq<Block>, next: Reg, open: set<BlockId>, entry: Entry, known: set<Reg>)
    requires Inv(fn, next, open, entry)
    ensures Inv(fn + [[]], next, open + {|fn|}, entry + [known])
  {
    hide Flow, Phis;
    CreateFlow(fn, entry, known);
    CreatePhis(fn, entry, known);
    assert forall a | 0 <= a < |fn| :: (fn + [[]])[a] == fn[a];
  }

  lemma PhiFlow(fn: seq<Block>, entry: Entry, b: BlockId, phi: Instr)
    requires Flow(fn, entry) && b < |fn| && fn[b] == [] && phi.Phi?
    ensures Flow(Append(fn, b, phi), entry)
    ensures Out(Append(fn, b, phi), entry, b) == Out(fn, entry, b) + {phi.dst}
  {
    AppendFacts(fn[b], phi);
    AppendBlock(fn[b], phi, entry[b]);
    forall a | 0 <= a < |fn| ensures BlockOk(Append(fn, b, phi), entry, a) {
      assert BlockOk(fn, entry, a);
    }
  }

  lemma PhiPhis(fn: seq<Block>, entry: Entry, b: BlockId, phi: Instr)
    requires Phis(fn, entry) && b < |fn| && fn[b] == [] && phi.Phi? && PhiMatches(fn, b, phi.incoming)
    requires forall i | 0 <= i < |phi.incoming| :: phi.incoming[i].value in Out(fn, entry, phi.incoming[i].from)
    ensures Phis(Append(fn, b, phi), entry)
  {
    var fn' := Append(fn, b, phi);
    AppendFacts(fn[b], phi);
    assert forall c | 0 <= c < |fn| :: Jumps(fn'[c]) == Jumps(fn[c]) && Out(fn, entry, c) <= Out(fn', entry, c);
    forall a | 0 <= a < |fn| ensures PhiOk(fn', entry, a) {
      assert PhiOk(fn, entry, a);
    }
  }

  /** The phi at the start of a block that is still empty. */
  lemma InvPhi(fn: seq<Block>, next: Reg, open: set<BlockId>, entry: Entry, b: BlockId, incoming: seq<Incoming>)
    requires Inv(fn, next, open, entry) && b in open && b < |fn| && |fn| == |entry|
    requires fn[b] == [] && PhiMatches(fn, b, incoming)
    requires forall i | 0 <= i < |incoming| :: incoming[i].value in Out(fn, entry, incoming[i].from)
    ensures Inv(Append(fn, b, Phi(next, incoming)), next + 1, open, entry)
    ensures Out(Append(fn, b, Phi(next, incoming)), entry, b) == Out(fn, entry, b) + {next}
  {
    hide Flow, Phis, Names, PhiMatches, Out;
    var phi := Phi(next, incoming);
    AppendNames(fn, next, b, phi, next + 1);
    PhiFlow(fn, entry, b, phi);
    PhiPhis(fn, entry, b, phi);
  }

  /** The edge that closes a loop, together with the phi's value for it. */
  function CloseEdge(fn: seq<Block>, b: BlockId, testbb: BlockId, value: Reg): seq<Block>
    requires b < |fn| && testbb < |fn| && b != testbb && HasPhi(fn[testbb])
  {
    var phi := fn[testbb][0];
    Append(fn, b, Br(testbb))[testbb := [Phi(phi.dst, phi.incoming + [Incoming(value, b)])]]
  }

  lemma PhiAlone(dst: Reg, incoming: seq<Incoming>)
    ensures Defs([Phi(dst, incoming)]) == {dst} && Jumps([Phi(dst, incoming)]) == {}
  {
    AppendFacts([], Phi(dst, incoming));
    assert [] + [Phi(dst, incoming)] == [Phi(dst, incoming)];
  }

  lemma CloseEdgeFacts(fn: seq<Block>, b: BlockId, testbb: BlockId, value: Reg)
    requires b < |fn| && testbb < |fn| && b != testbb && |fn[testbb]| == 1 && HasPhi(fn[testbb])
    ensures var fn' := CloseEdge(fn, b, testbb, value);
            && (forall c | 0 <= c < |fn| :: Defs(fn'[c]) == Defs(fn[c]))
            && (forall c | 0 <= c < |fn| :: Jumps(fn'[c]) == Jumps(fn[c]) + if c == b then {testbb} else {})
  {
    hide Defs, Jumps;
    var phi := fn[testbb][0];
    AppendFacts(fn[b], Br(testbb));
    PhiAlone(phi.dst, phi.incoming);
    PhiAlone(phi.dst, phi.incoming + [Incoming(value, b)]);
    assert fn[testbb] == [phi];
  }

  lemma CloseEdgeFlow(fn: seq<Block>, entry: Entry, b: BlockId, testbb: BlockId, value: Reg)
    requires b < |fn| && testbb < |fn| && b != testbb && |fn[testbb]| == 1 && HasPhi(fn[testbb])
    requires Flow(fn, entry) && entry[testbb] <= Out(fn, entry, b) && testbb != ENTRY
    ensures Flow(CloseEdge(fn, b, testbb, value), entry)
  {
    hide Jumps, Targets, Defs, Def;
    var fn' := CloseEdge(fn, b, testbb, value);
    CloseEdgeFacts(fn, b, testbb, value);
    assert BlockOk(fn, entry, b);
    AppendBlock(fn[b], Br(testbb), entry[b]);
    forall a | 0 <= a < |fn| ensures BlockOk(fn', entry, a) {
      assert BlockOk(fn, entry, a);
    }
  }

  lemma CloseEdgePhis(fn: seq<Block>, entry: Entry, b: BlockId, testbb: BlockId, value: Reg)
    requires b < |fn| && testbb < |fn| && b != testbb && |fn[testbb]| == 1 && HasPhi(fn[testbb])
    requires Phis(fn, entry) && value in Out(fn, entry, b) && testbb !in Jumps(fn[b])
    ensures Phis(CloseEdge(fn, b, testbb, value), entry)
  {
    hide Jumps, Defs, Targets, Def;
    var fn' := CloseEdge(fn, b, testbb, value);
    CloseEdgeFacts(fn, b, testbb, value);
    assert forall c | 0 <= c < |fn| :: Out(fn', entry, c) == Out(fn, entry, c);
    forall a | 0 <= a < |fn| ensures PhiOk(fn', entry, a) {
      assert PhiOk(fn, entry, a);
      if a == testbb {
        PhiGains(fn, fn', b, testbb, fn[testbb][0].incoming, Incoming(value, b));
      } else if HasPhi(fn'[a]) {
        assert fn'[a][0] == fn[a][0];
      }
    }
  }

  lemma PhiGains(fn: seq<Block>, fn': seq<Block>, b: BlockId, testbb: BlockId, incoming: seq<Incoming>, more: Incoming)
    requires |fn'| == |fn| && b < |fn| && PhiMatches(fn, testbb, incoming) && more.from == b
    requires testbb !in Jumps(fn[b]) && testbb in Jumps(fn'[b])
    requires forall c | 0 <= c < |fn| && c != b :: testbb in Jumps(fn'[c]) <==> testbb in Jumps(fn[c])
    ensures PhiMatches(fn', testbb, incoming + [more])
  {
    var all := incoming + [more];
    assert all[|incoming|] == more;
    forall a | 0 <= a < |fn| && testbb in Jumps(fn'[a])
      ensures exists i :: 0 <= i < |all| && all[i].from == a
    {
      if a == b {
        assert all[|incoming|].from == a;
      } else {
        var i :| 0 <= i < |incoming| && incoming[i].from == a;
        assert all[i].from == a;
      }
    }
  }

  lemma {:induction false} StraightJumps(code: seq<Instr>)
    requires Straight(code)
    ensures Jumps(code) == {}
  {
    if code != [] {
      StraightJumps(code[..|code| - 1]);
      assert !code[|code| - 1].IsTerminator();
    }
  }

  lemma CloseEdgeNames(fn: seq<Block>, next: Reg, b: BlockId, testbb: BlockId, value: Reg)
    requires b < |fn| && testbb < |fn| && b != testbb && |fn[testbb]| == 1 && HasPhi(fn[testbb])
    requires Names(fn, next)
    ensures Names(CloseEdge(fn, b, testbb, value), next)
  {
    AppendNames(fn, next, b, Br(testbb), next);
    var fn', appended := CloseEdge(fn, b, testbb, value), Append(fn, b, Br(testbb));
    assert forall a, j | 0 <= a < |fn| && 0 <= j < |fn'[a]| :: Def(fn'[a][j]) == Def(appended[a][j]);
  }

  lemma CloseEdgeShapes(fn: seq<Block>, open: set<BlockId>, b: BlockId, testbb: BlockId, value: Reg)
    requires b in open && testbb in open && b != testbb && Shapes(fn, open) && |fn[testbb]| == 1 && HasPhi(fn[testbb])
    ensures Shapes(CloseEdge(fn, b, testbb, value), open - {b})
  {
    AppendFacts(fn[b], Br(testbb));
  }

  lemma InvBackEdge(fn: seq<Block>, next: Reg, open: set<BlockId>, entry: Entry, b: BlockId, testbb: BlockId,
                    value: Reg)
    requires Inv(fn, next, open, entry) && b in open && testbb in open && b != testbb && testbb != ENTRY
    requires |fn[testbb]| == 1 && HasPhi(fn[testbb]) && entry[testbb] <= Out(fn, entry, b) && value in Out(fn, entry, b)
    ensures Inv(CloseEdge(fn, b, testbb, value), next, open - {b}, entry)
    ensures Out(CloseEdge(fn, b, testbb, value), entry, testbb) == Out(fn, entry, testbb)
  {
    hide Flow, Phis, Names;
    StraightJumps(fn[b]);
    CloseEdgeFacts(fn, b, testbb, value);
    CloseEdgeFlow(fn, entry, b, testbb, value);
    CloseEdgePhis(fn, entry, b, testbb, value);
    CloseEdgeNames(fn, next, b, testbb, value);
    CloseEdgeShapes(fn, open, b, testbb, value);
  }

  // ---------- The code generator keeps it ----------

  /** A block that may be branched to from anywhere: it has no phi and needs only the tape. */
  ghost predicate Target(fn: seq<Block>, open: set<BlockId>, entry: Entry, b: BlockId) {
    b < |fn| && b < |entry| && b !in open && !HasPhi(fn[b]) && entry[b] == {ARR}
  }

  /** What holds between symbols: the invariant, and the tape, its end and the head are known where the builder
      stands. */
  ghost predicate Good(g: Gen, open: set<BlockId>, entry: Entry, checked: bool) {
    && g.Wf() && Inv(g.fn, g.next, open, entry) && |g.fn| == |entry|
    && g.cur in open && (forall b | b in open :: b < |g.fn|)
    && ARR in Out(g.fn, entry, g.cur) && g.head in Out(g.fn, entry, g.cur)
    && (checked ==> ARRMAX in Out(g.fn, entry, g.cur))
    && Target(g.fn, open, entry, END) && (checked ==> Target(g.fn, open, entry, ERROR))
  }

  /** The builder has moved on from `g` to `g'`, and knows no less. */
  ghost predicate Advanced(g: Gen, open: set<BlockId>, entry: Entry, g': Gen, open': set<BlockId>, entry': Entry) {
    && g.cur < |g.fn| == |entry| && g'.cur < |g'.fn| == |entry'|
    && open' == open - {g.cur} + {g'.cur}
    && |entry| <= |entry'| && entry'[..|entry|] == entry
    && Out(g.fn, entry, g.cur) <= Out(g'.fn, entry', g'.cur)
    && g.cur < |g'.fn| && (HasPhi(g'.fn[g.cur]) ==> HasPhi(g.fn[g.cur]))
  }

  /** `i` is not a terminator or phi and reads only what is known where the builder stands. */
  ghost predicate Plain(g: Gen, entry: Entry, i: Instr) {
    && g.cur < |g.fn| && g.cur < |entry|
    && !i.IsTerminator() && !i.Phi? && Uses(i) <= Out(g.fn, entry, g.cur)
  }

  lemma DefineGood(g: Gen, open: set<BlockId>, entry: Entry, checked: bool, i: Instr) returns (g': Gen)
    requires Good(g, open, entry, checked) && Plain(g, entry, i) && Def(i) == {g.next}
    ensures g' == g.Define(i) && Good(g', open, entry, checked) && Advanced(g, open, entry, g', open, entry)
    ensures Out(g'.fn, entry, g.cur) == Out(g.fn, entry, g.cur) + {g.next}
  {
    g' := g.Define(i);
    assert g'.fn == Append(g.fn, g.cur, i);
    InvAppend(g.fn, g.next, open, entry, g.cur, i, g.next + 1);
  }

  lemma InsertGood(g: Gen, open: set<BlockId>, entry: Entry, checked: bool, i: Instr) returns (g': Gen)
    requires Good(g, open, entry, checked) && Plain(g, entry, i) && Def(i) == {}
    ensures g' == g.Insert(i) && Good(g', open, entry, checked) && Advanced(g, open, entry, g', open, entry)
    ensures Out(g'.fn, entry, g.cur) == Out(g.fn, entry, g.cur)
  {
    g' := g.Insert(i);
    assert g'.fn == Append(g.fn, g.cur, i);
    InvAppend(g.fn, g.next, open, entry, g.cur, i, g.next);
  }

  /** `a`, `b`, `c` read the head, the tape bounds and what was defined just before; `a` and `b` define names. */
  ghost predicate Chain(g: Gen, checked: bool, a: Instr, b: Instr, c: Instr) {
    var known := {ARR, g.head} + if checked then {ARRMAX} else {};
    && !a.IsTerminator() && !a.Phi? && !b.IsTerminator() && !b.Phi? && !c.IsTerminator() && !c.Phi?
    && Def(a) == {g.next} && Def(b) == {g.next + 1}
    && Uses(a) <= known && Uses(b) <= known + {g.next} && Uses(c) <= known + {g.next, g.next + 1}
  }

  lemma ThreeGood(g: Gen, open: set<BlockId>, entry: Entry, checked: bool, a: Instr, b: Instr, c: Instr)
    requires Good(g, open, entry, checked) && Chain(g, checked, a, b, c) && Def(c) == {}
    ensures var g' := g.Define(a).Define(b).Insert(c);
            Good(g', open, entry, checked) && Advanced(g, open, entry, g', open, entry)
  {
    hide Inv, Target, Out, Def, Uses, HasPhi;
    var g1 := DefineGood(g, open, entry, checked, a);
    var g2 := DefineGood(g1, open, entry, checked, b);
    var g3 := InsertGood(g2, open, entry, checked, c);
  }

  lemma ThreeDefsGood(g: Gen, open: set<BlockId>, entry: Entry, checked: bool, a: Instr, b: Instr, c: Instr)
    requires Good(g, open, entry, checked) && Chain(g, checked, a, b, c) && Def(c) == {g.next + 2}
    ensures var g' := g.Define(a).Define(b).Define(c);
            && Good(g', open, entry, checked) && Advanced(g, open, entry, g', open, entry)
            && g.next + 2 in Out(g'.fn, entry, g.cur)
  {
    hide Inv, Target, Out, Def, Uses, HasPhi;
    var g1 := DefineGood(g, open, entry, checked, a);
    var g2 := DefineGood(g1, open, entry, checked, b);
    var g3 := DefineGood(g2, open, entry, checked, c);
  }

  /** A new empty block, with the builder staying where it is. */
  lemma CreateGood(g: Gen, open: set<BlockId>, entry: Entry, checked: bool, known: set<Reg>) returns (g': Gen)
    requires Good(g, open, entry, checked)
    ensures g' == g.Create([]) && Good(g', open + {|g.fn|}, entry + [known], checked)
    ensures Out(g'.fn, entry + [known], g.cur) == Out(g.fn, entry, g.cur)
  {
    g' := g.Create([]);
    InvCreate(g.fn, g.next, open, entry, known);
  }

  /** A terminator for the builder's block; what is left is the invariant. */
  lemma TerminateInv(g: Gen, open: set<BlockId>, entry: Entry, checked: bool, i: Instr)
    requires Good(g, open, entry, checked) && i.IsTerminator() && Uses(i) <= Out(g.fn, entry, g.cur)
    requires forall t | t in Targets(i) :: 0 < t < |g.fn| && !HasPhi(g.fn[t]) && entry[t] <= Out(g.fn, entry, g.cur)
    ensures Inv(g.Insert(i).fn, g.next, open - {g.cur}, entry)
    ensures Out(g.Insert(i).fn, entry, g.cur) == Out(g.fn, entry, g.cur)
  {
    assert g.Insert(i).fn == Append(g.fn, g.cur, i);
    InvAppend(g.fn, g.next, open, entry, g.cur, i, g.next);
  }

  /** The builder's block ends with a conditional branch to the error block or to a new block. */
  lemma BranchGood(g: Gen, open: set<BlockId>, entry: Entry, cond: Reg) returns (open': set<BlockId>, entry': Entry)
    requires Good(g, open, entry, true) && cond in Out(g.fn, entry, g.cur)
    ensures var g' := g.Create([]).Insert(CondBr(cond, ERROR, |g.fn|)).(cur := |g.fn|);
            Good(g', open', entry', true) && Advanced(g, open, entry, g', open', entry')
  {
    hide Inv;
    var nextbb := |g.fn|;
    var known := Out(g.fn, entry, g.cur);
    var g1 := CreateGood(g, open, entry, true, known);
    open', entry' := open - {g.cur} + {nextbb}, entry + [known];
    TerminateInv(g1, open + {nextbb}, entry', true, CondBr(cond, ERROR, nextbb));
    assert open' == open + {nextbb} - {g.cur};
  }

  lemma CheckGood(g: Gen, open: set<BlockId>, entry: Entry) returns (open': set<BlockId>, entry': Entry)
    requires Good(g, open, entry, true)
    ensures var g' := EmitCheck(g); Good(g', open', entry', true) && Advanced(g, open, entry, g', open', entry')
  {
    hide Inv;
    var t := g.next;
    var a, b, c := IcmpUge(t, g.head, ARRMAX), IcmpUlt(t + 1, g.head, ARR), Or(t + 2, t, t + 1);
    ThreeDefsGood(g, open, entry, true, a, b, c);
    open', entry' := BranchGood(g.Define(a).Define(b).Define(c), open, entry, t + 2);
  }

  lemma MoveGood(n: int, g: Gen, open: set<BlockId>, entry: Entry, checked: bool)
    returns (open': set<BlockId>, entry': Entry)
    requires Good(g, open, entry, checked)
    ensures var g' := EmitMove(n, g, checked);
            Good(g', open', entry', checked) && Advanced(g, open, entry, g', open', entry')
  {
    hide Inv;
    open', entry' := open, entry;
    var g1 := DefineGood(g, open, entry, checked, Gep(g.next, g.head, n));
    if checked {
      open', entry' := CheckGood(g1.(head := g.next), open, entry);
    }
  }

  lemma PrimGood(prim: Prim, g: Gen, open: set<BlockId>, entry: Entry, checked: bool)
    returns (open': set<BlockId>, entry': Entry)
    requires Good(g, open, entry, checked)
    ensures var g' := EmitPrim(prim, g, checked);
            Good(g', open', entry', checked) && Advanced(g, open, entry, g', open', entry')
  {
    hide Inv;
    open', entry' := open, entry;
    var r := g.next;
    match prim
    case Read => ThreeGood(g, open, entry, checked, GetChar(r), Trunc(r + 1, r), Store(r + 1, g.head));
    case Write => ThreeGood(g, open, entry, checked, Load(r, g.head), SExt(r + 1, r), PutChar(r + 1));
    case Change(n) =>
      ThreeGood(g, open, entry, checked, Load(r, g.head), AddI8(r + 1, r, Wrap(n)), Store(r + 1, g.head));
    case Move(n) => open', entry' := MoveGood(n, g, open, entry, checked);
  }

  /** The first half of `[`: a branch to a new test block that holds a half-built phi. */
  function OpenTestBlock(g: Gen): seq<Block>
    requires g.Wf()
  {
    Append(g.Create([]).Insert(Br(|g.fn|)).fn, |g.fn|, Phi(g.next, [Incoming(g.head, g.cur)]))
  }

  lemma OpenTestInv(g: Gen, open: set<BlockId>, entry: Entry, checked: bool)
    requires Good(g, open, entry, checked)
    ensures var known := Out(g.fn, entry, g.cur);
            && Inv(OpenTestBlock(g), g.next + 1, open - {g.cur} + {|g.fn|}, entry + [known])
            && Out(OpenTestBlock(g), entry + [known], |g.fn|) == known + {g.next}
  {
    hide Inv;
    var testbb, known := |g.fn|, Out(g.fn, entry, g.cur);
    var g1 := CreateGood(g, open, entry, checked, known);
    NoJumpYet(g, open, entry, checked, known);
    TerminateInv(g1, open + {testbb}, entry + [known], checked, Br(testbb));
    var g2 := g1.Insert(Br(testbb));
    OnlyJump(g1, g2, testbb);
    assert open + {testbb} - {g.cur} == open - {g.cur} + {testbb};
    InvPhi(g2.fn, g.next, open - {g.cur} + {testbb}, entry + [known], testbb, [Incoming(g.head, g.cur)]);
  }

  lemma OpenTestBlockIs(g: Gen)
    requires g.Wf()
    ensures OpenTestBlock(g) + [[]] == OpenLoop(g).fn && |OpenTestBlock(g)| == |g.fn| + 1
    ensures g.cur < |g.fn| && forall b | 0 <= b < |g.fn| && b != g.cur :: OpenTestBlock(g)[b] == g.fn[b]
  {
    var fn1 := OpenTestBlock(g);
    assert fn1[|g.fn|] == [Phi(g.next, [Incoming(g.head, g.cur)])];
    assert fn1[g.cur] == OpenLoop(g).fn[g.cur];
  }

  /** At `[`: the invariant holds with the half-built phi of the new test block in place. */
  lemma OpenGood(g: Gen, open: set<BlockId>, entry: Entry, checked: bool) returns (open': set<BlockId>, entry': Entry)
    requires Good(g, open, entry, checked)
    ensures var g' := OpenLoop(g);
            && Good(g', open', entry', checked)
            && open' == open - {g.cur} + {|g.fn|, |g.fn| + 1}
            && |entry'| == |entry| + 2 && entry'[..|entry|] == entry
            && entry'[|g.fn|] == Out(g.fn, entry, g.cur)
            && entry'[|g.fn| + 1] == entry'[|g.fn|] + {g.next}
            && g'.fn[g'.cur] == []
  {
    hide Inv, OpenTestBlock;
    var testbb, known := |g.fn|, Out(g.fn, entry, g.cur);
    OpenTestInv(g, open, entry, checked);
    OpenTestBlockIs(g);
    var fn1, known' := OpenTestBlock(g), known + {g.next};
    InvCreate(fn1, g.next + 1, open - {g.cur} + {testbb}, entry + [known], known');
    open', entry' := open - {g.cur} + {testbb, testbb + 1}, entry + [known] + [known'];
    assert open - {g.cur} + {testbb} + {testbb + 1} == open';
  }

  /** Nothing branches to a block just created. */
  lemma NoJumpYet(g: Gen, open: set<BlockId>, entry: Entry, checked: bool, known: set<Reg>)
    requires Good(g, open, entry, checked)
    ensures forall a | 0 <= a < |g.fn| + 1 :: |g.fn| !in Jumps(g.Create([]).fn[a])
  {
    forall a | 0 <= a < |g.fn| ensures |g.fn| !in Jumps(g.fn[a]) {
      assert BlockOk(g.fn, entry, a);
    }
  }

  lemma OnlyJump(g1: Gen, g2: Gen, testbb: BlockId)
    requires g1.cur < |g1.fn| && testbb < |g1.fn| && testbb != g1.cur && g2 == g1.Insert(Br(testbb))
    requires forall a | 0 <= a < |g1.fn| :: testbb !in Jumps(g1.fn[a])
    ensures PhiMatches(g2.fn, testbb, [Incoming(g1.head, g1.cur)])
  {
    hide Jumps, Defs;
    AppendFacts(g1.fn[g1.cur], Br(testbb));
    var incoming := [Incoming(g1.head, g1.cur)];
    forall a | 0 <= a < |g2.fn| && testbb in Jumps(g2.fn[a])
      ensures exists i :: 0 <= i < |incoming| && incoming[i].from == a
    {
      assert incoming[0].from == a;
    }
  }

  /** At `]`, once the back edge is in place: the loop test and the exit block. */
  lemma TestInv(fn: seq<Block>, next: Reg, open: set<BlockId>, entry: Entry, testbb: BlockId, bodybb: BlockId)
    returns (fn': seq<Block>)
    requires Inv(fn, next, open, entry) && testbb in open && testbb < |fn| && |fn| == |entry|
    requires HasPhi(fn[testbb]) && |fn[testbb]| == 1
    requires 0 < bodybb < |fn| && bodybb != testbb && !HasPhi(fn[bodybb]) && entry[bodybb] <= Out(fn, entry, testbb)
    ensures var phi := fn[testbb][0].dst;
            && fn' == fn[testbb := [fn[testbb][0], Load(next, phi), IcmpZero(next + 1, next),
                                    CondBr(next + 1, |fn|, bodybb)]] + [[]]
            && Inv(fn', next + 2, open - {testbb} + {|fn|}, entry + [Out(fn, entry, testbb)])
            && Out(fn, entry, testbb) <= Out(fn', entry + [Out(fn, entry, testbb)], testbb)
  {
    hide Inv;
    var phi, known := fn[testbb][0], Out(fn, entry, testbb);
    var load, zero, branch := Load(next, phi.dst), IcmpZero(next + 1, next), CondBr(next + 1, |fn|, bodybb);
    assert phi.dst in known by {
      AppendFacts([], phi);
      assert fn[testbb] == [] + [phi];
    }
    InvAppend(fn, next, open, entry, testbb, load, next + 1);
    var fn1 := Append(fn, testbb, load);
    InvAppend(fn1, next + 1, open, entry, testbb, zero, next + 2);
    var fn2 := Append(fn1, testbb, zero);
    InvCreate(fn2, next + 2, open, entry, known);
    var fn3, entry' := fn2 + [[]], entry + [known];
    assert Out(fn3, entry', testbb) == Out(fn2, entry, testbb);
    InvAppend(fn3, next + 2, open + {|fn|}, entry', testbb, branch, next + 2);
    fn' := Append(fn3, testbb, branch);
    assert open + {|fn|} - {testbb} == open - {testbb} + {|fn|};
    ThreeAppends(fn, testbb, load, zero, branch);
  }

  lemma ThreeAppends(fn: seq<Block>, b: BlockId, i: Instr, j: Instr, k: Instr)
    requires b < |fn| && |fn[b]| == 1
    ensures Append(Append(Append(fn, b, i), b, j) + [[]], b, k) == fn[b := [fn[b][0], i, j, k]] + [[]]
  {
    var fn' := Append(Append(Append(fn, b, i), b, j) + [[]], b, k);
    assert fn'[b] == [fn[b][0], i, j, k];
  }

  /** The exit block is reached from the test block alone. */
  lemma ExitMatches(fn: seq<Block>, entry: Entry, testbb: BlockId, test: Block, bodybb: BlockId, cond: Reg)
    requires Flow(fn, entry) && testbb < |fn| && bodybb < |fn| && |test| >= 1
    requires Jumps(test[..|test| - 1]) == {} && test[|test| - 1] == CondBr(cond, |fn|, bodybb)
    ensures forall v: Reg :: PhiMatches(fn[testbb := test] + [[]], |fn|, [Incoming(v, testbb)])
  {
    var fn' := fn[testbb := test] + [[]];
    forall a | 0 <= a < |fn'| ensures |fn| in Jumps(fn'[a]) <==> a == testbb {
      if a < |fn| {
        assert BlockOk(fn, entry, a);
      }
    }
    forall v: Reg ensures PhiMatches(fn', |fn|, [Incoming(v, testbb)]) {
      var incoming := [Incoming(v, testbb)];
      forall a | 0 <= a < |fn'| && |fn| in Jumps(fn'[a])
        ensures exists i :: 0 <= i < |incoming| && incoming[i].from == a
      {
        assert incoming[0].from == a;
      }
    }
  }

  /** The test block once the loop test is there, with its phi complete. */
  function ClosedTest(g: Gen, testbb: BlockId, bodybb: BlockId): Block
    requires g.Wf() && OpenTest(g, testbb)
  {
    var phi := CloseEdge(g.fn, g.cur, testbb, g.head)[testbb][0];
    [phi, Load(g.next, phi.dst), IcmpZero(g.next + 1, g.next), CondBr(g.next + 1, |g.fn|, bodybb)]
  }

  /** The blocks at that point, with the exit block still empty. */
  function ClosedBlocks(g: Gen, testbb: BlockId, bodybb: BlockId): seq<Block>
    requires g.Wf() && OpenTest(g, testbb)
  {
    CloseEdge(g.fn, g.cur, testbb, g.head)[testbb := ClosedTest(g, testbb, bodybb)] + [[]]
  }

  lemma CloseLoopIs(g: Gen, testbb: BlockId, bodybb: BlockId)
    requires g.Wf() && OpenTest(g, testbb)
    ensures var t, phi := g.next, g.fn[testbb][0].dst;
            CloseLoop(g, testbb, bodybb)
            == Gen(Append(ClosedBlocks(g, testbb, bodybb), |g.fn|, Phi(t + 2, [Incoming(phi, testbb)])),
                   |g.fn|, t + 2, t + 3)
  {
    var done, fn := CloseLoop(g, testbb, bodybb), ClosedBlocks(g, testbb, bodybb);
    var exit := Phi(g.next + 2, [Incoming(g.fn[testbb][0].dst, testbb)]);
    assert Append(fn, |g.fn|, exit)[|g.fn|] == [exit] == done.fn[|g.fn|];
    assert Append(fn, |g.fn|, exit) == done.fn;
  }

  /** What closing a loop asks for: the test block is still open, and its entry is known at the end of the body. */
  ghost predicate Closable(g: Gen, open: set<BlockId>, entry: Entry, testbb: BlockId, bodybb: BlockId) {
    && testbb in open && OpenTest(g, testbb) && |g.fn| == |entry| && g.cur < |g.fn|
    && entry[testbb] <= Out(g.fn, entry, g.cur)
    && 0 < testbb && 0 < bodybb < |g.fn| && bodybb != testbb
    && !HasPhi(g.fn[bodybb]) && entry[bodybb] <= Out(g.fn, entry, testbb)
  }

  lemma PhiKnown(fn: seq<Block>, entry: Entry, testbb: BlockId)
    requires testbb < |fn| && testbb < |entry| && |fn[testbb]| == 1 && HasPhi(fn[testbb])
    ensures fn[testbb][0].dst in Out(fn, entry, testbb)
  {
    AppendFacts([], fn[testbb][0]);
    assert fn[testbb] == [] + [fn[testbb][0]];
  }

  lemma CloseEdgeInv(g: Gen, open: set<BlockId>, entry: Entry, checked: bool, testbb: BlockId, bodybb: BlockId)
    requires Good(g, open, entry, checked) && Closable(g, open, entry, testbb, bodybb)
    ensures var fn := CloseEdge(g.fn, g.cur, testbb, g.head);
            && Inv(fn, g.next, open - {g.cur}, entry) && Flow(fn, entry)
            && Out(fn, entry, testbb) == Out(g.fn, entry, testbb)
  {
    hide Shapes, Flow, Phis, Names, Out;
    InvBackEdge(g.fn, g.next, open, entry, g.cur, testbb, g.head);
  }

  lemma CloseTestInv(g: Gen, open: set<BlockId>, entry: Entry, checked: bool, testbb: BlockId, bodybb: BlockId)
    requires Good(g, open, entry, checked) && Closable(g, open, entry, testbb, bodybb)
    ensures var fn, known := ClosedBlocks(g, testbb, bodybb), Out(g.fn, entry, testbb);
            && Inv(fn, g.next + 2, open - {g.cur, testbb} + {|g.fn|}, entry + [known])
            && known <= Out(fn, entry + [known], testbb)
    ensures Flow(CloseEdge(g.fn, g.cur, testbb, g.head), entry)
  {
    hide Inv, Flow, Out, Target;
    CloseEdgeInv(g, open, entry, checked, testbb, bodybb);
    var fn2 := TestInv(CloseEdge(g.fn, g.cur, testbb, g.head), g.next, open - {g.cur}, entry, testbb, bodybb);
    assert open - {g.cur} - {testbb} + {|g.fn|} == open - {g.cur, testbb} + {|g.fn|};
  }

  lemma CloseExit(g: Gen, entry: Entry, testbb: BlockId, bodybb: BlockId)
    requires g.Wf() && OpenTest(g, testbb) && bodybb < |g.fn| == |entry|
    requires Flow(CloseEdge(g.fn, g.cur, testbb, g.head), entry)
    ensures var phi := g.fn[testbb][0].dst;
            && PhiMatches(ClosedBlocks(g, testbb, bodybb), |g.fn|, [Incoming(phi, testbb)])
            && phi in Out(g.fn, entry, testbb)
  {
    hide Flow, PhiMatches, Jumps, Out;
    var test := ClosedTest(g, testbb, bodybb);
    StraightJumps(test[..3]);
    ExitMatches(CloseEdge(g.fn, g.cur, testbb, g.head), entry, testbb, test, bodybb, g.next + 1);
    PhiKnown(g.fn, entry, testbb);
  }

  lemma CloseInv(g: Gen, open: set<BlockId>, entry: Entry, checked: bool, testbb: BlockId, bodybb: BlockId)
    requires Good(g, open, entry, checked) && Closable(g, open, entry, testbb, bodybb)
    ensures var fn', entry' := CloseLoop(g, testbb, bodybb).fn, entry + [Out(g.fn, entry, testbb)];
            && Inv(fn', g.next + 3, open - {g.cur, testbb} + {|g.fn|}, entry')
            && |fn'| == |g.fn| + 1 && Out(fn', entry', |g.fn|) == Out(g.fn, entry, testbb) + {g.next + 2}
  {
    hide Inv, PhiMatches, Flow;
    var known := Out(g.fn, entry, testbb);
    CloseTestInv(g, open, entry, checked, testbb, bodybb);
    CloseExit(g, entry, testbb, bodybb);
    CloseLoopIs(g, testbb, bodybb);
    InvPhi(ClosedBlocks(g, testbb, bodybb), g.next + 2, open - {g.cur, testbb} + {|g.fn|}, entry + [known], |g.fn|,
           [Incoming(g.fn[testbb][0].dst, testbb)]);
  }

  /** At `]`: the loop's phi is complete, and the builder goes on in a new exit block. */
  lemma CloseGood(g: Gen, open: set<BlockId>, entry: Entry, checked: bool, testbb: BlockId, bodybb: BlockId)
    returns (open': set<BlockId>, entry': Entry)
    requires Good(g, open, entry, checked) && Closable(g, open, entry, testbb, bodybb)
    requires ARR in entry[testbb] && (checked ==> ARRMAX in entry[testbb])
    ensures Good(CloseLoop(g, testbb, bodybb), open', entry', checked)
    ensures open' == open - {g.cur, testbb} + {|g.fn|} && entry' == entry + [Out(g.fn, entry, testbb)]
    ensures entry[testbb] <= Out(CloseLoop(g, testbb, bodybb).fn, entry', |g.fn|)
  {
    hide Inv, Out;
    open', entry' := open - {g.cur, testbb} + {|g.fn|}, entry + [Out(g.fn, entry, testbb)];
    CloseInv(g, open, entry, checked, testbb, bodybb);
    OutHasEntry(g.fn, entry, testbb);
  }

  lemma OutHasEntry(fn: seq<Block>, entry: Entry, b: BlockId)
    requires b < |fn| && b < |entry|
    ensures entry[b] <= Out(fn, entry, b)
  {
  }

  // ---------- Whole programs ----------

  lemma {:induction false} GenerateGood(p: Prog, g: Gen, open: set<BlockId>, entry: Entry, checked: bool)
    returns (open': set<BlockId>, entry': Entry)
    requires Good(g, open, entry, checked)
    ensures var g' := Generate(p, g, checked);
            Good(g', open', entry', checked) && Advanced(g, open, entry, g', open', entry')
    decreases p, 0
  {
    hide Inv, EmitPrim, GenerateLoop;
    match p
    case Done =>
      open', entry' := open, entry;
      assert open == open - {g.cur} + {g.cur};
    case Then(prim, rest) =>
      var open1, entry1 := PrimGood(prim, g, open, entry, checked);
      open', entry' := GenerateGood(rest, EmitPrim(prim, g, checked), open1, entry1, checked);
      AdvancedTwice(g, open, entry, EmitPrim(prim, g, checked), open1, entry1, Generate(p, g, checked), open', entry');
    case While(body, rest) =>
      var open1, entry1 := LoopGood(body, g, open, entry, checked);
      open', entry' := GenerateGood(rest, GenerateLoop(body, g, checked), open1, entry1, checked);
      AdvancedTwice(g, open, entry, GenerateLoop(body, g, checked), open1, entry1,
                    Generate(p, g, checked), open', entry');
  }

  lemma AdvancedTwice(g: Gen, open: set<BlockId>, entry: Entry, g1: Gen, open1: set<BlockId>, entry1: Entry,
                      g2: Gen, open2: set<BlockId>, entry2: Entry)
    requires Advanced(g, open, entry, g1, open1, entry1) && Advanced(g1, open1, entry1, g2, open2, entry2)
    requires Grew(g, g1) && Grew(g1, g2) && g.cur in open && (forall b | b in open :: b < |g.fn|)
    ensures Advanced(g, open, entry, g2, open2, entry2)
  {
    assert entry2[..|entry|] == entry2[..|entry1|][..|entry|];
    assert open2 == open - {g.cur} + {g2.cur};
  }

  /** After the body, the loop opened at `g` can be closed. */
  lemma LoopClosable(g: Gen, open1: set<BlockId>, entry1: Entry, inner: Gen, open2: set<BlockId>, entry2: Entry)
    requires g.Wf() && Grew(OpenLoop(g), inner) && Advanced(OpenLoop(g), open1, entry1, inner, open2, entry2)
    requires |entry1| == |g.fn| + 2 && inner.cur in open2 && |g.fn| in open1
    requires entry1[|g.fn| + 1] == entry1[|g.fn|] + {g.next}
    ensures Closable(inner, open2, entry2, |g.fn|, |g.fn| + 1)
    ensures Out(inner.fn, entry2, |g.fn|) == entry1[|g.fn| + 1] && entry2[|g.fn|] == entry1[|g.fn|]
  {
    var testbb, start := |g.fn|, OpenLoop(g);
    assert inner.fn[testbb] == start.fn[testbb] == [Phi(g.next, [Incoming(g.head, g.cur)])];
    assert entry2[testbb] == entry1[testbb] && entry2[testbb + 1] == entry1[testbb + 1];
    AppendFacts([], start.fn[testbb][0]);
    assert start.fn[testbb] == [] + [start.fn[testbb][0]];
    OutHasEntry(start.fn, entry1, start.cur);
  }

  lemma {:induction false} LoopGood(body: Prog, g: Gen, open: set<BlockId>, entry: Entry, checked: bool)
    returns (open': set<BlockId>, entry': Entry)
    requires Good(g, open, entry, checked)
    ensures var g' := GenerateLoop(body, g, checked);
            Good(g', open', entry', checked) && Advanced(g, open, entry, g', open', entry')
    decreases body, 1
  {
    hide Inv, Generate, Closable, Target, Defs;
    var testbb := |g.fn|;
    var start := OpenLoop(g);
    var open1, entry1 := OpenGood(g, open, entry, checked);
    var inner := Generate(body, start, checked);
    var open2, entry2 := GenerateGood(body, start, open1, entry1, checked);
    LoopClosable(g, open1, entry1, inner, open2, entry2);
    OutHasEntry(g.fn, entry, g.cur);
    open', entry' := CloseGood(inner, open2, entry2, checked, testbb, testbb + 1);
    assert open' == open - {g.cur} + {|inner.fn|};
    assert entry'[..|entry|] == entry by {
      assert entry2[..|entry|] == entry1[..|entry|];
    }
  }

  /** Before the first symbol. */
  function HeaderEntry(checked: bool): Entry {
    [{}, {ARR}] + if checked then [{ARR}] else []
  }

  /** The header's blocks, with only the first filled in. */
  function EntryOnly(mem: nat, checked: bool): seq<Block> {
    [Header(mem, checked).fn[ENTRY], []] + if checked then [[]] else []
  }

  lemma NoBlocks()
    ensures Inv([], 0, {}, [])
  {
  }

  lemma EmptyInv(checked: bool)
    ensures var fn: seq<Block> := [[], []] + if checked then [[]] else [];
            Inv(fn, 0, {ENTRY, END} + (if checked then {ERROR} else {}), HeaderEntry(checked))
  {
    hide Inv;
    NoBlocks();
    var no, one, two: seq<Block> := [], [[]], [[], []];
    var entry0, entry1, entry2: Entry := [], [{}], [{}, {ARR}];
    var open0: set<BlockId> := {};
    InvCreate(no, 0, open0, entry0, {});
    assert no + [[]] == one && entry0 + [{}] == entry1 && open0 + {|no|} == {ENTRY};
    InvCreate(one, 0, {ENTRY}, entry1, {ARR});
    assert one + [[]] == two && entry1 + [{ARR}] == entry2 && {ENTRY} + {|one|} == {ENTRY, END};
    if checked {
      InvCreate(two, 0, {ENTRY, END}, entry2, {ARR});
      assert entry2 + [{ARR}] == HeaderEntry(true) && {ENTRY, END} + {|two|} == {ENTRY, END} + {ERROR};
    } else {
      var open2, more: set<BlockId> := {ENTRY, END}, {};
      assert entry2 == HeaderEntry(false) && two + [] == two && open2 + more == open2;
    }
  }

  lemma AppendTwice(fn: seq<Block>, b: BlockId, i: Instr, j: Instr)
    requires b < |fn|
    ensures Append(Append(fn, b, i), b, j) == fn[b := fn[b] + [i, j]]
  {
    assert fn[b] + [i] + [j] == fn[b] + [i, j];
  }

  lemma EntryInv(mem: nat, checked: bool)
    ensures Inv(EntryOnly(mem, checked), ARRMAX + 2, {ENTRY, END} + (if checked then {ERROR} else {}),
                HeaderEntry(checked))
    ensures Out(EntryOnly(mem, checked), HeaderEntry(checked), ENTRY)
            == {ARR, ARRMAX + 1} + if checked then {ARRMAX} else {}
  {
    hide Inv;
    var entry, open := HeaderEntry(checked), {ENTRY, END} + if checked then {ERROR} else {};
    EmptyInv(checked);
    var fn: seq<Block> := [[], []] + if checked then [[]] else [];
    InvAppend(fn, 0, open, entry, ENTRY, Malloc(ARR, mem), 1);
    fn := Append(fn, ENTRY, Malloc(ARR, mem));
    InvAppend(fn, 1, open, entry, ENTRY, Memset(ARR, mem), 1);
    fn := Append(fn, ENTRY, Memset(ARR, mem));
    if checked {
      InvAppend(fn, 1, open, entry, ENTRY, Gep(ARRMAX, ARR, mem), 2);
      fn := Append(fn, ENTRY, Gep(ARRMAX, ARR, mem));
      InvAppend(fn, 2, open, entry, ENTRY, Gep(ARRMAX + 1, ARR, mem / 2), 3);
    } else {
      InvAppend(fn, 1, open, entry, ENTRY, Gep(ARRMAX + 1, ARR, mem / 2), 3);
    }
    fn := Append(fn, ENTRY, Gep(ARRMAX + 1, ARR, mem / 2));
    assert fn[ENTRY] == Header(mem, checked).fn[ENTRY];
    assert fn == EntryOnly(mem, checked);
  }

  /** Two instructions, the second a terminator, for a block that is still empty. */
  lemma FillInv(fn: seq<Block>, open: set<BlockId>, entry: Entry, b: BlockId, i: Instr, j: Instr)
    requires Inv(fn, 3, open, entry) && MayAppend(fn, 3, open, entry, b, i, 3) && fn[b] == [] && !i.IsTerminator()
    requires MayAppend(fn, 3, open, entry, b, j, 3) && j.IsTerminator()
    ensures Inv(fn[b := [i, j]], 3, open - {b}, entry)
  {
    hide Inv, Defs, Def, Targets, Uses;
    InvAppend(fn, 3, open, entry, b, i, 3);
    InvAppend(Append(fn, b, i), 3, open, entry, b, j, 3);
    AppendTwice(fn, b, i, j);
    assert fn[b] + [i, j] == [i, j];
  }

  lemma HeaderInv(mem: nat, checked: bool)
    ensures Inv(Header(mem, checked).fn, ARRMAX + 2, {ENTRY}, HeaderEntry(checked))
  {
    hide Inv, Defs;
    var entry, open := HeaderEntry(checked), {ENTRY, END} + if checked then {ERROR} else {};
    EntryInv(mem, checked);
    var fn := EntryOnly(mem, checked);
    if checked {
      FillInv(fn, open, entry, ERROR, Puts, Br(END));
      fn := fn[ERROR := [Puts, Br(END)]];
      open := open - {ERROR};
    }
    assert entry[END] == {ARR};
    FillInv(fn, open, entry, END, Free(ARR), Ret);
    assert open - {END} == {ENTRY};
    assert fn[END := [Free(ARR), Ret]] == Header(mem, checked).fn;
  }

  lemma HeaderGood(mem: nat, checked: bool)
    ensures Good(Header(mem, checked), {ENTRY}, HeaderEntry(checked), checked)
  {
    hide Inv;
    var g := Header(mem, checked);
    HeaderInv(mem, checked);
    EntryInv(mem, checked);
    assert g.fn[ENTRY] == EntryOnly(mem, checked)[ENTRY];
  }

  // ---------- What the certificate gives ----------

  /** `path` leads from the entry block along branches. */
  ghost predicate Path(fn: seq<Block>, path: seq<BlockId>) {
    && path != [] && path[0] == ENTRY
    && (forall i | 0 <= i < |path| :: path[i] < |fn|)
    && (forall i | 0 < i < |path| :: path[i] in Jumps(fn[path[i - 1]]))
  }

  /** `r` is defined in some block of `path`. */
  ghost predicate DefinedOn(fn: seq<Block>, path: seq<BlockId>, r: Reg) {
    exists i :: 0 <= i < |path| && path[i] < |fn| && r in Defs(fn[path[i]])
  }

  /** Whichever way control comes to instruction `i` of the last block of `path`, each register it reads has
      been defined. */
  ghost predicate UsesDominated(fn: seq<Block>, b: BlockId) {
    forall path, i, r | Path(fn, path) && path[|path| - 1] == b < |fn| && 0 <= i < |fn[b]| && r in Uses(fn[b][i]) ::
      r in Defs(fn[b][..i]) || DefinedOn(fn, path[..|path| - 1], r)
  }

  /** Whichever way control comes to the end of a predecessor, the value a phi takes from there has been defined. */
  ghost predicate PhiDominated(fn: seq<Block>, incoming: seq<Incoming>) {
    forall path, i | Path(fn, path) && 0 <= i < |incoming| && path[|path| - 1] == incoming[i].from ::
      DefinedOn(fn, path, incoming[i].value)
  }

  ghost predicate WellFormed(fn: seq<Block>) {
    && fn != []
    && (forall b | 0 <= b < |fn| :: OneTerminator(fn[b]) && PhisFirst(fn[b]) && UsesDominated(fn, b))
    && (forall b, t | 0 <= b < |fn| && t in Jumps(fn[b]) :: 0 < t < |fn|)
    && (forall b | 0 <= b < |fn| && HasPhi(fn[b]) ::
          PhiMatches(fn, b, fn[b][0].incoming) && PhiDominated(fn, fn[b][0].incoming))
    && DefinedOnce(fn)
  }

  /** The certificate is sound: what it promises at a block is defined on every path to it. */
  lemma {:induction false} EntryOnPath(fn: seq<Block>, entry: Entry, path: seq<BlockId>, r: Reg)
    requires Flow(fn, entry) && entry != [] && entry[ENTRY] == {} && Path(fn, path) && r in entry[path[|path| - 1]]
    ensures DefinedOn(fn, path[..|path| - 1], r)
  {
    if |path| > 1 {
      var before := path[..|path| - 1];
      var b := path[|path| - 2];
      assert BlockOk(fn, entry, b);
      assert path[|path| - 1] in Jumps(fn[b]);
      if r in Defs(fn[b]) {
        assert before[|path| - 2] == b;
      } else {
        assert forall i | 0 < i < |before| :: path[i] in Jumps(fn[path[i - 1]]);
        EntryOnPath(fn, entry, before, r);
        var i :| 0 <= i < |before[..|before| - 1]| && r in Defs(fn[before[..|before| - 1][i]]);
        assert r in Defs(fn[before[i]]);
      }
    }
  }

  lemma OutOnPath(fn: seq<Block>, entry: Entry, path: seq<BlockId>, r: Reg)
    requires Flow(fn, entry) && entry != [] && entry[ENTRY] == {} && Path(fn, path)
    requires r in Out(fn, entry, path[|path| - 1])
    ensures DefinedOn(fn, path, r)
  {
    var last := |path| - 1;
    if r !in Defs(fn[path[last]]) {
      EntryOnPath(fn, entry, path, r);
      var i :| 0 <= i < |path[..last]| && r in Defs(fn[path[..last][i]]);
      assert r in Defs(fn[path[i]]);
    }
  }

  lemma UsesSound(fn: seq<Block>, entry: Entry, b: BlockId)
    requires Flow(fn, entry) && entry != [] && entry[ENTRY] == {} && b < |fn|
    ensures UsesDominated(fn, b)
  {
    assert BlockOk(fn, entry, b);
    hide Flow, BlockOk, Path, DefinedOn;
    forall path, i, r | Path(fn, path) && path[|path| - 1] == b < |fn| && 0 <= i < |fn[b]| && r in Uses(fn[b][i])
      ensures r in Defs(fn[b][..i]) || DefinedOn(fn, path[..|path| - 1], r)
    {
      if r !in Defs(fn[b][..i]) {
        EntryOnPath(fn, entry, path, r);
      }
    }
  }

  lemma PhiSound(fn: seq<Block>, entry: Entry, b: BlockId)
    requires Flow(fn, entry) && Phis(fn, entry) && entry != [] && entry[ENTRY] == {} && b < |fn| && HasPhi(fn[b])
    ensures PhiMatches(fn, b, fn[b][0].incoming) && PhiDominated(fn, fn[b][0].incoming)
  {
    assert PhiOk(fn, entry, b);
    hide Flow, Phis, DefinedOn, PhiMatches, Out;
    var incoming := fn[b][0].incoming;
    forall path, i | Path(fn, path) && 0 <= i < |incoming| && path[|path| - 1] == incoming[i].from
      ensures DefinedOn(fn, path, incoming[i].value)
    {
      OutOnPath(fn, entry, path, incoming[i].value);
    }
  }

  lemma CertificateSound(fn: seq<Block>, next: Reg, entry: Entry)
    requires Inv(fn, next, {}, entry) && entry != [] && entry[ENTRY] == {}
    ensures WellFormed(fn)
  {
    hide UsesDominated, PhiDominated, PhiMatches, PhiOk, UsesKnown, OneTerminator, DefinedOnce;
    forall b | 0 <= b < |fn| ensures UsesDominated(fn, b) && PhisFirst(fn[b]) {
      UsesSound(fn, entry, b);
      assert BlockOk(fn, entry, b);
    }
    forall b | 0 <= b < |fn| && HasPhi(fn[b])
      ensures PhiMatches(fn, b, fn[b][0].incoming) && PhiDominated(fn, fn[b][0].incoming)
    {
      PhiSound(fn, entry, b);
    }
    forall b, t | 0 <= b < |fn| && t in Jumps(fn[b]) ensures 0 < t < |fn| {
      assert BlockOk(fn, entry, b);
    }
  }

  /** Every compiled function is well formed: each block ends with its only terminator; phis come first and have
      exactly one value for each predecessor; each name is defined once; each use, and each value of a phi on its
      edge, is dominated by its definition; and nothing branches back to the entry block. */
  lemma EmitsSsa(p: Prog, mem: nat, checked: bool)
    ensures WellFormed(Compile(p, mem, checked))
  {
    hide Inv, WellFormed;
    var h, entry := Header(mem, checked), HeaderEntry(checked);
    HeaderGood(mem, checked);
    var open', entry' := GenerateGood(p, h, {ENTRY}, entry, checked);
    var g := Generate(p, h, checked);
    assert entry'[ENTRY] == entry[ENTRY] == {};
    TerminateInv(g, open', entry', checked, Br(END));
    assert open' - {g.cur} == {};
    CertificateSound(Compile(p, mem, checked), g.next, entry');
  }
}
