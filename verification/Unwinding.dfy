/** A stack of generated functions, each calling the next inside its invoke, over a function that returns or
    throws. The external unwinder walks the stack in two phases, as section 1.3 of the Itanium C++ exception handling
    ABI has it, and asks the personality routine at every activation; outside stands a harness that catches
    everything. */
module Unwinding {
  import opened Wrappers
  import opened Bytes
  import opened EncodedPointers
  import opened Lsda
  import opened ExceptionTables
  import opened CatchFunctions

  /** One function of the stack: the types it catches; its code as the table emitter sees it, with the try ranges, where
      the labels are, the labels of its invoke and of its exception block, and the place of the call that resumes
      unwinding; the memory that holds its table and the type infos; and where its two calls return to. */
  datatype Frame = Frame(catches: seq<int>, code: seq<Op>, tries: map<Label, Try>, at: Label -> nat, size: nat,
                         invoke: Label, landing: Label, resume: nat, mem: seq<byte>, lsda: nat,
                         globals: map<int, nat>, types: map<nat, int>, ip: nat, resumeIp: nat, regionStart: nat)
  {
    function Sites(): seq<CallSite> {
      CallSites(code, tries, at, size)
    }

    /** For an exception that comes out of the call that returns to `ip`, the personality routine can read memory as the
        call sites and clauses given. */
    ghost predicate ReadAs(ip: nat, exn: Exn, sites: seq<CallSite>, clauses: seq<Option<int>>) {
      Describes(mem, types, lsda, CallOffset(ip, regionStart), exn, sites, clauses)
    }

    ghost predicate Readable(ip: nat, exn: Exn) {
      exists sites, clauses :: ReadAs(ip, exn, sites, clauses)
    }
  }

  /** The try ranges all lead to the function's landing pad, the invoke is in one that leads to its exception block, the
      call that resumes is in none, and memory holds the table that the JIT emits for the function. */
  ghost predicate Emitted(f: Frame) {
    && LaidOut(f.code, f.tries, f.at, f.size, f.catches) && Labelled(f.code)
    && Mark(f.invoke) in f.code && f.invoke in f.tries && f.tries[f.invoke].pad == f.landing
    && f.at(f.invoke) <= CallOffset(f.ip, f.regionStart) < f.at(f.tries[f.invoke].end)
    && Outside(f.code, f.tries, f.at, f.resume, CallOffset(f.resumeIp, f.regionStart))
    && (forall i | 0 <= i < |f.catches| :: f.catches[i] in f.globals)
    && Loaded(f.globals, f.types, TypeInfos(f.catches))
    && At(f.mem, f.lsda, ExceptionTable(f.Sites(), f.catches, f.globals))
    && |Rest(f.Sites(), f.catches, f.globals)| < 0x800_0000
  }

  // ---------- What the bytes say ----------

  ghost function PadHere(f: Frame, ip: nat, exn: Exn): Option<CallSite>
    requires f.Readable(ip, exn)
  {
    var sites, clauses :| f.ReadAs(ip, exn, sites, clauses);
    Covering(sites, CallOffset(ip, f.regionStart))
  }

  /** What the bytes select at the pad, and nothing if they cannot be read. */
  ghost function PadSelector(f: Frame, ip: nat, exn: Exn): nat {
    if f.Readable(ip, exn) then
      var sites, clauses :| f.ReadAs(ip, exn, sites, clauses);
      Selector(clauses, exn)
    else 0
  }

  /** What the bytes make the personality routine answer. */
  ghost function Personality(f: Frame, ip: nat, exn: Exn, search: bool): Reason {
    if f.Readable(ip, exn) then Answer(PadHere(f, ip, exn).Some?, PadSelector(f, ip, exn), search) else ContinueUnwind
  }

  /** Where the bytes send control in the cleanup phase. */
  ghost function LandingAddress(f: Frame, ip: nat, exn: Exn): nat {
    if f.Readable(ip, exn) && PadHere(f, ip, exn).Some? then
      Wrapped(f.regionStart + PadHere(f, ip, exn).value.pad)
    else
      0
  }

  lemma ReadOneWay(f: Frame, ip: nat, exn: Exn, sites: seq<CallSite>, clauses: seq<Option<int>>)
    requires f.ReadAs(ip, exn, sites, clauses)
    ensures f.Readable(ip, exn)
    ensures PadHere(f, ip, exn) == Covering(sites, CallOffset(ip, f.regionStart))
    ensures PadSelector(f, ip, exn) == Selector(clauses, exn)
  {
    hide Describes, Covering, Selector, CallOffset;
    forall sites', clauses' | f.ReadAs(ip, exn, sites', clauses') ensures sites' == sites && clauses' == clauses {
      DescribesUnique(f.mem, f.types, f.lsda, CallOffset(ip, f.regionStart), exn, sites, clauses, sites', clauses');
    }
  }

  /** The routine as it runs gives the answers, selector and landing address that the bytes say. */
  method OurPersonality(f: Frame, search: bool, exn: Exn, context: UnwindContext) returns (reason: Reason)
    requires f.Readable(context.ip, exn) && context.regionStart == f.regionStart
    modifies context
    ensures reason == Personality(f, old(context.ip), exn, search)
    ensures reason == InstallContext ==> context.gr0 == exn.id && context.gr1 == PadSelector(f, old(context.ip), exn)
    ensures reason == InstallContext ==> context.ip == LandingAddress(f, old(context.ip), exn)
  {
    hide Describes, Covering, Selector, CallOffset;
    ghost var sites, clauses :| f.ReadAs(context.ip, exn, sites, clauses);
    ReadOneWay(f, context.ip, exn, sites, clauses);
    reason := HandleLsda(f.mem, f.types, Some(f.lsda), search, exn, context, sites, clauses);
  }

  // ---------- What an emitted table says ----------

  /** Where the code of the block stands that the invoke unwinds to. */
  function ExceptionBlockAddress(f: Frame): nat {
    Wrapped(f.regionStart + f.at(f.landing))
  }

  predicate Handles(f: Frame, exn: Exn) {
    exn.Ours() && exn.kind in f.catches
  }

  /** The first clause for a type. */
  function FirstClause(catches: seq<int>, kind: int): (i: nat)
    requires kind in catches
    ensures i < |catches| && catches[i] == kind && forall j | 0 <= j < i :: catches[j] != kind
  {
    if catches[0] == kind then 0 else FirstClause(catches[1..], kind) + 1
  }

  lemma ActionFits(f: Frame)
    requires Emitted(f)
    ensures FirstAction(f.catches) < 0x8000_0000 && SitesOf(f.Sites(), f.catches)
  {
    hide LaidOut, Loaded, At, ExceptionTable, Rest, CallSites, SitesOf, InOrder;
    PadSmaller(f.Sites(), f.catches, f.globals);
    FirstActionInside(f.catches);
    CallSitesFit(f.code, f.tries, f.at, f.size, f.catches);
  }

  /** What is read from an emitted table at any call. */
  lemma EmittedReads(f: Frame, ip: nat, exn: Exn)
    requires Emitted(f)
    ensures f.Readable(ip, exn)
    ensures PadHere(f, ip, exn) == Covering(f.Sites(), CallOffset(ip, f.regionStart))
    ensures PadSelector(f, ip, exn)
            == Selector(ReadClauses(f.Sites(), f.catches, CallOffset(ip, f.regionStart), exn), exn)
  {
    hide LaidOut, Labelled, Outside, Loaded, At, ExceptionTable, Rest, CallSites, SitesOf, Describes, PadHere;
    hide PadSelector, Until, ReadClauses, Covering, CallOffset;
    var offset := CallOffset(ip, f.regionStart);
    ActionFits(f);
    TableDescribes(f.mem, f.lsda, f.Sites(), f.catches, f.globals, f.types, offset, exn);
    ReadOneWay(f, ip, exn, Until(f.Sites(), offset), ReadClauses(f.Sites(), f.catches, offset, exn));
  }

  /** At the invoke the call is covered, the address is that of the landing pad of the invoke, and the selector is the
      first clause for the type, or 0. */
  lemma EmittedSelects(f: Frame, exn: Exn)
    requires Emitted(f)
    ensures f.Readable(f.ip, exn) && PadHere(f, f.ip, exn).Some?
    ensures LandingAddress(f, f.ip, exn) == Wrapped(f.regionStart + f.at(f.tries[f.invoke].pad))
    ensures PadSelector(f, f.ip, exn) == if Handles(f, exn) then FirstClause(f.catches, exn.kind) + 1 else 0
  {
    hide LaidOut, Labelled, Outside, Loaded, At, ExceptionTable, Rest, CallSites, Describes, PadHere, PadSelector;
    hide Covering, UpTo, Clauses, CallOffset;
    EmittedReads(f, f.ip, exn);
    TriesAreCovered(f.code, f.tries, f.at, f.size, f.catches, f.invoke, CallOffset(f.ip, f.regionStart));
    SelectorOfClauses(f.catches, exn);
  }

  /** At the call that resumes, nothing is: the unwinder goes on. */
  lemma EmittedResumes(f: Frame, exn: Exn, search: bool)
    requires Emitted(f)
    ensures Personality(f, f.resumeIp, exn, search) == ContinueUnwind
  {
    hide LaidOut, Labelled, Outside, Loaded, At, ExceptionTable, Rest, CallSites, Describes, PadHere, PadSelector;
    hide Covering, CallOffset;
    EmittedReads(f, f.resumeIp, exn);
    OutsideIsUncovered(f.code, f.tries, f.at, f.size, f.catches, f.resume, CallOffset(f.resumeIp, f.regionStart));
  }

  lemma SelectorOfClauses(catches: seq<int>, exn: Exn)
    ensures Selector(if catches != [] && exn.Ours() then UpTo(Clauses(catches), exn.kind) else [], exn)
            == if exn.Ours() && exn.kind in catches then FirstClause(catches, exn.kind) + 1 else 0
  {
    if exn.Ours() && catches != [] {
      UpToMatch(Clauses(catches), exn.kind);
      SelectorIsFirstClause(catches, exn.kind);
    }
  }

  lemma {:induction false} UpToMatch(clauses: seq<Option<int>>, kind: int)
    ensures FirstMatch(UpTo(clauses, kind), kind) == FirstMatch(clauses, kind)
  {
    if clauses != [] && clauses[0] != Some(kind) {
      UpToMatch(clauses[1..], kind);
      assert UpTo(clauses, kind)[1..] == UpTo(clauses[1..], kind);
    }
  }

  /** So at the invoke the routine finds a handler in the search phase exactly where the function handles the exception,
      and enters the exception block in the other phase. */
  lemma EmittedAnswers(f: Frame, exn: Exn)
    requires Emitted(f)
    ensures Personality(f, f.ip, exn, true) == if Handles(f, exn) then HandlerFound else ContinueUnwind
    ensures Personality(f, f.ip, exn, false) == InstallContext
    ensures LandingAddress(f, f.ip, exn) == ExceptionBlockAddress(f)
  {
    hide Describes, PadHere, PadSelector, LandingAddress, LaidOut, Labelled, Outside, At, Loaded, Rest, ExceptionTable;
    hide CallOffset;
    EmittedSelects(f, exn);
  }

  function Same(l: Label): nat {
    l
  }

  /** There are such functions: for catch lists whose tables are small enough, one whose code is an invoke and a call
      that resumes. */
  lemma EmittedExists(catches: seq<int>, globals: map<int, nat>, types: map<nat, int>) returns (f: Frame)
    requires Loaded(globals, types, TypeInfos(catches)) && forall i | 0 <= i < |catches| :: catches[i] in globals
    requires var tries := map[1 := Try(2, 3, FirstAction(catches))];
             |Rest(CallSites([Mark(1), Calls, Mark(2), Calls], tries, Same, 4), catches, globals)| < 0x800_0000
    ensures Emitted(f) && f.catches == catches
  {
    hide Loaded, TypeInfos, FirstAction, CallSites, Rest, ExceptionTable;
    var code, tries := [Mark(1), Calls, Mark(2), Calls], map[1 := Try(2, 3, FirstAction(catches))];
    var mem := ExceptionTable(CallSites(code, tries, Same, 4), catches, globals);
    f := Frame(catches, code, tries, Same, 4, 1, 3, 3, mem, 0, globals, types, 2, 4, 0);
    assert Mark(1) == code[0];
    assert code[..3] == [Mark(1), Calls, Mark(2)];
    assert Mark(2) == code[..3][2];
    OrderOfOne(tries);
  }

  lemma OrderOfOne(tries: map<Label, Try>)
    requires tries.Keys == {1} && tries[1].end == 2
    ensures InOrder([Mark(1), Calls, Mark(2), Calls], tries, Same, 0, 4)
  {
    var code := [Mark(1), Calls, Mark(2), Calls];
    assert code[1..] == [Calls, Mark(2), Calls] && code[1..][1..] == [Mark(2), Calls];
    assert code[1..][1..][1..] == [Calls] && [Calls][1..] == [];
    assert InOrder([], tries, Same, 2, 4) && InOrder([Calls], tries, Same, 2, 4);
    assert InOrder([Mark(2), Calls], tries, Same, 2, 4) && InOrder([Calls, Mark(2), Calls], tries, Same, 2, 4);
  }

  // ---------- The machine ----------

  datatype Landing = Landing(exn: Exn, selector: nat)

  /** One activation: the block it is at, its variables, and what its landing pad was entered with. */
  datatype Activation = Activation(block: BlockId, flag: int, stored: Option<Exn>, result: Option<Landing>,
                                   pad: Option<Landing>)

  /** What the innermost function does. */
  datatype Leaf = Returns | Throws(exn: Exn)

  datatype Mode =
    | Calling
    | Running
    | Unwinds(exn: Exn)
    | Returned
    | Escaped(exn: Exn)
    | Fatal

  datatype Event = Event(note: Note, depth: nat)

  /** The activations from the outermost in; the activation in which the search phase found a handler, or -1 for the
      harness; the exceptions released, and what was printed. */
  datatype State = State(stack: seq<Activation>, mode: Mode, handler: int, freed: seq<nat>, log: seq<Event>) {
    function Depth(): nat
      requires stack != []
    {
      |stack| - 1
    }

    function Top(): Activation
      requires stack != []
    {
      stack[|stack| - 1]
    }

    function WithTop(a: Activation): State
      requires stack != []
    {
      this.(stack := stack[..|stack| - 1] + [a])
    }

    function Pop(): State
      requires stack != []
    {
      this.(stack := stack[..|stack| - 1])
    }
  }

  /** What `deleteOurException` releases. */
  function Released(stored: Option<Exn>): seq<nat> {
    if stored.Some? && stored.value.Ours() then [stored.value.id] else []
  }

  function Exec(c: Code, s: State): State
    requires s.stack != []
  {
    var a := s.Top();
    match c
    case Print(note) => s.(log := s.log + [Event(note, s.Depth())])
    case StoreFlag(v) => s.WithTop(a.(flag := v))
    case ClearStored => s.WithTop(a.(stored := None))
    case ClearResult => s.WithTop(a.(result := None))
    case StoreResult => s.WithTop(a.(result := a.pad))
    case StoreException => s.WithTop(a.(stored := if a.pad.Some? then Some(a.pad.value.exn) else None))
    case DeleteStored => s.(freed := s.freed + Released(a.stored))
  }

  function ExecAll(code: seq<Code>, s: State): (s': State)
    requires s.stack != []
    ensures |s'.stack| == |s.stack|
    decreases |code|
  {
    if code == [] then s else ExecAll(code[1..], Exec(code[0], s))
  }

  function Target(cases: seq<Case>, value: int, default: BlockId): BlockId {
    if cases == [] then default
    else if cases[0].value == value then cases[0].target
    else Target(cases[1..], value, default)
  }

  /** The exit of the block that the innermost activation is at. */
  function ExitHere(program: seq<Frame>, s: State): Option<Exit> {
    if s.stack != [] && |s.stack| <= |program| && s.Top().block < CATCHES + |program[s.Depth()].catches| then
      GeneratedBlocks(|program[s.Depth()].catches|)[s.Top().block].exit
    else None
  }

  /** A call has returned to the innermost activation, or to the harness. */
  function ReturnTo(program: seq<Frame>, s: State): State {
    if s.stack == [] then s.(mode := Returned)
    else
      var exit := ExitHere(program, s);
      if exit.Some? && exit.value.Invoke? then s.WithTop(s.Top().(block := exit.value.normal)).(mode := Running)
      else s.(mode := Fatal)
  }

  function TakeExit(program: seq<Frame>, exit: Exit, s: State): State
    requires s.stack != []
  {
    var a := s.Top();
    match exit
    case Invoke(_, _) => s.(mode := Calling)
    case Goto(target) => s.WithTop(a.(block := target))
    case IfOurs(yes, no) =>
      if a.pad.None? then s.(mode := Fatal)
      else s.WithTop(a.(block := if a.pad.value.exn.Ours() then yes else no))
    case Switch(on, default, cases) =>
      if on.OnSelector? && a.pad.None? then s.(mode := Fatal)
      else s.WithTop(a.(block := Target(cases, if on.OnFlag? then a.flag else a.pad.value.selector, default)))
    case Resume =>
      if a.result.None? then s.(mode := Fatal) else s.(mode := Unwinds(a.result.value.exn))
    case Return => ReturnTo(program, s.Pop())
  }

  /** The first phase: the innermost of `depth` activations that has a handler. */
  ghost function Search(program: seq<Frame>, depth: nat, exn: Exn): int
    requires depth <= |program|
  {
    if depth == 0 then -1
    else if Personality(program[depth - 1], program[depth - 1].ip, exn, true) == HandlerFound then depth - 1
    else Search(program, depth - 1, exn)
  }

  /** Where the call returns to that the innermost activation is in, if it is in one. */
  function CallHere(program: seq<Frame>, s: State): Option<nat> {
    var exit := ExitHere(program, s);
    if exit.None? then None
    else if exit.value.Invoke? then Some(program[s.Depth()].ip)
    else if exit.value.Resume? then Some(program[s.Depth()].resumeIp)
    else None
  }

  /** The block that the invoke of a function unwinds to. */
  function UnwindBlock(f: Frame): BlockId {
    GeneratedBlocks(|f.catches|)[ENTRY].exit.value.unwind
  }

  /** One step of the second phase: send the innermost activation to the address that its table gives for the call it is
      in, where the block has to be that its invoke unwinds to; or drop it. */
  ghost function Unwind(program: seq<Frame>, exn: Exn, s: State): State {
    if s.stack == [] then s.(mode := Escaped(exn))
    else
      var call := CallHere(program, s);
      if call.None? then s.(mode := Fatal)
      else
        var f := program[s.Depth()];
        if Personality(f, call.value, exn, false) == InstallContext then
          if LandingAddress(f, call.value, exn) == ExceptionBlockAddress(f) then
            s.WithTop(s.Top().(pad := Some(Landing(exn, PadSelector(f, call.value, exn))), block := UnwindBlock(f)))
              .(mode := Running)
          else s.(mode := Fatal)
        else if s.Depth() == s.handler then s.(mode := Fatal)
        else s.Pop()
  }

  ghost function Step(program: seq<Frame>, leaf: Leaf, s: State): State {
    match s.mode
    case Calling =>
      if |s.stack| < |program| then
        s.(stack := s.stack + [Activation(ENTRY, NOT_THROWN, None, None, None)], mode := Running)
      else if |s.stack| > |program| then s.(mode := Fatal)
      else if leaf.Returns? then ReturnTo(program, s)
      else s.(mode := Unwinds(leaf.exn), handler := Search(program, |s.stack|, leaf.exn))
    case Running =>
      var exit := ExitHere(program, s);
      if exit.None? then s.(mode := Fatal)
      else
        TakeExit(program, exit.value,
                 ExecAll(GeneratedBlocks(|program[s.Depth()].catches|)[s.Top().block].code, s))
    case Unwinds(exn) => Unwind(program, exn, s)
    case _ => s
  }

  ghost function Run(program: seq<Frame>, leaf: Leaf, s: State, k: nat): State
    decreases k
  {
    if k == 0 then s else Run(program, leaf, Step(program, leaf, s), k - 1)
  }

  const START := State([], Calling, -1, [], [])

  // ---------- What should happen ----------

  function ExitNotes(depth: nat): seq<Event> {
    [Event(NoException, depth), Event(FinallyRun, depth), Event(EndRun, depth)]
  }

  /** All of `depth` functions return normally, from the innermost out. */
  function ReturnTrace(depth: nat): seq<Event> {
    if depth == 0 then [] else ExitNotes(depth - 1) + ReturnTrace(depth - 1)
  }

  function CaughtNotes(depth: nat, clause: nat): seq<Event> {
    [Event(TypeReceived, depth), Event(CatchRun(clause), depth), Event(FinallyRun, depth), Event(EndRun, depth)]
  }

  function PassedNotes(depth: nat, ours: bool): seq<Event> {
    [Event(if ours then TypeReceived else ForeignReceived, depth), Event(FinallyRun, depth)]
  }

  /** The innermost of `depth` functions that handles the exception catches it, by its first clause for the type, and
      the ones around it return normally; the ones inside it run their finally blocks only. */
  function ThrowTrace(program: seq<Frame>, depth: nat, exn: Exn): seq<Event>
    requires depth <= |program|
  {
    if depth == 0 then []
    else if Handles(program[depth - 1], exn) then
      CaughtNotes(depth - 1, FirstClause(program[depth - 1].catches, exn.kind)) + ReturnTrace(depth - 1)
    else PassedNotes(depth - 1, exn.Ours()) + ThrowTrace(program, depth - 1, exn)
  }

  /** The innermost of `depth` functions that handles the exception, or -1. */
  function Innermost(program: seq<Frame>, depth: nat, exn: Exn): (h: int)
    requires depth <= |program|
    ensures -1 <= h < depth
    ensures h >= 0 ==> Handles(program[h], exn)
    ensures forall i | h < i < depth :: !Handles(program[i], exn)
  {
    if depth == 0 then -1
    else if Handles(program[depth - 1], exn) then depth - 1
    else Innermost(program, depth - 1, exn)
  }

  /** The search phase finds the innermost handler. */
  lemma {:induction false} SearchFindsInnermost(program: seq<Frame>, depth: nat, exn: Exn)
    requires depth <= |program| && forall i | 0 <= i < |program| :: Emitted(program[i])
    ensures Search(program, depth, exn) == Innermost(program, depth, exn)
  {
    hide Personality, Emitted;
    if depth > 0 {
      EmittedAnswers(program[depth - 1], exn);
      SearchFindsInnermost(program, depth - 1, exn);
    }
  }

  // ---------- Runs ----------

  lemma {:induction false} RunAdd(program: seq<Frame>, leaf: Leaf, s: State, j: nat, k: nat)
    ensures Run(program, leaf, s, j + k) == Run(program, leaf, Run(program, leaf, s, j), k)
    decreases j
  {
    hide Step;
    if j > 0 {
      RunAdd(program, leaf, Step(program, leaf, s), j - 1, k);
    }
  }

  ghost predicate Reaches(program: seq<Frame>, leaf: Leaf, s: State, t: State) {
    exists k: nat :: Run(program, leaf, s, k) == t
  }

  lemma ReachesSelf(program: seq<Frame>, leaf: Leaf, s: State)
    ensures Reaches(program, leaf, s, s)
  {
    assert Run(program, leaf, s, 0) == s;
  }

  lemma ReachesOn(program: seq<Frame>, leaf: Leaf, s: State, t: State, u: State)
    requires Reaches(program, leaf, s, t) && Reaches(program, leaf, t, u)
    ensures Reaches(program, leaf, s, u)
  {
    var j: nat :| Run(program, leaf, s, j) == t;
    var k: nat :| Run(program, leaf, t, k) == u;
    RunAdd(program, leaf, s, j, k);
  }

  lemma ReachesNext(program: seq<Frame>, leaf: Leaf, s: State, t: State)
    requires Reaches(program, leaf, s, t)
    ensures Reaches(program, leaf, s, Step(program, leaf, t))
  {
    assert Run(program, leaf, t, 1) == Step(program, leaf, t) by {
      assert Run(program, leaf, Step(program, leaf, t), 0) == Step(program, leaf, t);
    }
    ReachesOn(program, leaf, s, t, Step(program, leaf, t));
  }

  const WAITING := Activation(ENTRY, NOT_THROWN, None, None, None)

  /** `depth` activations, each waiting for the call in its invoke. */
  function Waiting(depth: nat): seq<Activation> {
    seq(depth, _ => WAITING)
  }

  /** A state in which the activation at `depth` runs and those around it wait. */
  function AtBlock(depth: nat, a: Activation, handler: int, freed: seq<nat>, log: seq<Event>): State {
    State(Waiting(depth) + [a], Running, handler, freed, log)
  }

  lemma ExecBlock(code: seq<Code>, s: State)
    requires s.stack != [] && |code| <= 3
    ensures ExecAll(code, s)
            == if |code| == 0 then s
               else if |code| == 1 then Exec(code[0], s)
               else if |code| == 2 then Exec(code[1], Exec(code[0], s))
               else Exec(code[2], Exec(code[1], Exec(code[0], s)))
  {
    if |code| > 0 {
      assert |code[1..]| == |code| - 1;
      if |code| > 1 {
        assert code[1..][1..] == code[2..];
        if |code| > 2 {
          assert code[2..][1..] == [];
        }
      }
    }
  }

  /** One step from block `b` of a generated function. */
  lemma StepFrom(program: seq<Frame>, leaf: Leaf, depth: nat, a: Activation, handler: int, freed: seq<nat>,
                 log: seq<Event>)
    returns (s': State)
    requires depth < |program| && a.block < CATCHES + |program[depth].catches|
    ensures var b := GeneratedBlocks(|program[depth].catches|)[a.block];
            var s := AtBlock(depth, a, handler, freed, log);
            && s.stack != [] && s.Top() == a && s.Depth() == depth && s.Pop().stack == Waiting(depth)
            && b.exit.Some? && s' == ExecAll(b.code, s) && |s'.stack| == |s.stack|
            && Step(program, leaf, s) == TakeExit(program, b.exit.value, s')
  {
    var s := AtBlock(depth, a, handler, freed, log);
    assert s.stack[..depth] == Waiting(depth);
    s' := ExecAll(GeneratedBlocks(|program[depth].catches|)[a.block].code, s);
  }

  lemma Tops(depth: nat, a: Activation, a': Activation, handler: int, freed: seq<nat>, log: seq<Event>)
    ensures var s := AtBlock(depth, a, handler, freed, log);
            && s.stack != [] && s.WithTop(a') == AtBlock(depth, a', handler, freed, log)
            && s.Top() == a && s.Depth() == depth && s.Pop().stack == Waiting(depth)
  {
    var s := AtBlock(depth, a, handler, freed, log);
    assert s.stack[..depth] == Waiting(depth);
  }

  lemma FinallyTarget(flag: int)
    ensures Target([Case(CAUGHT, END), Case(THROWN, RESUME)], flag, END) == if flag == THROWN then RESUME else END
  {
    var cases := [Case(CAUGHT, END), Case(THROWN, RESUME)];
    var thrown := [Case(THROWN, RESUME)];
    assert thrown[1..] == [] && cases[1..] == thrown;
    assert Target(thrown, flag, END) == if flag == THROWN then RESUME else END;
  }

  /** Calls go in until the innermost function is reached. */
  lemma {:induction false} CallsIn(program: seq<Frame>, leaf: Leaf, depth: nat)
    requires depth <= |program|
    ensures Reaches(program, leaf, State(Waiting(depth), Calling, -1, [], []),
                    State(Waiting(|program|), Calling, -1, [], []))
    decreases |program| - depth
  {
    var s := State(Waiting(depth), Calling, -1, [], []);
    ReachesSelf(program, leaf, s);
    if depth < |program| {
      ReachesNext(program, leaf, s, s);
      assert Step(program, leaf, s) == AtBlock(depth, WAITING, -1, [], []);
      EntryCalls(program, leaf, depth);
      ReachesNext(program, leaf, s, AtBlock(depth, WAITING, -1, [], []));
      CallsIn(program, leaf, depth + 1);
      ReachesOn(program, leaf, s, State(Waiting(depth + 1), Calling, -1, [], []),
                State(Waiting(|program|), Calling, -1, [], []));
    }
  }

  lemma EntryCalls(program: seq<Frame>, leaf: Leaf, depth: nat)
    requires depth < |program|
    ensures Step(program, leaf, AtBlock(depth, WAITING, -1, [], [])) == State(Waiting(depth + 1), Calling, -1, [], [])
  {
    var s' := StepFrom(program, leaf, depth, WAITING, -1, [], []);
    ExecBlock([ClearResult, ClearStored, StoreFlag(NOT_THROWN)], AtBlock(depth, WAITING, -1, [], []));
    assert Waiting(depth) + [WAITING] == Waiting(depth + 1);
  }

  /** The finally block leads to the end, unless something was thrown and not caught. */
  lemma FinallyChooses(program: seq<Frame>, leaf: Leaf, depth: nat, a: Activation, handler: int, freed: seq<nat>,
                       log: seq<Event>)
    requires depth < |program| && a.block == FINALLY
    ensures Step(program, leaf, AtBlock(depth, a, handler, freed, log))
            == AtBlock(depth, a.(block := if a.flag == THROWN then RESUME else END), handler, freed,
                       log + [Event(FinallyRun, depth)])
  {
    hide Target;
    var s1 := StepFrom(program, leaf, depth, a, handler, freed, log);
    ExecBlock([Print(FinallyRun)], AtBlock(depth, a, handler, freed, log));
    FinallyTarget(a.flag);
    Tops(depth, a, a.(block := if a.flag == THROWN then RESUME else END), handler, freed,
         log + [Event(FinallyRun, depth)]);
  }

  lemma EndReturns(program: seq<Frame>, leaf: Leaf, depth: nat, a: Activation, handler: int, freed: seq<nat>,
                   log: seq<Event>)
    requires depth < |program| && a.block == END
    ensures Step(program, leaf, AtBlock(depth, a, handler, freed, log))
            == ReturnTo(program, State(Waiting(depth), Running, handler, freed + Released(a.stored),
                                       log + [Event(EndRun, depth)]))
  {
    var s1 := StepFrom(program, leaf, depth, a, handler, freed, log);
    ExecBlock([Print(EndRun), DeleteStored], AtBlock(depth, a, handler, freed, log));
  }

  lemma ResumeUnwinds(program: seq<Frame>, leaf: Leaf, depth: nat, a: Activation, handler: int, freed: seq<nat>,
                      log: seq<Event>)
    requires depth < |program| && a.block == RESUME && a.result.Some?
    ensures Step(program, leaf, AtBlock(depth, a, handler, freed, log))
            == AtBlock(depth, a, handler, freed, log).(mode := Unwinds(a.result.value.exn))
  {
    var s1 := StepFrom(program, leaf, depth, a, handler, freed, log);
  }

  /** From the call that resumes, the unwinder drops the activation: its own landing pad is not entered again. */
  lemma ResumeDrops(program: seq<Frame>, leaf: Leaf, depth: nat, a: Activation, exn: Exn, handler: int, freed: seq<nat>,
                    log: seq<Event>)
    requires depth < |program| && a.block == RESUME && Emitted(program[depth]) && handler != depth
    ensures Step(program, leaf, AtBlock(depth, a, handler, freed, log).(mode := Unwinds(exn)))
            == State(Waiting(depth), Unwinds(exn), handler, freed, log)
  {
    hide Personality, PadSelector, Emitted, LandingAddress, ExceptionBlockAddress;
    EmittedResumes(program[depth], exn, false);
    Tops(depth, a, a, handler, freed, log);
  }

  /** From the finally block to the end of the activation, when nothing was thrown or it has been caught. */
  lemma FinallyEnds(program: seq<Frame>, leaf: Leaf, s: State, depth: nat, a: Activation, handler: int,
                    freed: seq<nat>, log: seq<Event>)
    requires depth < |program| && a.block == FINALLY && a.flag != THROWN
    requires Reaches(program, leaf, s, AtBlock(depth, a, handler, freed, log))
    ensures Reaches(program, leaf, s,
                    ReturnTo(program, State(Waiting(depth), Running, handler, freed + Released(a.stored),
                                            log + [Event(FinallyRun, depth), Event(EndRun, depth)])))
  {
    hide Step, Reaches, AtBlock, ReturnTo, Released;
    var log1 := log + [Event(FinallyRun, depth)];
    ReachesNext(program, leaf, s, AtBlock(depth, a, handler, freed, log));
    FinallyChooses(program, leaf, depth, a, handler, freed, log);
    ReachesNext(program, leaf, s, AtBlock(depth, a.(block := END), handler, freed, log1));
    EndReturns(program, leaf, depth, a.(block := END), handler, freed, log1);
    assert log1 + [Event(EndRun, depth)] == log + [Event(FinallyRun, depth), Event(EndRun, depth)];
  }

  /** And to the resumption of what was thrown and not caught. */
  lemma FinallyResumes(program: seq<Frame>, leaf: Leaf, s: State, depth: nat, a: Activation, handler: int,
                       freed: seq<nat>, log: seq<Event>)
    requires depth < |program| && a.block == FINALLY && a.flag == THROWN && a.result.Some?
    requires Emitted(program[depth]) && handler != depth
    requires Reaches(program, leaf, s, AtBlock(depth, a, handler, freed, log))
    ensures Reaches(program, leaf, s,
                    State(Waiting(depth), Unwinds(a.result.value.exn), handler, freed,
                          log + [Event(FinallyRun, depth)]))
  {
    hide Step, Reaches, AtBlock, Emitted;
    var a', log', exn := a.(block := RESUME), log + [Event(FinallyRun, depth)], a.result.value.exn;
    ReachesNext(program, leaf, s, AtBlock(depth, a, handler, freed, log));
    FinallyChooses(program, leaf, depth, a, handler, freed, log);
    ReachesNext(program, leaf, s, AtBlock(depth, a', handler, freed, log'));
    ResumeUnwinds(program, leaf, depth, a', handler, freed, log');
    ReachesNext(program, leaf, s, AtBlock(depth, a', handler, freed, log').(mode := Unwinds(exn)));
    ResumeDrops(program, leaf, depth, a', exn, handler, freed, log');
  }

  function Landed(exn: Exn, selector: nat): Activation {
    WAITING.(block := EXCEPTION, pad := Some(Landing(exn, selector)))
  }

  function Stored(exn: Exn, selector: nat, block: BlockId): Activation {
    Activation(block, THROWN, Some(exn), Some(Landing(exn, selector)), Some(Landing(exn, selector)))
  }

  /** The landing pad notes the exception, and sends it to the router if it is ours. */
  lemma LandingRoutes(program: seq<Frame>, leaf: Leaf, depth: nat, exn: Exn, selector: nat, handler: int,
                      freed: seq<nat>, log: seq<Event>)
    requires depth < |program|
    ensures Step(program, leaf, AtBlock(depth, Landed(exn, selector), handler, freed, log))
            == AtBlock(depth, Stored(exn, selector, if exn.Ours() then ROUTE else EXTERNAL), handler, freed, log)
  {
    var a := Landed(exn, selector);
    var s1 := StepFrom(program, leaf, depth, a, handler, freed, log);
    ExecBlock([StoreResult, StoreException, StoreFlag(THROWN)], AtBlock(depth, a, handler, freed, log));
    var a1 := a.(result := a.pad);
    Tops(depth, a, a1, handler, freed, log);
    var a2 := a1.(stored := Some(exn));
    Tops(depth, a1, a2, handler, freed, log);
    var a3 := a2.(flag := THROWN);
    Tops(depth, a2, a3, handler, freed, log);
    Tops(depth, a3, Stored(exn, selector, if exn.Ours() then ROUTE else EXTERNAL), handler, freed, log);
  }

  function CatchCases(from: nat, n: nat): seq<Case>
    requires from <= n
  {
    seq(n - from, i requires i >= 0 => CatchCase(from + i))
  }

  lemma {:induction false} RouteTarget(from: nat, n: nat, selector: nat)
    requires from <= n
    ensures Target(CatchCases(from, n), selector, FINALLY)
            == if from < selector <= n then CATCHES + selector - 1 else FINALLY
    decreases n - from
  {
    var cases := CatchCases(from, n);
    if from < n {
      assert cases[0] == CatchCase(from + 0);
      assert cases[1..] == CatchCases(from + 1, n);
      RouteTarget(from + 1, n, selector);
    }
  }

  /** The router selects the catch block of the clause, or the finally block. */
  lemma RouteSelects(program: seq<Frame>, leaf: Leaf, depth: nat, exn: Exn, selector: nat, handler: int,
                     freed: seq<nat>, log: seq<Event>)
    requires depth < |program| && selector <= |program[depth].catches|
    ensures Step(program, leaf, AtBlock(depth, Stored(exn, selector, ROUTE), handler, freed, log))
            == AtBlock(depth, Stored(exn, selector, if selector == 0 then FINALLY else CATCHES + selector - 1),
                       handler, freed, log + [Event(TypeReceived, depth)])
  {
    var a := Stored(exn, selector, ROUTE);
    var n := |program[depth].catches|;
    var s1 := StepFrom(program, leaf, depth, a, handler, freed, log);
    ExecBlock([Print(TypeReceived)], AtBlock(depth, a, handler, freed, log));
    var log' := log + [Event(TypeReceived, depth)];
    RouteTarget(0, n, selector);
    assert seq(n, i requires i >= 0 => CatchCase(i)) == CatchCases(0, n);
    Tops(depth, a, Stored(exn, selector, if selector == 0 then FINALLY else CATCHES + selector - 1), handler, freed,
         log');
  }

  lemma ExternalPasses(program: seq<Frame>, leaf: Leaf, depth: nat, exn: Exn, selector: nat, handler: int,
                       freed: seq<nat>, log: seq<Event>)
    requires depth < |program|
    ensures Step(program, leaf, AtBlock(depth, Stored(exn, selector, EXTERNAL), handler, freed, log))
            == AtBlock(depth, Stored(exn, selector, FINALLY), handler, freed, log + [Event(ForeignReceived, depth)])
  {
    var a := Stored(exn, selector, EXTERNAL);
    var s1 := StepFrom(program, leaf, depth, a, handler, freed, log);
    ExecBlock([Print(ForeignReceived)], AtBlock(depth, a, handler, freed, log));
    Tops(depth, a, Stored(exn, selector, FINALLY), handler, freed, log + [Event(ForeignReceived, depth)]);
  }

  lemma CatchMarks(program: seq<Frame>, leaf: Leaf, depth: nat, exn: Exn, selector: nat, handler: int, freed: seq<nat>,
                   log: seq<Event>)
    requires depth < |program| && 1 <= selector <= |program[depth].catches|
    ensures Step(program, leaf, AtBlock(depth, Stored(exn, selector, CATCHES + selector - 1), handler, freed, log))
            == AtBlock(depth, Stored(exn, selector, FINALLY).(flag := CAUGHT), handler, freed,
                       log + [Event(CatchRun(selector - 1), depth)])
  {
    var a := Stored(exn, selector, CATCHES + selector - 1);
    var s1 := StepFrom(program, leaf, depth, a, handler, freed, log);
    ExecBlock([Print(CatchRun(selector - 1)), StoreFlag(CAUGHT)], AtBlock(depth, a, handler, freed, log));
    var log' := log + [Event(CatchRun(selector - 1), depth)];
    Tops(depth, a, a.(flag := CAUGHT), handler, freed, log');
    Tops(depth, a.(flag := CAUGHT), Stored(exn, selector, FINALLY).(flag := CAUGHT), handler, freed, log');
  }

  /** A landing with a positive selector ends in a normal return, the exception released. */
  lemma Caught(program: seq<Frame>, leaf: Leaf, s: State, depth: nat, exn: Exn, selector: nat, handler: int,
               freed: seq<nat>, log: seq<Event>)
    requires depth < |program| && exn.Ours() && 1 <= selector <= |program[depth].catches|
    requires Reaches(program, leaf, s, AtBlock(depth, Landed(exn, selector), handler, freed, log))
    ensures Reaches(program, leaf, s,
                    ReturnTo(program, State(Waiting(depth), Running, handler, freed + [exn.id],
                                            log + CaughtNotes(depth, selector - 1))))
  {
    hide Step, Reaches, AtBlock, ReturnTo;
    var log1, log2 := log + [Event(TypeReceived, depth)],
        log + [Event(TypeReceived, depth)] + [Event(CatchRun(selector - 1), depth)];
    ReachesNext(program, leaf, s, AtBlock(depth, Landed(exn, selector), handler, freed, log));
    LandingRoutes(program, leaf, depth, exn, selector, handler, freed, log);
    ReachesNext(program, leaf, s, AtBlock(depth, Stored(exn, selector, ROUTE), handler, freed, log));
    RouteSelects(program, leaf, depth, exn, selector, handler, freed, log);
    ReachesNext(program, leaf, s, AtBlock(depth, Stored(exn, selector, CATCHES + selector - 1), handler, freed, log1));
    CatchMarks(program, leaf, depth, exn, selector, handler, freed, log1);
    FinallyEnds(program, leaf, s, depth, Stored(exn, selector, FINALLY).(flag := CAUGHT), handler, freed, log2);
    assert log2 + [Event(FinallyRun, depth), Event(EndRun, depth)] == log + CaughtNotes(depth, selector - 1);
  }

  /** A landing with selector 0, or with a foreign exception, runs the finally block and resumes. */
  lemma PassedOn(program: seq<Frame>, leaf: Leaf, s: State, depth: nat, exn: Exn, handler: int, freed: seq<nat>,
                 log: seq<Event>)
    requires depth < |program| && Emitted(program[depth]) && handler != depth
    requires Reaches(program, leaf, s, AtBlock(depth, Landed(exn, 0), handler, freed, log))
    ensures Reaches(program, leaf, s,
                    State(Waiting(depth), Unwinds(exn), handler, freed, log + PassedNotes(depth, exn.Ours())))
  {
    hide Step, Reaches, AtBlock, Emitted;
    ReachesNext(program, leaf, s, AtBlock(depth, Landed(exn, 0), handler, freed, log));
    LandingRoutes(program, leaf, depth, exn, 0, handler, freed, log);
    var log1 := log + [Event(if exn.Ours() then TypeReceived else ForeignReceived, depth)];
    if exn.Ours() {
      ReachesNext(program, leaf, s, AtBlock(depth, Stored(exn, 0, ROUTE), handler, freed, log));
      RouteSelects(program, leaf, depth, exn, 0, handler, freed, log);
    } else {
      ReachesNext(program, leaf, s, AtBlock(depth, Stored(exn, 0, EXTERNAL), handler, freed, log));
      ExternalPasses(program, leaf, depth, exn, 0, handler, freed, log);
    }
    FinallyResumes(program, leaf, s, depth, Stored(exn, 0, FINALLY), handler, freed, log1);
    assert log1 + [Event(FinallyRun, depth)] == log + PassedNotes(depth, exn.Ours());
  }

  // ---------- Whole runs ----------

  /** A normal return passes through the normal block, the finally block and the end block. */
  lemma NormalExit(program: seq<Frame>, leaf: Leaf, s: State, depth: nat, handler: int, freed: seq<nat>,
                   log: seq<Event>)
    requires depth < |program|
    requires Reaches(program, leaf, s, AtBlock(depth, WAITING.(block := NORMAL), handler, freed, log))
    ensures Reaches(program, leaf, s,
                    ReturnTo(program, State(Waiting(depth), Running, handler, freed, log + ExitNotes(depth))))
  {
    var a := WAITING.(block := NORMAL);
    var s1 := StepFrom(program, leaf, depth, a, handler, freed, log);
    ExecBlock([Print(NoException)], AtBlock(depth, a, handler, freed, log));
    var log1 := log + [Event(NoException, depth)];
    Tops(depth, a, WAITING.(block := FINALLY), handler, freed, log1);
    ReachesNext(program, leaf, s, AtBlock(depth, a, handler, freed, log));
    FinallyEnds(program, leaf, s, depth, WAITING.(block := FINALLY), handler, freed, log1);
    assert freed + Released(None) == freed;
    assert log1 + [Event(FinallyRun, depth), Event(EndRun, depth)] == log + ExitNotes(depth);
  }

  lemma ReturnToWaiting(program: seq<Frame>, depth: nat, mode: Mode, handler: int, freed: seq<nat>, log: seq<Event>)
    requires depth < |program|
    ensures ReturnTo(program, State(Waiting(depth + 1), mode, handler, freed, log))
            == AtBlock(depth, WAITING.(block := NORMAL), handler, freed, log)
  {
    assert Waiting(depth + 1)[..depth] == Waiting(depth);
  }

  lemma {:induction false} Returning(program: seq<Frame>, leaf: Leaf, s: State, depth: nat, mode: Mode, handler: int,
                                     freed: seq<nat>, log: seq<Event>)
    requires depth <= |program|
    requires Reaches(program, leaf, s, ReturnTo(program, State(Waiting(depth), mode, handler, freed, log)))
    ensures Reaches(program, leaf, s, State([], Returned, handler, freed, log + ReturnTrace(depth)))
    decreases depth
  {
    hide Reaches, AtBlock;
    if depth > 0 {
      hide ReturnTo;
      ReturnToWaiting(program, depth - 1, mode, handler, freed, log);
      NormalExit(program, leaf, s, depth - 1, handler, freed, log);
      Returning(program, leaf, s, depth - 1, Running, handler, freed, log + ExitNotes(depth - 1));
      assert log + ExitNotes(depth - 1) + ReturnTrace(depth - 1) == log + ReturnTrace(depth);
    } else {
      assert Waiting(0) == [] && log + [] == log;
    }
  }

  /** The second phase enters the landing pad of the innermost activation, with the selector of its clauses. */
  lemma Lands(program: seq<Frame>, leaf: Leaf, depth: nat, exn: Exn, handler: int, freed: seq<nat>, log: seq<Event>)
    requires depth < |program| && Emitted(program[depth])
    ensures Step(program, leaf, State(Waiting(depth + 1), Unwinds(exn), handler, freed, log))
            == AtBlock(depth, Landed(exn, PadSelector(program[depth], program[depth].ip, exn)), handler, freed, log)
  {
    hide Personality, PadSelector, Emitted, LandingAddress, ExceptionBlockAddress;
    EmittedAnswers(program[depth], exn);
    assert Waiting(depth + 1)[..depth] == Waiting(depth);
  }

  lemma CaughtAndReturned(program: seq<Frame>, leaf: Leaf, s: State, depth: nat, exn: Exn, clause: nat, handler: int,
                          log: seq<Event>)
    requires depth < |program| && exn.Ours() && clause < |program[depth].catches|
    requires Reaches(program, leaf, s, AtBlock(depth, Landed(exn, clause + 1), handler, [], log))
    ensures Reaches(program, leaf, s,
                    State([], Returned, handler, [exn.id], log + (CaughtNotes(depth, clause) + ReturnTrace(depth))))
  {
    hide Reaches, AtBlock, ReturnTo, CaughtNotes, ReturnTrace;
    Caught(program, leaf, s, depth, exn, clause + 1, handler, [], log);
    var none: seq<nat> := [];
    assert none + [exn.id] == [exn.id];
    Returning(program, leaf, s, depth, Running, handler, [exn.id], log + CaughtNotes(depth, clause));
    assert log + CaughtNotes(depth, clause) + ReturnTrace(depth)
        == log + (CaughtNotes(depth, clause) + ReturnTrace(depth));
  }

  /** How it ends when `exn` has unwound to the innermost of `depth` waiting activations. */
  function Thrown(program: seq<Frame>, depth: nat, exn: Exn, handler: int, log: seq<Event>): State
    requires depth <= |program|
  {
    var trace := log + ThrowTrace(program, depth, exn);
    if Innermost(program, depth, exn) >= 0 then State([], Returned, handler, [exn.id], trace)
    else State([], Escaped(exn), handler, [], trace)
  }

  lemma ThrownOut(program: seq<Frame>, exn: Exn, handler: int, log: seq<Event>)
    ensures Thrown(program, 0, exn, handler, log) == State([], Escaped(exn), handler, [], log)
  {
    assert log + [] == log;
  }

  lemma ThrownHandled(program: seq<Frame>, depth: nat, exn: Exn, handler: int, log: seq<Event>)
    requires depth < |program| && Handles(program[depth], exn)
    ensures var clause := FirstClause(program[depth].catches, exn.kind);
            Thrown(program, depth + 1, exn, handler, log)
            == State([], Returned, handler, [exn.id], log + (CaughtNotes(depth, clause) + ReturnTrace(depth)))
  {
    hide CaughtNotes, ReturnTrace;
  }

  lemma ThrownPassed(program: seq<Frame>, depth: nat, exn: Exn, handler: int, log: seq<Event>)
    requires depth < |program| && !Handles(program[depth], exn)
    ensures Thrown(program, depth + 1, exn, handler, log)
            == Thrown(program, depth, exn, handler, log + PassedNotes(depth, exn.Ours()))
  {
    hide PassedNotes;
    var notes, rest := PassedNotes(depth, exn.Ours()), ThrowTrace(program, depth, exn);
    assert log + (notes + rest) == log + notes + rest;
  }

  lemma {:induction false} Throwing(program: seq<Frame>, leaf: Leaf, s: State, depth: nat, exn: Exn, handler: int,
                                    log: seq<Event>)
    requires depth <= |program| && forall i | 0 <= i < |program| :: Emitted(program[i])
    requires handler >= 0 ==> handler < |program| && Handles(program[handler], exn)
    requires Reaches(program, leaf, s, State(Waiting(depth), Unwinds(exn), handler, [], log))
    ensures Reaches(program, leaf, s, Thrown(program, depth, exn, handler, log))
    decreases depth
  {
    hide Reaches, AtBlock, ReturnTo, Step, Thrown, PadSelector, Handles, Emitted, Waiting;
    ReachesNext(program, leaf, s, State(Waiting(depth), Unwinds(exn), handler, [], log));
    if depth == 0 {
      NobodyWaits(program, leaf, exn, handler, log);
      ThrownOut(program, exn, handler, log);
    } else {
      var f := program[depth - 1];
      Lands(program, leaf, depth - 1, exn, handler, [], log);
      EmittedSelects(f, exn);
      if Handles(f, exn) {
        HandlesOurs(f, exn);
        CaughtAndReturned(program, leaf, s, depth - 1, exn, FirstClause(f.catches, exn.kind), handler, log);
        ThrownHandled(program, depth - 1, exn, handler, log);
      } else {
        PassedOn(program, leaf, s, depth - 1, exn, handler, [], log);
        Throwing(program, leaf, s, depth - 1, exn, handler, log + PassedNotes(depth - 1, exn.Ours()));
        ThrownPassed(program, depth - 1, exn, handler, log);
      }
    }
  }

  lemma NobodyWaits(program: seq<Frame>, leaf: Leaf, exn: Exn, handler: int, log: seq<Event>)
    ensures Step(program, leaf, State(Waiting(0), Unwinds(exn), handler, [], log))
            == State([], Escaped(exn), handler, [], log)
  {
  }

  lemma HandlesOurs(f: Frame, exn: Exn)
    ensures Handles(f, exn) ==> exn.Ours() && exn.kind in f.catches
  {
  }

  /** How it all ends, in the simple terms of innermost handlers. */
  ghost function Final(program: seq<Frame>, leaf: Leaf): State {
    if leaf.Returns? then State([], Returned, -1, [], ReturnTrace(|program|))
    else
      var h := Innermost(program, |program|, leaf.exn);
      State([], if h >= 0 then Returned else Escaped(leaf.exn), h, if h >= 0 then [leaf.exn.id] else [],
            ThrowTrace(program, |program|, leaf.exn))
  }

  lemma ReachesFinal(program: seq<Frame>, leaf: Leaf)
    requires forall i | 0 <= i < |program| :: Emitted(program[i])
    ensures Reaches(program, leaf, START, Final(program, leaf))
  {
    hide Reaches, ReturnTo, Emitted;
    var depth := |program|;
    assert Waiting(0) == [];
    CallsIn(program, leaf, 0);
    ReachesNext(program, leaf, START, State(Waiting(depth), Calling, -1, [], []));
    if leaf.Returns? {
      Returning(program, leaf, START, depth, Calling, -1, [], []);
      assert [] + ReturnTrace(depth) == ReturnTrace(depth);
    } else {
      SearchFindsInnermost(program, depth, leaf.exn);
      Throwing(program, leaf, START, depth, leaf.exn, Innermost(program, depth, leaf.exn), []);
      assert [] + ThrowTrace(program, depth, leaf.exn) == ThrowTrace(program, depth, leaf.exn);
    }
  }

  predicate Over(s: State) {
    s.mode.Returned? || s.mode.Escaped? || s.mode.Fatal?
  }

  lemma {:induction false} OverStays(program: seq<Frame>, leaf: Leaf, s: State, k: nat)
    requires Over(s)
    ensures Run(program, leaf, s, k) == s
  {
    if k > 0 {
      OverStays(program, leaf, s, k - 1);
    }
  }

  /** For every stack, catch lists and thrown exception: the two phases deliver control to the innermost handler, by its
      first clause for the type, or to the harness, and every run ends so. */
  lemma TwoPhaseUnwinding(program: seq<Frame>, leaf: Leaf, k: nat)
    requires forall i | 0 <= i < |program| :: Emitted(program[i])
    ensures Over(Run(program, leaf, START, k)) ==> Run(program, leaf, START, k) == Final(program, leaf)
    ensures exists n: nat :: Over(Run(program, leaf, START, n))
  {
    ReachesFinal(program, leaf);
    hide Run, Final, Step, Emitted;
    var n: nat :| Run(program, leaf, START, n) == Final(program, leaf);
    FinalIsOver(program, leaf);
    if Over(Run(program, leaf, START, k)) {
      SameEnd(program, leaf, k, n);
    }
  }

  lemma FinalIsOver(program: seq<Frame>, leaf: Leaf)
    ensures Over(Final(program, leaf))
  {
  }

  lemma SameEnd(program: seq<Frame>, leaf: Leaf, j: nat, k: nat)
    requires Over(Run(program, leaf, START, j)) && Over(Run(program, leaf, START, k))
    ensures Run(program, leaf, START, j) == Run(program, leaf, START, k)
  {
    hide Run, Step;
    if j <= k {
      RunAdd(program, leaf, START, j, k - j);
      OverStays(program, leaf, Run(program, leaf, START, j), k - j);
    } else {
      RunAdd(program, leaf, START, k, j - k);
      OverStays(program, leaf, Run(program, leaf, START, k), j - k);
    }
  }

  // ---------- Finally blocks and ownership ----------

  function Times(e: Event, log: seq<Event>): nat {
    multiset(log)[e]
  }

  lemma TimesAppend(e: Event, a: seq<Event>, b: seq<Event>)
    ensures Times(e, a + b) == Times(e, a) + Times(e, b)
  {
  }

  /** Whatever an activation prints when it is left, its finally block is in it once. */
  lemma NotesOnce(depth: nat, clause: nat, ours: bool, i: nat)
    ensures var e, times := Event(FinallyRun, i), if i == depth then 1 else 0;
            && Times(e, ExitNotes(depth)) == times
            && Times(e, CaughtNotes(depth, clause)) == times
            && Times(e, PassedNotes(depth, ours)) == times
  {
  }

  lemma {:induction false} ReturnTraceOnce(depth: nat, i: nat)
    ensures Times(Event(FinallyRun, i), ReturnTrace(depth)) == if i < depth then 1 else 0
  {
    hide Times, ExitNotes;
    if depth > 0 {
      ReturnTraceOnce(depth - 1, i);
      NotesOnce(depth - 1, 0, true, i);
      TimesAppend(Event(FinallyRun, i), ExitNotes(depth - 1), ReturnTrace(depth - 1));
    } else {
      TimesNone(Event(FinallyRun, i));
    }
  }

  lemma TimesNone(e: Event)
    ensures Times(e, []) == 0
  {
  }

  lemma {:induction false} ThrowTraceOnce(program: seq<Frame>, depth: nat, exn: Exn, i: nat)
    requires depth <= |program|
    ensures Times(Event(FinallyRun, i), ThrowTrace(program, depth, exn)) == if i < depth then 1 else 0
  {
    hide Times, CaughtNotes, PassedNotes, ReturnTrace;
    var e := Event(FinallyRun, i);
    if depth == 0 {
      TimesNone(e);
    } else if Handles(program[depth - 1], exn) {
      var clause := FirstClause(program[depth - 1].catches, exn.kind);
      ReturnTraceOnce(depth - 1, i);
      NotesOnce(depth - 1, clause, true, i);
      TimesAppend(e, CaughtNotes(depth - 1, clause), ReturnTrace(depth - 1));
    } else {
      ThrowTraceOnce(program, depth - 1, exn, i);
      NotesOnce(depth - 1, 0, exn.Ours(), i);
      TimesAppend(e, PassedNotes(depth - 1, exn.Ours()), ThrowTrace(program, depth - 1, exn));
    }
  }

  /** However the call ends, every activation has run its finally block exactly once; a generated exception has been
      released exactly once if a generated function caught it and not at all otherwise, and nothing else has ever been
      released. */
  lemma FinallyOnceAndOwnership(program: seq<Frame>, leaf: Leaf, k: nat, i: nat)
    requires forall i | 0 <= i < |program| :: Emitted(program[i])
    requires Over(Run(program, leaf, START, k)) && i < |program|
    ensures var s := Run(program, leaf, START, k);
            && Times(Event(FinallyRun, i), s.log) == 1
            && s.freed == (if leaf.Throws? && s.mode.Returned? then [leaf.exn.id] else [])
            && (leaf.Throws? && !leaf.exn.Ours() ==> s.mode == Escaped(leaf.exn) && s.freed == [])
  {
    hide Run, Emitted;
    TwoPhaseUnwinding(program, leaf, k);
    if leaf.Returns? {
      ReturnTraceOnce(|program|, i);
    } else {
      ThrowTraceOnce(program, |program|, leaf.exn, i);
    }
  }

  // ---------- The demonstration ----------

  const NATIVE_THROW := -1

  /** The generated throw function: a foreign exception for one argument, one of ours with the argument as its type for
      any other. */
  function ThrowFunction(kind: int, id: nat, foreign: Exn): Leaf {
    Throws(if kind == NATIVE_THROW then foreign else Exn(id, OUR_CLASS, kind))
  }

  /** The test that the demonstration builds: the inner function catches types 6, 2 and 4, the outer one 3, 1 and 5.
      Types 1 to 6 are caught, the odd ones outside and the even ones inside, and released; other types and foreign
      exceptions pass through to the harness. */
  lemma DemoStack(program: seq<Frame>, kind: int, id: nat, foreign: Exn, k: nat)
    requires |program| == 2 && program[0].catches == [3, 1, 5] && program[1].catches == [6, 2, 4]
    requires Emitted(program[0]) && Emitted(program[1]) && !foreign.Ours()
    requires Over(Run(program, ThrowFunction(kind, id, foreign), START, k))
    ensures var s := Run(program, ThrowFunction(kind, id, foreign), START, k);
            if 1 <= kind <= 6 then
              s.mode == Returned && s.handler == (if kind % 2 == 0 then 1 else 0) && s.freed == [id]
            else
              && s.mode == Escaped(if kind == -1 then foreign else Exn(id, OUR_CLASS, kind))
              && s.handler == -1 && s.freed == []
  {
    hide Run, Emitted;
    var leaf := ThrowFunction(kind, id, foreign);
    TwoPhaseUnwinding(program, leaf, k);
    assert Handles(program[1], leaf.exn) <==> kind == 6 || kind == 2 || kind == 4;
    assert Handles(program[0], leaf.exn) <==> kind == 3 || kind == 1 || kind == 5;
  }
}
