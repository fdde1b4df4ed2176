/** The compiled function against the meaning of its source text, over whole runs. */
module BrainfTheorems {
  import opened Bytes
  import opened BrainfLexer
  import opened BrainfSyntax
  import opened BrainfMeaning
  import opened BrainfIr
  import opened BrainfCodegen
  import opened BrainfSimulation
  import opened BrainfBounds

  /** Where the machine ends up when the source ends with `out`. */
  function Ending(out: Outcome): Config
    requires !out.Running?
  {
    match out
    case Finished(st) => Halted(Io(Freed(st.w.tape), st.w.input, st.w.output))
    case OffTape(st) => Halted(Io(Freed(st.w.tape), st.w.input, st.w.output + [ErrorLine]))
    case Trap(st) => Trapped(Io(Live(st.w.tape), st.w.input, st.w.output))
  }

  /** The allocation holds `mem` zeros, `head` points to its middle, and nothing has been read or written. */
  ghost predicate Blank(m: Machine, mem: nat, input: seq<byte>, head: Reg) {
    && m.io.heap.Live? && |m.io.heap.cells| == mem && (forall i | 0 <= i < mem :: m.io.heap.cells[i] == 0)
    && head in m.env && m.env[head] == mem / 2 && m.io.input == input && m.io.output == []
  }

  lemma {:induction false} HeaderRuns(mem: nat, checked: bool, fn: seq<Block>, junk: seq<byte>, input: seq<byte>)
    returns (k: nat, c: Config)
    requires |junk| == mem && Code(fn, ENTRY, 0, Header(mem, checked).fn[ENTRY])
    ensures Reached(fn, Boot(junk, input), k, c)
    ensures AtEndOf(c, Header(mem, checked), Initial(mem, input), checked)
    ensures c.Active? && Blank(c.m, mem, input, Header(mem, checked).head)
  {
    var start := Boot(junk, input);
    var code := Header(mem, checked).fn[ENTRY];
    k, c := 0, start;
    ReachedIsRun(fn, start, 0, start);
    k, c := Advance(fn, start, k, c, 0, code, 0, Malloc(ARR, mem));
    k, c := Advance(fn, start, k, c, 0, code, 1, Memset(ARR, mem));
    if checked {
      k, c := Advance(fn, start, k, c, 0, code, 2, Gep(ARRMAX, ARR, mem));
      k, c := Advance(fn, start, k, c, 0, code, 3, Gep(ARRMAX + 1, ARR, mem / 2));
    } else {
      k, c := Advance(fn, start, k, c, 0, code, 2, Gep(ARRMAX + 1, ARR, mem / 2));
    }
  }

  /** From a branch to the end block: the tape is released and the function returns. */
  lemma EndRuns(fn: seq<Block>, start: Config, k: nat, c: Config, at: nat, cells: seq<byte>)
    returns (k': nat, c': Config)
    requires Reached(fn, start, k, c) && c.Active? && c.m.pc == at && Code(fn, c.m.block, at, [Br(END)])
    requires Code(fn, END, 0, [Free(ARR), Ret])
    requires c.m.io.heap == Live(cells) && ARR in c.m.env && c.m.env[ARR] == 0
    ensures k' > k && Reached(fn, start, k', c') && c' == Halted(c.m.io.(heap := Freed(cells)))
  {
    k', c' := Advance(fn, start, k, c, at, [Br(END)], 0, Br(END));
    k', c' := Advance(fn, start, k', c', 0, [Free(ARR), Ret], 0, Free(ARR));
    k', c' := Advance(fn, start, k', c', 0, [Free(ARR), Ret], 1, Ret);
  }

  lemma ErrorRuns(fn: seq<Block>, start: Config, k: nat, c: Config, st: State) returns (k': nat, c': Config)
    requires Reached(fn, start, k, c) && Ended(OffTape(st), c, 0, k)
    requires Code(fn, ERROR, 0, [Puts, Br(END)]) && Code(fn, END, 0, [Free(ARR), Ret])
    ensures Reached(fn, start, k', c') && c' == Ending(OffTape(st))
  {
    k', c' := Advance(fn, start, k, c, 0, [Puts, Br(END)], 0, Puts);
    assert Code(fn, ERROR, 1, [Br(END)]) by {
      assert [Puts, Br(END)][1] == [Br(END)][0];
    }
    k', c' := EndRuns(fn, start, k', c', 1, st.w.tape);
  }

  /** The compiled function: its prologue and epilogues are in place around the generated code. */
  lemma CompiledCode(p: Prog, mem: nat, checked: bool)
    ensures var fn := Compile(p, mem, checked);
            var g := Generate(p, Header(mem, checked), checked);
            && Contains(fn, Header(mem, checked), g)
            && Code(fn, ENTRY, 0, Header(mem, checked).fn[ENTRY])
            && Code(fn, g.cur, |g.fn[g.cur]|, [Br(END)])
            && Code(fn, END, 0, [Free(ARR), Ret])
            && (checked ==> Code(fn, ERROR, 0, [Puts, Br(END)]))
  {
    var h := Header(mem, checked);
    var g := Generate(p, h, checked);
    var fn := Compile(p, mem, checked);
    assert fn[g.cur] == g.fn[g.cur] + [Br(END)];
    assert h.fn[ENTRY] <= g.fn[ENTRY] <= fn[ENTRY];
    assert fn[END] == g.fn[END] == h.fn[END];
    assert checked ==> fn[ERROR] == g.fn[ERROR] == h.fn[ERROR];
  }

  /** The source text, compiled with or without the check and started on `input`. */
  function Source(s: string, mem: nat, checked: bool, input: seq<byte>, fuel: nat): Outcome {
    RunText(s, Initial(mem, input), checked, fuel)
  }

  /** The compiled function after `k` steps, when the allocation is found to hold `junk`. */
  function Target(p: Prog, mem: nat, checked: bool, junk: seq<byte>, input: seq<byte>, k: nat): Config {
    Run(Compile(p, mem, checked), Boot(junk, input), k)
  }

  /** For every amount of fuel, the compiled function has taken at least as many steps when the source is still
      running, with the same tape, input and output, and ends as the source ends otherwise. */
  lemma CompiledRuns(s: string, p: Prog, mem: nat, checked: bool, junk: seq<byte>, input: seq<byte>, fuel: nat)
    returns (k: nat, c: Config)
    requires ParseText(s) == Accepted(p) && |junk| == mem
    ensures c == Target(p, mem, checked, junk, input, k)
    ensures var out := Source(s, mem, checked, input, fuel);
            if out.Running? then c.Active? && c.m.io == IoOf(out.st.w) && k >= fuel else c == Ending(out)
  {
    hide Reached, RunText, Exec, Generate, Code, Contains, Compile;
    var fn := Compile(p, mem, checked);
    var h := Header(mem, checked);
    var start := Boot(junk, input);
    var g := Generate(p, h, checked);
    CompiledCode(p, mem, checked);
    TextMeansProgram(s, p, Initial(mem, input), checked, fuel);
    k, c := HeaderRuns(mem, checked, fn, junk, input);
    var k1, c1 := Simulates(p, h, fn, Initial(mem, input), c, checked, fuel);
    ReachedAdd(fn, start, k, c, k1, c1);
    k, c := k + k1, c1;
    var out := Exec(p, Initial(mem, input), checked, fuel);
    match out {
      case Finished(st) => k, c := EndRuns(fn, start, k, c, |g.fn[g.cur]|, st.w.tape);
      case OffTape(st) =>
        UncheckedNeverOff(p, Initial(mem, input), checked, fuel);
        k, c := ErrorRuns(fn, start, k, c, st);
      case _ =>
    }
    ReachedIsRun(fn, start, k, c);
  }

  lemma {:induction false} UncheckedNeverOff(p: Prog, st: State, checked: bool, fuel: nat)
    ensures Exec(p, st, checked, fuel).OffTape? ==> checked
    decreases fuel, p, 0
  {
    match p
    case Done =>
    case Then(prim, rest) =>
      var out := Perform(prim, st, checked);
      if out.Finished? {
        UncheckedNeverOff(rest, out.st, checked, fuel);
      }
    case While(body, rest) =>
      LoopNeverOff(body, st, checked, fuel);
      var out := Iterate(body, st, checked, fuel);
      if out.Finished? {
        UncheckedNeverOff(rest, out.st, checked, fuel);
      }
  }

  lemma {:induction false} LoopNeverOff(body: Prog, st: State, checked: bool, fuel: nat)
    ensures Iterate(body, st, checked, fuel).OffTape? ==> checked
    decreases fuel, body, 1
  {
    if st.InTape() && st.Cell() != 0 && fuel != 0 {
      UncheckedNeverOff(body, st, checked, fuel - 1);
      var out := Exec(body, st, checked, fuel - 1);
      if out.Finished? {
        LoopNeverOff(body, out.st, checked, fuel - 1);
      }
    }
  }

  // ---------- The main results ----------

  /** Once the machine has stopped it stays where it is. */
  lemma TargetStays(p: Prog, mem: nat, checked: bool, junk: seq<byte>, input: seq<byte>, j: nat, k: nat)
    requires j <= k && !Target(p, mem, checked, junk, input, j).Active?
    ensures Target(p, mem, checked, junk, input, k) == Target(p, mem, checked, junk, input, j)
  {
    var fn, start := Compile(p, mem, checked), Boot(junk, input);
    RunAdd(fn, start, j, k - j);
    FinalStays(fn, Run(fn, start, j), k - j);
  }

  ghost predicate SourceEnds(s: string, mem: nat, checked: bool, input: seq<byte>, out: Outcome) {
    !out.Running? && exists fuel: nat :: Source(s, mem, checked, input, fuel) == out
  }

  ghost predicate TargetEnds(p: Prog, mem: nat, checked: bool, junk: seq<byte>, input: seq<byte>, c: Config) {
    !c.Active? && exists k: nat :: Target(p, mem, checked, junk, input, k) == c
  }

  /** The compiled function ends exactly as its source does: it halts, with the same tape (released), unread
      input and output, when the source finishes; it halts with the error line when the check fires; it makes an
      invalid access exactly when the source does. In particular it never reads an unwritten register. */
  lemma EndsAlike(s: string, p: Prog, mem: nat, checked: bool, junk: seq<byte>, input: seq<byte>, c: Config)
    requires ParseText(s) == Accepted(p) && |junk| == mem
    ensures TargetEnds(p, mem, checked, junk, input, c) <==>
            exists out | SourceEnds(s, mem, checked, input, out) :: c == Ending(out)
  {
    if exists out | SourceEnds(s, mem, checked, input, out) :: c == Ending(out) {
      var out :| SourceEnds(s, mem, checked, input, out) && c == Ending(out);
      var fuel: nat :| Source(s, mem, checked, input, fuel) == out;
      var k, c' := CompiledRuns(s, p, mem, checked, junk, input, fuel);
    }
    if TargetEnds(p, mem, checked, junk, input, c) {
      var j: nat :| Target(p, mem, checked, junk, input, j) == c;
      var out := StopsAs(s, p, mem, checked, junk, input, j);
      assert SourceEnds(s, mem, checked, input, out);
    }
  }

  /** If the machine has stopped within `j` steps, so has the source with fuel `j`, in the same way. */
  lemma StopsAs(s: string, p: Prog, mem: nat, checked: bool, junk: seq<byte>, input: seq<byte>, j: nat)
    returns (out: Outcome)
    requires ParseText(s) == Accepted(p) && |junk| == mem
    requires !Target(p, mem, checked, junk, input, j).Active?
    ensures out == Source(s, mem, checked, input, j) && !out.Running?
    ensures Target(p, mem, checked, junk, input, j) == Ending(out)
  {
    out := Source(s, mem, checked, input, j);
    var k, c := CompiledRuns(s, p, mem, checked, junk, input, j);
    if j <= k {
      TargetStays(p, mem, checked, junk, input, j, k);
    } else {
      TargetStays(p, mem, checked, junk, input, k, j);
    }
  }

  /** One diverges exactly when the other does. */
  lemma DivergesAlike(s: string, p: Prog, mem: nat, checked: bool, junk: seq<byte>, input: seq<byte>)
    requires ParseText(s) == Accepted(p) && |junk| == mem
    ensures (forall k: nat :: Target(p, mem, checked, junk, input, k).Active?) <==>
            (forall fuel: nat :: Source(s, mem, checked, input, fuel).Running?)
  {
    if fuel: nat :| !Source(s, mem, checked, input, fuel).Running? {
      var k, c := CompiledRuns(s, p, mem, checked, junk, input, fuel);
      assert !Target(p, mem, checked, junk, input, k).Active?;
    }
    if k: nat :| !Target(p, mem, checked, junk, input, k).Active? {
      var out := StopsAs(s, p, mem, checked, junk, input, k);
      assert !Source(s, mem, checked, input, k).Running?;
    }
  }

  function Written(out: Outcome): seq<Event> {
    if out.OffTape? then out.st.w.output + [ErrorLine] else out.st.w.output
  }

  /** Whether or not they end, they write the same: what the source has written with some fuel is what the
      machine has written at some step, and what the machine has written after `j` steps is the beginning of what
      the source writes with fuel `j`. */
  lemma WritesAlike(s: string, p: Prog, mem: nat, checked: bool, junk: seq<byte>, input: seq<byte>, j: nat)
    requires ParseText(s) == Accepted(p) && |junk| == mem
    ensures exists k: nat ::
              Output(Target(p, mem, checked, junk, input, k)) == Written(Source(s, mem, checked, input, j))
    ensures Output(Target(p, mem, checked, junk, input, j)) <= Written(Source(s, mem, checked, input, j))
  {
    var fn, start := Compile(p, mem, checked), Boot(junk, input);
    var k, c := CompiledRuns(s, p, mem, checked, junk, input, j);
    assert Output(Target(p, mem, checked, junk, input, k)) == Written(Source(s, mem, checked, input, j));
    if j <= k {
      RunAdd(fn, start, j, k - j);
      OutputGrows(fn, Run(fn, start, j), k - j);
    } else {
      TargetStays(p, mem, checked, junk, input, k, j);
    }
  }

  /** With the check, and a tape of at least one cell, no run makes an access outside the allocation, uses it
      before it is made or after it is released, or gets stuck. */
  lemma CheckedNeverTraps(s: string, p: Prog, mem: nat, junk: seq<byte>, input: seq<byte>, k: nat)
    requires ParseText(s) == Accepted(p) && |junk| == mem && mem >= 1
    ensures Target(p, mem, true, junk, input, k).Active? || Target(p, mem, true, junk, input, k).Halted?
  {
    if !Target(p, mem, true, junk, input, k).Active? {
      var out := StopsAs(s, p, mem, true, junk, input, k);
      CheckedTextIsSafe(s, Initial(mem, input), k);
    }
  }

  /** An empty tape defeats the check: it comes after moves only, so the first access is unguarded. */
  lemma EmptyTapeTraps(input: seq<byte>) returns (k: nat)
    ensures ParseText(".") == Accepted(Then(Write, Done))
    ensures Target(Then(Write, Done), 0, true, [], input, k).Trapped?
  {
    assert "."[1..] == "" && Lex(".") == [Op(Write)] && [Op(Write)][1..] == [];
    assert ParseBody([Op(Write)]) == ParseBody([]).After(Write);
    var c;
    k, c := CompiledRuns(".", Then(Write, Done), 0, true, [], input, 0);
  }

  ghost predicate AllSafe(mem: nat) {
    forall s, p, junk, input, k: nat | ParseText(s) == Accepted(p) && |junk| == mem ::
      !Target(p, mem, true, junk, input, k).Trapped?
  }

  /** So the check makes all programs safe exactly for the tapes with at least one cell. */
  lemma CheckProtectsExactly(mem: nat)
    ensures AllSafe(mem) <==> mem >= 1
  {
    if mem >= 1 {
      forall s, p, junk, input, k: nat | ParseText(s) == Accepted(p) && |junk| == mem
        ensures !Target(p, mem, true, junk, input, k).Trapped?
      {
        CheckedNeverTraps(s, p, mem, junk, input, k);
      }
    } else {
      var k := EmptyTapeTraps([]);
      assert ParseText(".") == Accepted(Then(Write, Done));
    }
  }

  ghost predicate TargetReports(p: Prog, mem: nat, junk: seq<byte>, input: seq<byte>) {
    exists k: nat :: ErrorLine in Output(Target(p, mem, true, junk, input, k))
  }

  /** Without the check, the source at some time leaves the head off the tape after an executed maximal run of
      moves. */
  ghost predicate SourceLeavesTape(s: string, mem: nat, input: seq<byte>) {
    exists fuel: nat :: FirstOff(Rests(s, Initial(mem, input), fuel), mem) < |Rests(s, Initial(mem, input), fuel)|
  }

  /** The error is exact: the checked function reports it in exactly the runs in which the head is off the tape
      at the end of an executed maximal run of moves. */
  lemma ErrorIsExact(s: string, p: Prog, mem: nat, junk: seq<byte>, input: seq<byte>)
    requires ParseText(s) == Accepted(p) && |junk| == mem
    ensures TargetReports(p, mem, junk, input) <==> SourceLeavesTape(s, mem, input)
  {
    var st := Initial(mem, input);
    if TargetReports(p, mem, junk, input) {
      var k: nat :| ErrorLine in Output(Target(p, mem, true, junk, input, k));
      WritesAlike(s, p, mem, true, junk, input, k);
      TextExtends(s, st, true, k);
      var written, out := Output(Target(p, mem, true, junk, input, k)), Source(s, mem, true, input, k);
      var i :| 0 <= i < |written| && written[i] == ErrorLine;
      assert Written(out)[i] == ErrorLine;
      assert out.OffTape? || ErrorLine in out.st.w.output;
      CheckIsExact(s, st, k);
    }
    if SourceLeavesTape(s, mem, input) {
      var fuel: nat :| FirstOff(Rests(s, st, fuel), mem) < |Rests(s, st, fuel)|;
      CheckIsExact(s, st, fuel);
      var k, c := CompiledRuns(s, p, mem, true, junk, input, fuel);
      assert ErrorLine in Output(Target(p, mem, true, junk, input, k));
    }
  }

  lemma SameSource(s: string, mem: nat, a: bool, b: bool, input: seq<byte>, fuel: nat)
    requires !SourceLeavesTape(s, mem, input)
    ensures Source(s, mem, a, input, fuel) == Source(s, mem, b, input, fuel)
  {
    CheckIsExact(s, Initial(mem, input), fuel);
  }

  /** On all other runs the check changes nothing: the two compiled functions end alike, from whatever the allocation
      held before. */
  lemma CheckChangesNothingElse(s: string, p: Prog, mem: nat, junk: seq<byte>, input: seq<byte>, c: Config)
    requires ParseText(s) == Accepted(p) && |junk| == mem && !SourceLeavesTape(s, mem, input)
    ensures TargetEnds(p, mem, true, junk, input, c) <==> TargetEnds(p, mem, false, junk, input, c)
  {
    EndsAlike(s, p, mem, true, junk, input, c);
    EndsAlike(s, p, mem, false, junk, input, c);
    forall out ensures SourceEnds(s, mem, true, input, out) <==> SourceEnds(s, mem, false, input, out) {
      if fuel: nat :| Source(s, mem, true, input, fuel) == out {
        SameSource(s, mem, true, false, input, fuel);
      }
      if fuel: nat :| Source(s, mem, false, input, fuel) == out {
        SameSource(s, mem, true, false, input, fuel);
      }
    }
  }

  /** Nor does it change what is written, or whether the run ends: what has been written at some step with the check or
      without has been written at some step of either. */
  lemma CheckChangesNoOutput(s: string, p: Prog, mem: nat, junk: seq<byte>, input: seq<byte>, a: bool, b: bool, j: nat)
    requires ParseText(s) == Accepted(p) && |junk| == mem && !SourceLeavesTape(s, mem, input)
    ensures exists k: nat :: Output(Target(p, mem, a, junk, input, j)) <= Output(Target(p, mem, b, junk, input, k))
    ensures (forall k: nat :: Target(p, mem, a, junk, input, k).Active?) <==>
            (forall k: nat :: Target(p, mem, b, junk, input, k).Active?)
  {
    WritesAlike(s, p, mem, a, junk, input, j);
    WritesAlike(s, p, mem, b, junk, input, j);
    SameSource(s, mem, a, b, input, j);
    var k: nat :| Output(Target(p, mem, b, junk, input, k)) == Written(Source(s, mem, b, input, j));
    assert Output(Target(p, mem, a, junk, input, j)) <= Output(Target(p, mem, b, junk, input, k));
    DivergesAlike(s, p, mem, a, junk, input);
    DivergesAlike(s, p, mem, b, junk, input);
    forall fuel: nat ensures Source(s, mem, a, input, fuel).Running? <==> Source(s, mem, b, input, fuel).Running? {
      SameSource(s, mem, a, b, input, fuel);
    }
  }

  /** The state in which the head is first off the tape after an executed maximal run of moves. */
  ghost predicate LeavesTapeIn(s: string, mem: nat, input: seq<byte>, fuel: nat, st: State) {
    var rests := Rests(s, Initial(mem, input), fuel);
    FirstOff(rests, mem) < |rests| && st == rests[FirstOff(rests, mem)]
  }

  /** On a run that leaves the tape the checked function ends in one way: with the tape, unread input and output that
      the source has, unchecked, where it leaves the tape, and the error line. The unchecked function has written as
      much at some step. */
  lemma CheckStopsThere(s: string, p: Prog, mem: nat, junk: seq<byte>, input: seq<byte>, fuel: nat, st: State,
                        c: Config)
    requires ParseText(s) == Accepted(p) && |junk| == mem && LeavesTapeIn(s, mem, input, fuel, st)
    ensures TargetEnds(p, mem, true, junk, input, c) <==> c == Ending(OffTape(st))
    ensures exists k: nat :: st.w.output <= Output(Target(p, mem, false, junk, input, k))
  {
    CheckIsExact(s, Initial(mem, input), fuel);
    assert Source(s, mem, true, input, fuel) == OffTape(st);
    var k, end := CompiledRuns(s, p, mem, true, junk, input, fuel);
    if TargetEnds(p, mem, true, junk, input, c) {
      var j: nat :| Target(p, mem, true, junk, input, j) == c;
      if j <= k {
        TargetStays(p, mem, true, junk, input, j, k);
      } else {
        TargetStays(p, mem, true, junk, input, k, j);
      }
    }
    UncheckedNeverOffText(s, p, mem, input, fuel);
    WritesAlike(s, p, mem, false, junk, input, fuel);
  }

  lemma UncheckedNeverOffText(s: string, p: Prog, mem: nat, input: seq<byte>, fuel: nat)
    requires ParseText(s) == Accepted(p)
    ensures !Source(s, mem, false, input, fuel).OffTape?
  {
    TextMeansProgram(s, p, Initial(mem, input), false, fuel);
    UncheckedNeverOff(p, Initial(mem, input), false, fuel);
  }

  // ---------- Which texts the check protects ----------

  ghost predicate TextSafe(p: Prog, mem: nat) {
    forall junk, input, k: nat | |junk| == mem :: !Target(p, mem, true, junk, input, k).Trapped?
  }

  /** No access comes before the first run of moves. */
  predicate MovesFirst(s: string) {
    Commands(s) == [] || IsMove(Commands(s)[0])
  }

  /** For each text: the check makes it safe exactly if the tape has a cell or no command comes before the first run of
      moves. */
  lemma CheckProtectsText(s: string, p: Prog, mem: nat)
    requires ParseText(s) == Accepted(p)
    ensures TextSafe(p, mem) <==> mem >= 1 || MovesFirst(s)
  {
    if mem >= 1 || MovesFirst(s) {
      forall junk, input, k: nat | |junk| == mem ensures !Target(p, mem, true, junk, input, k).Trapped? {
        if !Target(p, mem, true, junk, input, k).Active? {
          var out := StopsAs(s, p, mem, true, junk, input, k);
          SafeStart(s, Initial(mem, input), k);
        }
      }
    } else {
      UnguardedTraps(s, p, Initial(mem, []));
      var k, c := CompiledRuns(s, p, mem, true, [], [], 0);
      assert Target(p, mem, true, [], [], k).Trapped?;
    }
  }

  lemma {:induction false} SafeStart(s: string, st: State, fuel: nat)
    requires st.InTape() || MovesFirst(s)
    ensures !RunText(s, st, true, fuel).Trap?
  {
    if s != [] && !IsCommand(s[0]) {
      SafeStart(s[1..], st, fuel);
    } else if s != [] {
      CheckedTextIsSafe(s, st, fuel);
    }
  }

  /** A command other than a move that comes first accesses the tape. */
  lemma {:induction false} UnguardedTraps(s: string, p: Prog, st: State)
    requires ParseText(s) == Accepted(p) && !MovesFirst(s) && !st.InTape()
    ensures RunText(s, st, true, 0).Trap?
  {
    if !IsCommand(s[0]) {
      UnguardedTraps(s[1..], p, st);
    } else if s[0] == '[' {
      LoopParts(s, p);
    } else if s[0] == ']' {
      ClosesFirst(s);
      assert false;
    }
  }

  lemma ClosesFirst(s: string)
    requires s != [] && s[0] == ']'
    ensures ParseText(s).ExtraClose?
  {
    assert Lex(s) == [Close] + Lex(s[1..]);
  }
}
