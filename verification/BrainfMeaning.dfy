/** What a BrainF program means: an interpreter that works on the source characters, following the table
    of C equivalents, and an interpreter on parsed programs that is proved to agree with it. */
module BrainfMeaning {
  import opened Bytes
  import opened BrainfLexer
  import opened BrainfSyntax

  datatype Event =
    | Put(b: byte)
    | ErrorLine

  datatype World = World(tape: seq<byte>, input: seq<byte>, output: seq<Event>)

  datatype State = State(head: int, w: World) {
    predicate InTape() {
      0 <= head < |w.tape|
    }

    function Cell(): byte
      requires InTape()
    {
      w.tape[head]
    }

    function Store(v: byte): State
      requires InTape()
    {
      this.(w := w.(tape := w.tape[head := v]))
    }
  }

  /** How a run ends, or where it stands when its fuel is used up. `Trap` is an access outside the tape,
      `OffTape` the error a bounds check reports. */
  datatype Outcome =
    | Finished(st: State)
    | Trap(st: State)
    | OffTape(st: State)
    | Running(st: State)

  function Zeros(n: nat): seq<byte> {
    seq(n, _ => 0)
  }

  /** A tape of zeros with the head in the middle. */
  function Initial(mem: nat, input: seq<byte>): State {
    State(mem / 2, World(Zeros(mem), input, []))
  }

  lemma InitialIsBlank(mem: nat, input: seq<byte>)
    ensures var st := Initial(mem, input);
            && |st.w.tape| == mem && (forall i | 0 <= i < mem :: st.w.tape[i] == 0)
            && st.head == mem / 2 && st.w.input == input && st.w.output == []
  {
  }

  // ---------- Character level ----------

  /** The next command character is not a head move: the run of `<` and `>` ends here. */
  predicate RunEnds(s: string) {
    s == [] || (if IsCommand(s[0]) then !IsMove(s[0]) else RunEnds(s[1..]))
  }

  /** Where the `]` stands that closes `depth` loops opened in `s` and one opened before it. */
  function CloseAt(s: string, depth: nat): (i: nat)
    ensures i <= |s|
  {
    if s == [] then 0
    else if s[0] == ']' && depth == 0 then 0
    else 1 + CloseAt(s[1..], if s[0] == ']' then depth - 1 else if s[0] == '[' then depth + 1 else depth)
  }

  /** `*h = getchar()`: the character is consumed before the cell is written. */
  function Input(st: State): Outcome {
    var v := if st.w.input == [] then 255 else st.w.input[0];
    var st1 := st.(w := st.w.(input := if st.w.input == [] then [] else st.w.input[1..]));
    if st1.InTape() then Finished(st1.Store(v)) else Trap(st1)
  }

  /** One command character other than a bracket, as the table gives it. */
  function Act(c: char, st: State): Outcome
    requires IsCommand(c) && !IsBracket(c)
  {
    if c == '<' then Finished(st.(head := st.head - 1))
    else if c == '>' then Finished(st.(head := st.head + 1))
    else if c == ',' then Input(st)
    else if !st.InTape() then Trap(st)
    else if c == '.' then Finished(st.(w := st.w.(output := st.w.output + [Put(st.Cell())])))
    else if c == '-' then Finished(st.Store(if st.Cell() == 0 then 255 else st.Cell() - 1))
    else Finished(st.Store(if st.Cell() == 255 then 0 else st.Cell() + 1))
  }

  /** Runs the text `s`. With `checked`, the head is compared with the tape at the end of each run of moves.
      `fuel` bounds how often loop bodies are entered, one inside or after the other. */
  function RunText(s: string, st: State, checked: bool, fuel: nat): Outcome
    decreases fuel, |s|, 0
  {
    if s == [] then Finished(st)
    else if s[0] == '[' then
      var close := 1 + CloseAt(s[1..], 0);
      if close == |s| then Finished(st) else
      (match RunLoop(s[1..close], st, checked, fuel)
       case Finished(st1) => RunText(s[close + 1..], st1, checked, fuel)
       case other => other)
    else if s[0] == ']' || !IsCommand(s[0]) then RunText(s[1..], st, checked, fuel)
    else match Act(s[0], st)
      case Finished(st1) =>
        if checked && IsMove(s[0]) && RunEnds(s[1..]) && !st1.InTape() then OffTape(st1)
        else RunText(s[1..], st1, checked, fuel)
      case other => other
  }

  /** `while (*h) { body }` */
  function RunLoop(body: string, st: State, checked: bool, fuel: nat): Outcome
    decreases fuel, |body|, 1
  {
    if !st.InTape() then Trap(st)
    else if st.Cell() == 0 then Finished(st)
    else if fuel == 0 then Running(st)
    else match RunText(body, st, checked, fuel - 1)
      case Finished(st1) => RunLoop(body, st1, checked, fuel - 1)
      case other => other
  }

  /** The table: what each character other than a bracket does, and that any other character does nothing. */
  lemma CommandTable(c: char, s: string, st: State, fuel: nat)
    requires c != '[' && c != ']'
    ensures var w := st.w;
            var accesses := c == ',' || c == '.' || c == '+' || c == '-';
            var read := if w.input == [] then w else w.(input := w.input[1..]);
            RunText([c] + s, st, false, fuel)
            == if accesses && !(0 <= st.head < |w.tape|) then Trap(st.(w := if c == ',' then read else w))
               else
                 RunText(s, match c
                            case ',' =>
                              var c := if w.input == [] then 255 else w.input[0];
                              st.(w := read.(tape := w.tape[st.head := c]))
                            case '.' => st.(w := w.(output := w.output + [Put(w.tape[st.head])]))
                            case '+' => st.(w := w.(tape := w.tape[st.head := (w.tape[st.head] as int + 1) % 256]))
                            case '-' => st.(w := w.(tape := w.tape[st.head := (w.tape[st.head] as int + 255) % 256]))
                            case '>' => st.(head := st.head + 1)
                            case '<' => st.(head := st.head - 1)
                            case _ => st,
                         false, fuel)
  {
    assert ([c] + s)[1..] == s;
  }

  // ---------- Program level ----------

  function Wrap(n: int): byte {
    n % 256
  }

  function Perform(prim: Prim, st: State, checked: bool): Outcome {
    match prim
    case Move(n) =>
      var st1 := st.(head := st.head + n);
      if checked && !st1.InTape() then OffTape(st1) else Finished(st1)
    case Read => Input(st)
    case Write =>
      if !st.InTape() then Trap(st)
      else Finished(st.(w := st.w.(output := st.w.output + [Put(st.Cell())])))
    case Change(n) =>
      if !st.InTape() then Trap(st) else Finished(st.Store(Wrap(st.Cell() + n)))
  }

  function Exec(p: Prog, st: State, checked: bool, fuel: nat): Outcome
    decreases fuel, p, 0
  {
    match p
    case Done => Finished(st)
    case Then(prim, rest) =>
      (match Perform(prim, st, checked)
       case Finished(st1) => Exec(rest, st1, checked, fuel)
       case other => other)
    case While(body, rest) =>
      match Iterate(body, st, checked, fuel)
      case Finished(st1) => Exec(rest, st1, checked, fuel)
      case other => other
  }

  function Iterate(body: Prog, st: State, checked: bool, fuel: nat): Outcome
    decreases fuel, body, 1
  {
    if !st.InTape() then Trap(st)
    else if st.Cell() == 0 then Finished(st)
    else if fuel == 0 then Running(st)
    else match Exec(body, st, checked, fuel - 1)
      case Finished(st1) => Iterate(body, st1, checked, fuel - 1)
      case other => other
  }

  // ---------- The two agree ----------

  lemma {:induction false} LexBeforeBracket(a: string, b: string)
    requires b != [] && IsBracket(b[0])
    ensures Lex(a + b) == Lex(a) + Lex(b)
  {
    hide Push;
    BracketFirst(b);
    if a == [] {
      assert a + b == b;
    } else {
      LexBeforeBracket(a[1..], b);
      assert (a + b)[0] == a[0] && (a + b)[1..] == a[1..] + b;
      if IsCommand(a[0]) {
        PushBeforeBracket(TokenOf(a[0]), Lex(a[1..]), Lex(b));
      }
    }
  }

  lemma BracketFirst(b: string)
    requires b != [] && IsBracket(b[0])
    ensures Lex(b) != [] && !Lex(b)[0].Op?
  {
  }

  lemma PushBeforeBracket(t: Token, ts: seq<Token>, us: seq<Token>)
    requires us != [] && !us[0].Op?
    ensures Push(t, ts + us) == Push(t, ts) + us
  {
    if ts == [] {
      assert ts + us == us;
    } else {
      hide Push;
      PushHead(t, ts[0], ts[1..] + us);
      PushHead(t, ts[0], ts[1..]);
      assert ts + us == [ts[0]] + (ts[1..] + us) && ts == [ts[0]] + ts[1..];
      assert Push(t, [ts[0]]) + (ts[1..] + us) == Push(t, [ts[0]]) + ts[1..] + us;
    }
  }

  lemma PushHead(t: Token, u: Token, rest: seq<Token>)
    ensures Push(t, [u] + rest) == Push(t, [u]) + rest
  {
    assert ([u] + rest)[0] == u && ([u] + rest)[1..] == rest;
    if !SameRun(t, [u]) {
      assert [t] + ([u] + rest) == [t] + [u] + rest;
    }
  }

  lemma {:induction false} RunEndsIsLexed(s: string)
    ensures RunEnds(s) <==> !StartsMove(Lex(s))
  {
    if s != [] {
      RunEndsIsLexed(s[1..]);
    }
  }

  lemma {:induction false} CloseAtBalances(s: string, depth: nat)
    requires Count(Lex(s), depth).ExtraClose?
    ensures var i := CloseAt(s, depth); i < |s| && s[i] == ']' && Count(Lex(s[..i]), depth).Accepted?
  {
    if s[0] != ']' || depth != 0 {
      var depth' := if s[0] == ']' then depth - 1 else if s[0] == '[' then depth + 1 else depth;
      CloseAtBalances(s[1..], depth');
      var i := CloseAt(s, depth);
      assert s[..i][1..] == s[1..][..i - 1] && s[..i][0] == s[0];
    }
  }

  lemma LexAtClose(s: string, i: nat)
    requires i < |s| && s[i] == ']'
    ensures Lex(s) == Lex(s[..i]) + ([Close] + Lex(s[i + 1..]))
  {
    assert s == s[..i] + s[i..] && s[i..][1..] == s[i + 1..];
    LexBeforeBracket(s[..i], s[i..]);
  }

  lemma ParseBeforeClose(ts: seq<Token>, after: seq<Token>)
    requires Count(ts, 0).Accepted?
    ensures ParseBody(ts).AtEnd?
    ensures ParseBody(ts + ([Close] + after)) == AtClose(ParseBody(ts).p, after)
  {
    ParseCounts(ts, 0);
    UnparseParse(ts);
    ParseUnparse(ParseBody(ts).p, [Close] + after);
    assert ([Close] + after)[1..] == after;
  }

  /** Cutting the text at the matching bracket gives the parser's loop body and its remaining symbols. */
  lemma CloseAtParses(s: string, ts: seq<Token>, i: nat, body: Prog, rest: seq<Token>)
    requires ts == Lex(s) && i == CloseAt(s, 0)
    requires ParseBody(ts) == AtClose(body, rest)
    ensures i < |s| && ParseBody(Lex(s[..i])) == AtEnd(body) && Lex(s[i + 1..]) == rest
  {
    assert i < |s| && s[i] == ']' && Count(Lex(s[..i]), 0).Accepted? by {
      ParseCounts(ts, 0);
      CloseAtBalances(s, 0);
    }
    var inside, after := Lex(s[..i]), Lex(s[i + 1..]);
    assert ts == inside + ([Close] + after) by {
      LexAtClose(s, i);
    }
    ParseBeforeClose(inside, after);
  }

  /** The program with one more primitive in front, adding counts when both belong to one run. */
  function Prepend(prim: Prim, p: Prog): Prog {
    if prim.Change? && p.Then? && p.prim.Change? then Then(Change(prim.n + p.prim.n), p.rest)
    else if prim.Move? && p.Then? && p.prim.Move? then Then(Move(prim.n + p.prim.n), p.rest)
    else Then(prim, p)
  }

  lemma ParsePush(prim: Prim, ts: seq<Token>)
    requires ParseBody(Push(Op(prim), ts)).AtEnd?
    ensures ParseBody(ts).AtEnd?
    ensures ParseBody(Push(Op(prim), ts)) == AtEnd(Prepend(prim, ParseBody(ts).p))
  {
    hide ParseBody;
    var pushed := Push(Op(prim), ts);
    if SameRun(Op(prim), ts) {
      ParseOp(pushed[0].prim, ts[1..]);
      ParseOp(ts[0].prim, ts[1..]);
      assert ts == [ts[0]] + ts[1..];
    } else {
      ParseOp(prim, ts);
      HeadOfParse(ts);
    }
  }

  lemma HeadOfParse(ts: seq<Token>)
    requires ParseBody(ts).AtEnd?
    ensures ParseBody(ts).p.Then? ==> ts != [] && ts[0] == Op(ParseBody(ts).p.prim)
  {
  }

  /** Doing the two halves of a merged run one after the other makes no difference. */
  lemma SplitRun(prim: Prim, p: Prog, st: State, checked: bool, fuel: nat)
    ensures prim.Change? ==> Exec(Prepend(prim, p), st, checked, fuel) ==
                             if !st.InTape() then Trap(st)
                             else Exec(p, st.Store(Wrap(st.Cell() + prim.n)), checked, fuel)
    ensures prim.Move? && p.Then? && p.prim.Move? ==>
              Exec(Prepend(prim, p), st, checked, fuel) == Exec(p, st.(head := st.head + prim.n), checked, fuel)
  {
    if p.Then? && p.prim.Change? && prim.Change? && st.InTape() {
      var first := st.Store(Wrap(st.Cell() + prim.n));
      assert first.Cell() == Wrap(st.Cell() + prim.n);
      assert Wrap(first.Cell() + p.prim.n) == Wrap(st.Cell() + (prim.n + p.prim.n));
      assert first.Store(Wrap(first.Cell() + p.prim.n)).w.tape == st.Store(Wrap(first.Cell() + p.prim.n)).w.tape;
    }
  }

  lemma ActThenExec(c: char, p: Prog, st: State, checked: bool, fuel: nat)
    requires IsCommand(c) && !IsBracket(c)
    ensures Exec(Prepend(TokenOf(c).prim, p), st, checked, fuel) ==
            var o := Act(c, st);
            if !o.Finished? then o
            else if checked && IsMove(c) && !(p.Then? && p.prim.Move?) && !o.st.InTape() then OffTape(o.st)
            else Exec(p, o.st, checked, fuel)
  {
    var prim := TokenOf(c).prim;
    SplitRun(prim, p, st, checked, fuel);
    if !prim.Change? && !(prim.Move? && p.Then? && p.prim.Move?) {
      assert Prepend(prim, p) == Then(prim, p);
      assert Perform(prim, st, false) == Act(c, st);
    }
  }

  lemma LoopParts(s: string, p: Prog)
    requires s != [] && s[0] == '[' && ParseBody(Lex(s)) == AtEnd(p)
    ensures var i := CloseAt(s[1..], 0);
            && p.While? && i < |s[1..]|
            && s[1..][..i] == s[1..i + 1] && s[1..][i + 1..] == s[i + 2..]
            && ParseBody(Lex(s[1..i + 1])) == AtEnd(p.body) && ParseBody(Lex(s[i + 2..])) == AtEnd(p.rest)
  {
    assert Lex(s)[1..] == Lex(s[1..]);
    var ts, i := Lex(s[1..]), CloseAt(s[1..], 0);
    CloseAtParses(s[1..], ts, i, p.body, ParseBody(ts).rest);
  }

  /** The character-level interpreter and the interpreter on parsed programs give the same outcome. */
  lemma {:induction false} TextMeansProgram(s: string, p: Prog, st: State, checked: bool, fuel: nat)
    requires ParseBody(Lex(s)) == AtEnd(p)
    ensures RunText(s, st, checked, fuel) == Exec(p, st, checked, fuel)
    decreases fuel, |s|, 0
  {
    if s == [] {
    } else if s[0] == '[' {
      LoopParts(s, p);
      var i := CloseAt(s[1..], 0);
      LoopMeansWhile(s[1..i + 1], p.body, st, checked, fuel);
      match Iterate(p.body, st, checked, fuel)
      case Finished(st1) => TextMeansProgram(s[i + 2..], p.rest, st1, checked, fuel);
      case _ =>
    } else if !IsCommand(s[0]) {
      TextMeansProgram(s[1..], p, st, checked, fuel);
    } else {
      ParsePush(TokenOf(s[0]).prim, Lex(s[1..]));
      var q := ParseBody(Lex(s[1..])).p;
      ActThenExec(s[0], q, st, checked, fuel);
      RunEndsIsLexed(s[1..]);
      match Act(s[0], st)
      case Finished(st1) => TextMeansProgram(s[1..], q, st1, checked, fuel);
      case _ =>
    }
  }

  lemma {:induction false} LoopMeansWhile(s: string, p: Prog, st: State, checked: bool, fuel: nat)
    requires ParseBody(Lex(s)) == AtEnd(p)
    ensures RunLoop(s, st, checked, fuel) == Iterate(p, st, checked, fuel)
    decreases fuel, |s|, 1
  {
    if st.InTape() && st.Cell() != 0 && fuel != 0 {
      TextMeansProgram(s, p, st, checked, fuel - 1);
      match Exec(p, st, checked, fuel - 1)
      case Finished(st1) => LoopMeansWhile(s, p, st1, checked, fuel - 1);
      case _ =>
    }
  }
}
