/** The symbols of the BrainF language, and the lexer as a specification: a right fold over the
    source text that merges each maximal run of `+-` or `<>` into one symbol with its net count. */
module BrainfLexer {

  datatype Prim =
    | Read
    | Write
    | Move(n: int)
    | Change(n: int)

  datatype Token =
    | Op(prim: Prim)
    | Open
    | Close

  predicate IsBracket(c: char) {
    c == '[' || c == ']'
  }

  predicate IsMove(c: char) {
    c == '<' || c == '>'
  }

  predicate IsChange(c: char) {
    c == '+' || c == '-'
  }

  predicate IsCommand(c: char) {
    c == ',' || c == '.' || IsChange(c) || IsMove(c) || IsBracket(c)
  }

  function TokenOf(c: char): Token
    requires IsCommand(c)
  {
    match c
    case ',' => Op(Read)
    case '.' => Op(Write)
    case '-' => Op(Change(-1))
    case '+' => Op(Change(1))
    case '<' => Op(Move(-1))
    case '>' => Op(Move(1))
    case '[' => Open
    case _ => Close
  }

  predicate StartsChange(ts: seq<Token>) {
    ts != [] && ts[0].Op? && ts[0].prim.Change?
  }

  predicate StartsMove(ts: seq<Token>) {
    ts != [] && ts[0].Op? && ts[0].prim.Move?
  }

  /** `t` belongs to the same run as the symbol that heads `ts`. */
  predicate SameRun(t: Token, ts: seq<Token>) {
    (StartsChange([t]) && StartsChange(ts)) || (StartsMove([t]) && StartsMove(ts))
  }

  /** Puts one symbol in front of a symbol list, adding counts when both belong to the same run. */
  function Push(t: Token, ts: seq<Token>): seq<Token> {
    if SameRun(t, ts) then
      [Op(if t.prim.Change? then Change(t.prim.n + ts[0].prim.n) else Move(t.prim.n + ts[0].prim.n))] + ts[1..]
    else
      [t] + ts
  }

  function Lex(s: string): seq<Token> {
    if s == [] then []
    else if IsCommand(s[0]) then Push(TokenOf(s[0]), Lex(s[1..]))
    else Lex(s[1..])
  }

  // ---------- An independent reading of the symbol list ----------

  /** The source text without its comments. */
  function Commands(s: string): string {
    if s == [] then []
    else if IsCommand(s[0]) then [s[0]] + Commands(s[1..])
    else Commands(s[1..])
  }

  /** How often `up` occurs in `s`, minus how often `down` does. */
  function Net(s: string, up: char, down: char): int {
    if s == [] then 0
    else (if s[0] == up then 1 else if s[0] == down then -1 else 0) + Net(s[1..], up, down)
  }

  /** `t` is the symbol for exactly the command characters in `segment`. */
  ghost predicate StandsFor(t: Token, segment: string) {
    match t
    case Open => segment == "["
    case Close => segment == "]"
    case Op(Read) => segment == ","
    case Op(Write) => segment == "."
    case Op(Change(n)) => segment != [] && (forall c | c in segment :: IsChange(c)) && n == Net(segment, '+', '-')
    case Op(Move(n)) => segment != [] && (forall c | c in segment :: IsMove(c)) && n == Net(segment, '>', '<')
  }

  /** `segments` cuts `commands` into consecutive pieces, one per symbol, and no run is split over two
      neighbouring symbols. */
  ghost predicate Groups(ts: seq<Token>, segments: seq<string>, commands: string) {
    if ts == [] || segments == [] then ts == [] && segments == [] && commands == []
    else
      && StandsFor(ts[0], segments[0])
      && !SameRun(ts[0], ts[1..])
      && segments[0] <= commands
      && Groups(ts[1..], segments[1..], commands[|segments[0]|..])
  }

  /** The eight characters that are commands, and the symbol each is by itself. */
  lemma CommandSymbols(c: char)
    ensures Lex([c]) == (match c
                         case ',' => [Op(Read)]
                         case '.' => [Op(Write)]
                         case '+' => [Op(Change(1))]
                         case '-' => [Op(Change(-1))]
                         case '>' => [Op(Move(1))]
                         case '<' => [Op(Move(-1))]
                         case '[' => [Open]
                         case ']' => [Close]
                         case _ => [])
  {
    assert [c][1..] == [];
  }

  lemma {:induction false} LexIgnoresComments(s: string)
    ensures Lex(s) == Lex(Commands(s))
  {
    if s != [] {
      LexIgnoresComments(s[1..]);
      if IsCommand(s[0]) {
        assert Commands(s)[1..] == Commands(s[1..]);
      }
    }
  }

  lemma {:induction false} LexGroups(s: string) returns (segments: seq<string>)
    ensures Groups(Lex(s), segments, Commands(s))
  {
    if s == [] {
      segments := [];
    } else {
      var rest := LexGroups(s[1..]);
      if !IsCommand(s[0]) {
        segments := rest;
      } else {
        segments := GroupsPush(s[0], Lex(s[1..]), rest, Commands(s[1..]));
      }
    }
  }

  lemma GroupsPush(c: char, ts: seq<Token>, segments: seq<string>, commands: string) returns (segments': seq<string>)
    requires IsCommand(c) && Groups(ts, segments, commands)
    ensures Groups(Push(TokenOf(c), ts), segments', [c] + commands)
  {
    var t := TokenOf(c);
    assert [c][1..] == [];
    if SameRun(t, ts) {
      segments' := [[c] + segments[0]] + segments[1..];
      assert segments'[0][1..] == segments[0];
      assert StandsFor(Push(t, ts)[0], segments'[0]);
      assert segments'[1..] == segments[1..] && Push(t, ts)[1..] == ts[1..];
      assert ([c] + commands)[|segments'[0]|..] == commands[|segments[0]|..];
    } else {
      segments' := [[c]] + segments;
      assert StandsFor(t, [c]);
      assert segments'[1..] == segments && Push(t, ts)[1..] == ts;
      assert ([c] + commands)[1..] == commands;
    }
  }

  lemma {:induction false} LexOfRun(t: Token, run: string, rest: string)
    requires (StartsChange([t]) || StartsMove([t])) && StandsFor(t, run) && !SameRun(t, Lex(rest))
    ensures Lex(run + rest) == [t] + Lex(rest)
    decreases |run|
  {
    assert run[0] in run;
    var first := TokenOf(run[0]);
    assert (run + rest)[0] == run[0] && (run + rest)[1..] == run[1..] + rest;
    if |run| == 1 {
      assert run[1..] == [] && run[1..] + rest == rest;
      assert Net(run[1..], '+', '-') == Net(run[1..], '>', '<') == 0;
      assert t == first;
    } else {
      var t' := Op(if t.prim.Change? then Change(t.prim.n - first.prim.n) else Move(t.prim.n - first.prim.n));
      assert forall c | c in run[1..] :: c in run;
      assert StandsFor(t', run[1..]);
      LexOfRun(t', run[1..], rest);
      assert Push(first, [t'] + Lex(rest)) == [t] + Lex(rest);
    }
  }

  lemma LexOfSymbol(t: Token, segment: string, rest: string)
    requires StandsFor(t, segment) && !SameRun(t, Lex(rest))
    ensures Lex(segment + rest) == [t] + Lex(rest)
  {
    if StartsChange([t]) || StartsMove([t]) {
      LexOfRun(t, segment, rest);
    } else {
      assert (segment + rest)[0] == segment[0] && (segment + rest)[1..] == rest;
    }
  }

  lemma {:induction false} GroupsDetermineLex(ts: seq<Token>, segments: seq<string>, commands: string)
    requires Groups(ts, segments, commands)
    ensures ts == Lex(commands)
    decreases |ts|
  {
    hide StandsFor, SameRun;
    if ts != [] {
      var rest := commands[|segments[0]|..];
      GroupsDetermineLex(ts[1..], segments[1..], rest);
      assert commands == segments[0] + rest;
      LexOfSymbol(ts[0], segments[0], rest);
      assert ts == [ts[0]] + ts[1..];
    }
  }

  /** `ts` is the command text of `s` with each maximal run replaced by its net count. */
  ghost predicate Denotes(ts: seq<Token>, s: string) {
    exists segments :: Groups(ts, segments, Commands(s))
  }

  /** The lexer neither drops, duplicates nor reorders: its output is the one list the text denotes. */
  lemma LexerFidelity(s: string, ts: seq<Token>)
    ensures ts == Lex(s) <==> Denotes(ts, s)
  {
    var own := LexGroups(s);
    assert Denotes(Lex(s), s);
    if Denotes(ts, s) {
      var segments :| Groups(ts, segments, Commands(s));
      GroupsDetermineLex(ts, segments, Commands(s));
      LexIgnoresComments(s);
    }
  }
}
