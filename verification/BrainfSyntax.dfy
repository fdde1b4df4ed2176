/** Bracket structure: the parser as a specification, its inverse, and what it accepts. */
module BrainfSyntax {
  import opened BrainfLexer

  /** A program: a list of primitive commands and loops. */
  datatype Prog =
    | Done
    | Then(prim: Prim, rest: Prog)
    | While(body: Prog, rest: Prog)

  /** How one activation of the parser ends. */
  datatype Parsed =
    | AtEnd(p: Prog)
    | AtClose(p: Prog, rest: seq<Token>)
    | Unclosed
  {
    /** The same end, with a primitive in front of what was parsed. */
    function After(prim: Prim): Parsed {
      match this
      case AtEnd(p) => AtEnd(Then(prim, p))
      case AtClose(p, rest) => AtClose(Then(prim, p), rest)
      case Unclosed => Unclosed
    }

    /** The same end, with a loop in front of what was parsed. */
    function AfterLoop(body: Prog): Parsed {
      match this
      case AtEnd(p) => AtEnd(While(body, p))
      case AtClose(p, rest) => AtClose(While(body, p), rest)
      case Unclosed => Unclosed
    }
  }

  function ParseBody(ts: seq<Token>): (r: Parsed)
    ensures r.AtClose? ==> |r.rest| < |ts|
    decreases |ts|
  {
    if ts == [] then AtEnd(Done)
    else match ts[0]
      case Close => AtClose(Done, ts[1..])
      case Op(prim) => ParseBody(ts[1..]).After(prim)
      case Open =>
        var inner := ParseBody(ts[1..]);
        if inner.AtClose? then ParseBody(inner.rest).AfterLoop(inner.p) else Unclosed
  }

  /** What the compiler reports for a whole source. */
  datatype Verdict =
    | Accepted(p: Prog)
    | ExtraClose
    | MissingClose

  function ParseText(s: string): Verdict {
    match ParseBody(Lex(s))
    case AtEnd(p) => Accepted(p)
    case AtClose(_, _) => ExtraClose
    case Unclosed => MissingClose
  }

  // ---------- The parser is inverse to printing ----------

  function Unparse(p: Prog): seq<Token> {
    match p
    case Done => []
    case Then(prim, rest) => [Op(prim)] + Unparse(rest)
    case While(body, rest) => [Open] + Unparse(body) + [Close] + Unparse(rest)
  }

  lemma ParseOp(prim: Prim, ts: seq<Token>)
    ensures ParseBody([Op(prim)] + ts) == ParseBody(ts).After(prim)
  {
    assert ([Op(prim)] + ts)[1..] == ts;
  }

  lemma ParseLoop(body: Prog, ts: seq<Token>, rest: seq<Token>)
    requires ParseBody(ts) == AtClose(body, rest)
    ensures ParseBody([Open] + ts) == ParseBody(rest).AfterLoop(body)
  {
    assert ([Open] + ts)[1..] == ts;
  }

  lemma UnparseWhile(body: seq<Token>, rest: seq<Token>, after: seq<Token>)
    ensures [Open] + body + [Close] + rest + after == [Open] + (body + ([Close] + (rest + after)))
  {
  }

  /** Parsing what a program prints gives the program back, at the end of the input or before a `]`. */
  lemma {:induction false} ParseUnparse(p: Prog, after: seq<Token>)
    requires after == [] || after[0].Close?
    ensures ParseBody(Unparse(p) + after) == if after == [] then AtEnd(p) else AtClose(p, after[1..])
  {
    match p
    case Done =>
      assert Unparse(p) + after == after;
    case Then(prim, rest) =>
      ParseUnparse(rest, after);
      ParseOp(prim, Unparse(rest) + after);
      assert Unparse(p) + after == [Op(prim)] + (Unparse(rest) + after);
    case While(body, rest) =>
      var follow := Unparse(rest) + after;
      assert ParseBody(follow) == if after == [] then AtEnd(rest) else AtClose(rest, after[1..]) by {
        ParseUnparse(rest, after);
      }
      var inner := Unparse(body) + ([Close] + follow);
      assert ParseBody(inner) == AtClose(body, follow) by {
        ParseUnparse(body, [Close] + follow);
        assert ([Close] + follow)[1..] == follow;
      }
      ParseLoop(body, inner, follow);
      UnparseWhile(Unparse(body), Unparse(rest), after);
  }

  /** The symbols an activation of the parser has consumed and left over. */
  function Reprint(r: Parsed): seq<Token>
    requires !r.Unclosed?
  {
    if r.AtEnd? then Unparse(r.p) else Unparse(r.p) + ([Close] + r.rest)
  }

  lemma ReprintLoop(body: Prog, r: Parsed)
    requires !r.Unclosed?
    ensures Reprint(r.AfterLoop(body)) == [Open] + (Unparse(body) + ([Close] + Reprint(r)))
  {
    if r.AtClose? {
      UnparseWhile(Unparse(body), Unparse(r.p), [Close] + r.rest);
    } else {
      UnparseWhile(Unparse(body), Unparse(r.p), []);
    }
  }

  lemma {:induction false} UnparseParse(ts: seq<Token>)
    ensures !ParseBody(ts).Unclosed? ==> Reprint(ParseBody(ts)) == ts
    decreases |ts|
  {
    if ts == [] {
    } else {
      var inner := ParseBody(ts[1..]);
      UnparseParse(ts[1..]);
      assert ts == [ts[0]] + ts[1..];
      if ts[0].Open? && inner.AtClose? {
        UnparseParse(inner.rest);
        if !ParseBody(inner.rest).Unclosed? {
          ReprintLoop(inner.p, ParseBody(inner.rest));
        }
      }
    }
  }

  // ---------- What is accepted, in terms of bracket depth ----------

  /** Opening minus closing brackets. */
  function Depth(s: string): int {
    Net(s, '[', ']')
  }

  /** Some prefix closes more than it opens. */
  ghost predicate Dips(s: string) {
    exists k | 0 <= k <= |s| :: Depth(s[..k]) < 0
  }

  /** One left-to-right pass over symbols that only counts brackets; `Done` stands for any program. */
  function Count(ts: seq<Token>, depth: nat): Verdict {
    if ts == [] then (if depth == 0 then Accepted(Done) else MissingClose)
    else match ts[0]
      case Op(_) => Count(ts[1..], depth)
      case Open => Count(ts[1..], depth + 1)
      case Close => if depth == 0 then ExtraClose else Count(ts[1..], depth - 1)
  }

  lemma {:induction false} ParseCounts(ts: seq<Token>, depth: nat)
    ensures match ParseBody(ts)
            case AtEnd(_) => Count(ts, depth) == if depth == 0 then Accepted(Done) else MissingClose
            case AtClose(_, r) => Count(ts, depth) == if depth == 0 then ExtraClose else Count(r, depth - 1)
            case Unclosed => Count(ts, depth) == MissingClose
    decreases |ts|
  {
    if ts != [] {
      match ts[0]
      case Op(_) => ParseCounts(ts[1..], depth);
      case Close =>
      case Open =>
        ParseCounts(ts[1..], depth + 1);
        var inner := ParseBody(ts[1..]);
        if inner.AtClose? {
          ParseCounts(inner.rest, depth);
        }
    }
  }

  lemma {:induction false} CountsDepth(s: string, depth: nat)
    ensures Count(Lex(s), depth).ExtraClose? <==> exists k | 0 <= k <= |s| :: depth + Depth(s[..k]) < 0
    ensures Count(Lex(s), depth).Accepted? ==> depth + Depth(s) == 0
    ensures Count(Lex(s), depth).MissingClose? ==> depth + Depth(s) > 0
  {
    if s == [] {
      assert forall k | 0 <= k <= |s| :: s[..k] == [];
    } else {
      var d := depth + Depth(s[..1]);
      assert s[..1][1..] == [];
      var found := exists k | 0 <= k <= |s| :: depth + Depth(s[..k]) < 0;
      forall k | 1 <= k <= |s|
        ensures Depth(s[..k]) == Depth(s[..1]) + Depth(s[1..][..k - 1])
      {
        assert s[..k][1..] == s[1..][..k - 1];
        assert s[..k][0] == s[0] == s[..1][0];
        assert Net(s[..1][1..], '[', ']') == 0;
      }
      assert s[..0] == [];
      if d < 0 {
        assert found;
      } else {
        CountsDepth(s[1..], d);
        if k :| 0 <= k <= |s[1..]| && d + Depth(s[1..][..k]) < 0 {
          assert depth + Depth(s[..k + 1]) < 0;
        }
        if found {
          var k :| 0 <= k <= |s| && depth + Depth(s[..k]) < 0;
          assert d + Depth(s[1..][..k - 1]) < 0;
        }
      }
    }
  }

  /** "Extra ']'" exactly when some prefix closes more than it opens, "Missing ']'" exactly when none does
      and the text ends inside a loop, acceptance exactly for the balanced texts. */
  lemma Acceptance(s: string)
    ensures ParseText(s).ExtraClose? <==> Dips(s)
    ensures ParseText(s).MissingClose? <==> !Dips(s) && Depth(s) > 0
    ensures ParseText(s).Accepted? <==> !Dips(s) && Depth(s) == 0
  {
    ParseCounts(Lex(s), 0);
    CountsDepth(s, 0);
    assert (exists k | 0 <= k <= |s| :: 0 + Depth(s[..k]) < 0) <==> Dips(s);
  }
}
