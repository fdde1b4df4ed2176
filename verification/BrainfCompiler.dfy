/** The compiler as it runs: one pass that lexes, parses and generates code at once, updating the function under
    construction and reading the source a character at a time. Each method is proved against the lexer, parser
    and generator that specify it. */
module BrainfCompiler {
  import opened Wrappers
  import opened BrainfLexer
  import opened BrainfSyntax
  import opened BrainfMeaning
  import opened BrainfIr
  import opened BrainfCodegen
  import PhiNode

  datatype Symbol = SymNone | SymRead | SymWrite | SymMove | SymChange | SymLoop | SymEndloop | SymEof

  /** How an activation of `Readloop` ends; the source reports the two errors and aborts. */
  datatype Status = Ok | ExtraBracket | MissingBracket

  // ---------- Parser and generator fused ----------

  /** What is built from the symbols `ts`, and how the parser stops. */
  datatype Built =
    | Ends(g: Gen)
    | Closes(g: Gen, rest: seq<Token>)
    | Dangles

  function Build(ts: seq<Token>, g: Gen, checked: bool): (r: Built)
    requires g.Wf()
    ensures !r.Dangles? ==> Grew(g, r.g)
  {
    match ParseBody(ts)
    case AtEnd(p) => Ends(Generate(p, g, checked))
    case AtClose(p, rest) => Closes(Generate(p, g, checked), rest)
    case Unclosed => Dangles
  }

  lemma BuildPrim(prim: Prim, ts: seq<Token>, g: Gen, checked: bool)
    requires g.Wf()
    ensures Build([Op(prim)] + ts, g, checked) == Build(ts, EmitPrim(prim, g, checked), checked)
  {
    ParseOp(prim, ts);
  }

  /** A loop is built in one go: its body by an inner activation, which stops at the matching `]`. */
  lemma BuildLoop(ts: seq<Token>, g: Gen, checked: bool)
    requires g.Wf()
    ensures var testbb, inner := |g.fn|, Build(ts, OpenLoop(g), checked);
            if inner.Closes? then
              && OpenTest(inner.g, testbb) && inner.g.Wf() && Grew(g, CloseLoop(inner.g, testbb, testbb + 1))
              && Build([Open] + ts, g, checked) == Build(inner.rest, CloseLoop(inner.g, testbb, testbb + 1), checked)
            else Build([Open] + ts, g, checked) == Dangles
  {
    hide ParseBody, Generate, GenerateLoop, OpenLoop, CloseLoop;
    ParseOpen(ts);
    var inner := ParseBody(ts);
    if inner.AtClose? {
      LoopDone(inner.p, g, checked);
      match ParseBody(inner.rest)
      case AtEnd(p) => LoopThen(inner.p, p, g, checked);
      case AtClose(p, _) => LoopThen(inner.p, p, g, checked);
      case Unclosed =>
    }
  }

  lemma ParseOpen(ts: seq<Token>)
    ensures var inner := ParseBody(ts);
            ParseBody([Open] + ts) == if inner.AtClose? then ParseBody(inner.rest).AfterLoop(inner.p) else Unclosed
  {
    assert ([Open] + ts)[1..] == ts;
  }

  lemma LoopDone(body: Prog, g: Gen, checked: bool)
    requires g.Wf()
    ensures var inner := Generate(body, OpenLoop(g), checked);
            OpenTest(inner, |g.fn|) && GenerateLoop(body, g, checked) == CloseLoop(inner, |g.fn|, |g.fn| + 1)
  {
    hide Generate;
    assert Generate(body, OpenLoop(g), checked).fn[|g.fn|] == OpenLoop(g).fn[|g.fn|];
  }

  lemma LoopThen(body: Prog, p: Prog, g: Gen, checked: bool)
    requires g.Wf()
    ensures Generate(While(body, p), g, checked) == Generate(p, GenerateLoop(body, g, checked), checked)
  {
    hide GenerateLoop;
  }

  /** The phi of the enclosing loop, if there is one, still lacks its second value. */
  predicate HalfBuilt(phi: Option<Reg>, testbb: BlockId, g: Gen) {
    phi.Some? ==> OpenTest(g, testbb) && g.fn[testbb][0].dst == phi.value
  }

  lemma HalfBuiltIs(phi: Reg, testbb: BlockId, g: Gen)
    ensures HalfBuilt(Some(phi), testbb, g) <==> OpenTest(g, testbb) && g.fn[testbb][0].dst == phi
  {
  }

  lemma StaysHalfBuilt(phi: Option<Reg>, testbb: BlockId, g: Gen, g': Gen)
    requires HalfBuilt(phi, testbb, g) && Grew(g, g')
    ensures HalfBuilt(phi, testbb, g') && g'.Wf()
  {
  }

  lemma BuildStops(ts: seq<Token>, g: Gen, checked: bool)
    requires g.Wf()
    ensures Build([Close] + ts, g, checked) == Closes(g, ts)
    ensures Build([], g, checked) == Ends(g)
  {
    assert ([Close] + ts)[1..] == ts;
  }

  // ---------- The two symbols in hand ----------

  function SymbolToken(sym: Symbol, value: int): Token
    requires !sym.SymNone? && !sym.SymEof?
  {
    match sym
    case SymRead => Op(Read)
    case SymWrite => Op(Write)
    case SymMove => Op(Move(value))
    case SymChange => Op(Change(value))
    case SymLoop => Open
    case _ => Close
  }

  /** `ts` with a symbol in hand put back in front. */
  function Pending(sym: Symbol, value: int, ts: seq<Token>): seq<Token> {
    if sym.SymNone? || sym.SymEof? then ts else Push(SymbolToken(sym, value), ts)
  }

  predicate Counted(sym: Symbol) {
    sym.SymMove? || sym.SymChange?
  }

  /** The current symbol is complete: a run only once the symbol after it, of another kind, has been seen; and
      only a run has a symbol after it in hand. */
  predicate Settled(cur: Symbol, next: Symbol, input: string) {
    && cur != SymNone
    && (if Counted(cur) then next != SymNone && next != cur else next == SymNone)
    && (cur.SymEof? || next.SymEof? ==> input == [])
  }

  /** A complete symbol is the next one: it will not merge with what follows. */
  lemma SettledHead(cur: Symbol, value: int, next: Symbol, nextvalue: int, input: string)
    requires Settled(cur, next, input) && !cur.SymEof?
    ensures var ts := Pending(next, nextvalue, Lex(input));
            Pending(cur, value, ts) == [SymbolToken(cur, value)] + ts
  {
  }

  lemma PushTwice(t: Token, u: Token, ts: seq<Token>)
    requires SameRun(t, [u])
    ensures Push(t, Push(u, ts)) == Push(Push(t, [u])[0], ts)
    ensures Push(t, [u])[0] == Op(if t.prim.Change? then Change(t.prim.n + u.prim.n) else Move(t.prim.n + u.prim.n))
  {
  }

  lemma LexNothing()
    ensures Lex([]) == []
  {
  }

  lemma LexStep(s: string)
    requires s != []
    ensures Lex(s) == if IsCommand(s[0]) then Push(TokenOf(s[0]), Lex(s[1..])) else Lex(s[1..])
  {
  }

  /** Remaining progress promised by the symbol in hand. */
  function Weight(next: Symbol): nat {
    if next.SymNone? then 0 else if next.SymEof? then 1 else 2
  }

  class BrainF {
    const memtotal: nat
    const arraybounds: bool
    /** What has not been read of the source. */
    var input: string
    /** The function being built, the block the builder appends to, and the next unused name. */
    var blocks: seq<Block>
    var insertblock: BlockId
    var nextname: Reg
    var curhead: Reg

    function Current(): Gen
      reads this
    {
      Gen(blocks, insertblock, curhead, nextname)
    }

    constructor (input: string, memtotal: nat, arraybounds: bool)
      ensures this.input == input && this.memtotal == memtotal && this.arraybounds == arraybounds
      ensures blocks == []
    {
      this.input, this.memtotal, this.arraybounds := input, memtotal, arraybounds;
      blocks, insertblock, nextname, curhead := [], 0, 0, 0;
    }

    // ---------- The instruction builder ----------

    method CreateBlock() returns (bb: BlockId)
      modifies this`blocks
      ensures bb == |old(blocks)| && blocks == old(blocks) + [[]]
    {
      bb := |blocks|;
      blocks := blocks + [[]];
    }

    method AppendTo(bb: BlockId, i: Instr)
      requires bb < |blocks|
      modifies this`blocks
      ensures blocks == old(blocks)[bb := old(blocks)[bb] + [i]]
    {
      blocks := blocks[bb := blocks[bb] + [i]];
    }

    method Insert(i: Instr)
      requires insertblock < |blocks|
      modifies this`blocks
      ensures Current() == old(Current()).Insert(i)
    {
      AppendTo(insertblock, i);
    }

    method FreshName() returns (r: Reg)
      modifies this`nextname
      ensures r == old(nextname) && nextname == r + 1
    {
      r := nextname;
      nextname := nextname + 1;
    }

    /** One more value for the phi that starts block `bb`: it is the one taken from `from`, if the phi had none for that
        block, and nothing else changes. */
    method AddIncoming(bb: BlockId, value: Reg, from: BlockId)
      requires bb < |blocks| && blocks[bb] != [] && blocks[bb][0].Phi?
      modifies this`blocks
      ensures var phi := old(blocks)[bb][0];
              blocks == old(blocks)[bb := old(blocks)[bb][0 := Phi(phi.dst, phi.incoming + [Incoming(value, from)])]]
      ensures var before, after := old(blocks)[bb][0].incoming, blocks[bb][0].incoming;
              forall f :: PhiValue(after, f)
                == if f == from && PhiValue(before, f) == None then Some(value) else PhiValue(before, f)
    {
      var phi := blocks[bb][0];
      forall f {
        PhiNode.PhiValueAdded(phi.incoming, Incoming(value, from), f);
      }
      blocks := blocks[bb := blocks[bb][0 := Phi(phi.dst, phi.incoming + [Incoming(value, from)])]];
    }

    // ---------- Before the first symbol ----------

    method EmitHeader()
      requires blocks == []
      modifies this`blocks, this`insertblock, this`nextname, this`curhead
      ensures Current() == Header(memtotal, arraybounds)
    {
      insertblock := CreateBlock();
      Insert(Malloc(ARR, memtotal));
      Insert(Memset(ARR, memtotal));
      if arraybounds {
        Insert(Gep(ARRMAX, ARR, memtotal));
      }
      nextname := ARRMAX + 1;
      curhead := FreshName();
      Insert(Gep(curhead, ARR, memtotal / 2));
      EmitFooter();
      assert blocks[ENTRY] == Header(memtotal, arraybounds).fn[ENTRY];
    }

    method EmitFooter()
      requires |blocks| == 1
      modifies this`blocks
      ensures blocks == old(blocks) + [[Free(ARR), Ret]] + if arraybounds then [[Puts, Br(END)]] else []
    {
      var endbb := CreateBlock();
      AppendTo(endbb, Free(ARR));
      AppendTo(endbb, Ret);
      assert blocks[endbb] == [Free(ARR), Ret];
      if arraybounds {
        var aberrorbb := CreateBlock();
        AppendTo(aberrorbb, Puts);
        AppendTo(aberrorbb, Br(endbb));
        assert blocks[aberrorbb] == [Puts, Br(END)];
      }
    }

    // ---------- One symbol ----------

    method EmitRead()
      requires Current().Wf()
      modifies this`blocks, this`nextname
      ensures Current() == EmitPrim(Read, old(Current()), arraybounds)
    {
      var tape0 := FreshName();
      Insert(GetChar(tape0));
      var tape1 := FreshName();
      Insert(Trunc(tape1, tape0));
      Insert(Store(tape1, curhead));
    }

    method EmitWrite()
      requires Current().Wf()
      modifies this`blocks, this`nextname
      ensures Current() == EmitPrim(Write, old(Current()), arraybounds)
    {
      var tape0 := FreshName();
      Insert(Load(tape0, curhead));
      var tape1 := FreshName();
      Insert(SExt(tape1, tape0));
      Insert(PutChar(tape1));
    }

    method EmitChange(value: int)
      requires Current().Wf()
      modifies this`blocks, this`nextname
      ensures Current() == EmitPrim(Change(value), old(Current()), arraybounds)
    {
      var tape0 := FreshName();
      Insert(Load(tape0, curhead));
      var tape1 := FreshName();
      Insert(AddI8(tape1, tape0, Wrap(value)));
      Insert(Store(tape1, curhead));
    }

    method EmitMove(value: int)
      requires Current().Wf()
      modifies this`blocks, this`nextname, this`curhead, this`insertblock
      ensures Current() == EmitPrim(Move(value), old(Current()), arraybounds)
    {
      var head := FreshName();
      Insert(Gep(head, curhead, value));
      curhead := head;
      if arraybounds {
        EmitTest();
      }
    }

    /** The branch to the error block, and the block where building goes on. */
    method EmitTest()
      requires Current().Wf()
      modifies this`blocks, this`nextname, this`insertblock
      ensures Current() == EmitCheck(old(Current()))
    {
      var test0 := FreshName();
      Insert(IcmpUge(test0, curhead, ARRMAX));
      var test1 := FreshName();
      Insert(IcmpUlt(test1, curhead, ARR));
      var test2 := FreshName();
      Insert(Or(test2, test0, test1));
      var nextbb := CreateBlock();
      Insert(CondBr(test2, ERROR, nextbb));
      insertblock := nextbb;
    }

    method WriteOut(sym: Symbol, value: int)
      requires Current().Wf() && (Counted(sym) || sym == SymRead || sym == SymWrite)
      modifies this`blocks, this`nextname, this`curhead, this`insertblock
      ensures Current() == EmitPrim(SymbolToken(sym, value).prim, old(Current()), arraybounds)
    {
      if sym == SymRead {
        EmitRead();
      } else if sym == SymWrite {
        EmitWrite();
      } else if sym == SymMove {
        EmitMove(value);
      } else {
        EmitChange(value);
      }
    }

    /** `[`, up to the recursive call: the phi is left half built. */
    method BeginLoop() returns (phi: Reg, bodybb: BlockId, testbb: BlockId)
      requires Current().Wf()
      modifies this`blocks, this`nextname, this`curhead, this`insertblock
      ensures Current() == OpenLoop(old(Current())) && phi == curhead
      ensures testbb == |old(blocks)| && bodybb == testbb + 1
      ensures Current().Wf() && HalfBuilt(Some(phi), testbb, Current())
    {
      testbb := CreateBlock();
      Insert(Br(testbb));
      var bb0 := insertblock;
      bodybb := CreateBlock();
      insertblock := bodybb;
      phi := FreshName();
      AppendTo(testbb, Phi(phi, []));
      AddIncoming(testbb, curhead, bb0);
      curhead := phi;
      var none: seq<Incoming> := [];
      assert none + [Incoming(old(curhead), bb0)] == [Incoming(old(curhead), bb0)];
      assert blocks[testbb] == [Phi(phi, none + [Incoming(old(curhead), bb0)])];
      assert blocks[testbb] == OpenLoop(old(Current())).fn[testbb];
      assert blocks == OpenLoop(old(Current())).fn;
    }

    /** `]`: the loop's phi is finished and its test written. */
    method EndLoop(phi: Reg, oldbb: BlockId, testbb: BlockId)
      requires Current().Wf() && OpenTest(Current(), testbb) && blocks[testbb][0].dst == phi
      modifies this`blocks, this`nextname, this`curhead, this`insertblock
      ensures Current() == CloseLoop(old(Current()), testbb, oldbb)
    {
      Insert(Br(testbb));
      AddIncoming(testbb, curhead, insertblock);
      var tape0 := FreshName();
      AppendTo(testbb, Load(tape0, phi));
      var test0 := FreshName();
      AppendTo(testbb, IcmpZero(test0, tape0));
      var bb0 := CreateBlock();
      AppendTo(testbb, CondBr(test0, bb0, oldbb));
      insertblock := bb0;
      var head := FreshName();
      Insert(Phi(head, []));
      AddIncoming(bb0, phi, testbb);
      curhead := head;
      var done := CloseLoop(old(Current()), testbb, oldbb);
      assert blocks[testbb] == done.fn[testbb];
      var none: seq<Incoming> := [];
      assert none + [Incoming(phi, testbb)] == [Incoming(phi, testbb)];
      assert blocks[bb0] == [Phi(head, none + [Incoming(phi, testbb)])];
      assert blocks == done.fn;
    }

    // ---------- The source, symbol by symbol ----------

    /** Reads on until the current symbol is complete. */
    method ReadSymbol(sym: Symbol, value: int)
      returns (cursym: Symbol, curvalue: int, nextsym: Symbol, nextvalue: int)
      requires sym.SymEof? ==> input == []
      modifies this`input
      ensures Settled(cursym, nextsym, input)
      ensures Pending(cursym, curvalue, Pending(nextsym, nextvalue, Lex(input))) == Pending(sym, value, Lex(old(input)))
      ensures |input| < |old(input)| || (input == old(input) && cursym == sym && (nextsym.SymNone? || nextsym.SymEof?))
              || (input == old(input) && sym.SymNone? && cursym.SymEof?)
    {
      hide Lex, Push;
      LexNothing();
      cursym, curvalue, nextsym, nextvalue := sym, value, SymNone, 0;
      var loop := cursym == SymNone || cursym == SymMove || cursym == SymChange;
      while loop
        invariant loop ==> nextsym == SymNone && (cursym == SymNone || Counted(cursym))
        invariant !loop ==> Settled(cursym, nextsym, input)
        invariant Pending(cursym, curvalue, Pending(nextsym, nextvalue, Lex(input)))
                  == Pending(sym, value, Lex(old(input)))
        invariant |input| < |old(input)|
                  || (input == old(input) && cursym == sym && (nextsym.SymNone? || nextsym.SymEof?))
                  || (input == old(input) && sym.SymNone? && cursym.SymEof?)
        decreases |input|, loop
      {
        if input == [] {
          if cursym == SymNone {
            cursym := SymEof;
          } else {
            nextsym := SymEof;
          }
          loop := false;
        } else {
          LexStep(input);
          var c := input[0];
          input := input[1..];
          var direction := if c == '-' || c == '<' then -1 else 1;
          if c == '-' || c == '+' {
            if cursym == SymChange {
              PushTwice(Op(Change(curvalue)), Op(Change(direction)), Lex(input));
              curvalue := curvalue + direction;
            } else if cursym == SymNone {
              cursym, curvalue := SymChange, direction;
            } else {
              nextsym, nextvalue, loop := SymChange, direction, false;
            }
          } else if c == '<' || c == '>' {
            if cursym == SymMove {
              PushTwice(Op(Move(curvalue)), Op(Move(direction)), Lex(input));
              curvalue := curvalue + direction;
            } else if cursym == SymNone {
              cursym, curvalue := SymMove, direction;
            } else {
              nextsym, nextvalue, loop := SymMove, direction, false;
            }
          } else if c == ',' || c == '.' || c == '[' || c == ']' {
            var read := if c == ',' then SymRead else if c == '.' then SymWrite
                        else if c == '[' then SymLoop else SymEndloop;
            if cursym == SymNone {
              cursym := read;
            } else {
              nextsym := read;
            }
            loop := false;
          }
        }
      }
    }

    /** One activation: the whole program when `phi` is absent, otherwise the rest of a loop body, up to and
        including its `]`. */
    method Readloop(phi: Option<Reg>, oldbb: BlockId, testbb: BlockId) returns (status: Status)
      requires Current().Wf()
      requires HalfBuilt(phi, testbb, Current())
      modifies this`input, this`blocks, this`nextname, this`curhead, this`insertblock
      ensures match Build(Lex(old(input)), old(Current()), arraybounds) {
                case Ends(g) =>
                  if phi.Some? then status == MissingBracket
                  else status == Ok && input == [] && Current() == g.Insert(Br(END))
                case Closes(g, rest) =>
                  if phi.None? then status == ExtraBracket
                  else
                    && status == Ok && |input| < |old(input)| && Lex(input) == rest
                    && g.Wf() && OpenTest(g, testbb) && Current() == CloseLoop(g, testbb, oldbb)
                case Dangles => status == MissingBracket
              }
      decreases |input|, 0
    {
      hide Build, EmitPrim, OpenLoop, CloseLoop, Lex, Push, HalfBuilt, Grew;
      var cursym, curvalue, nextsym, nextvalue := SymNone, 0, SymNone, 0;
      while cursym != SymEof && cursym != SymEndloop
        invariant Current().Wf()
        invariant HalfBuilt(phi, testbb, Current())
        invariant if cursym == SymNone then nextsym == SymNone && input == old(input)
                  else Settled(cursym, nextsym, input)
        invariant |input| < |old(input)| || (input == old(input) && (cursym.SymNone? || cursym.SymEof?))
        invariant Build(Pending(cursym, curvalue, Pending(nextsym, nextvalue, Lex(input))), Current(), arraybounds)
                  == Build(Lex(old(input)), old(Current()), arraybounds)
        decreases |input|, Weight(nextsym), if cursym == SymEof || cursym == SymEndloop then 0 else 1
      {
        if cursym != SymNone {
          SettledHead(cursym, curvalue, nextsym, nextvalue, input);
          status := CompileSymbol(phi, testbb, cursym, curvalue, nextsym, nextvalue);
          if status != Ok {
            return;
          }
        }
        cursym, curvalue, nextsym, nextvalue := ReadSymbol(nextsym, nextvalue);
      }
      LexNothing();
      BuildStops(Lex(input), Current(), arraybounds);
      if cursym == SymEndloop {
        SettledHead(cursym, curvalue, nextsym, nextvalue, input);
        if phi.None? {
          return ExtraBracket;
        }
        HalfBuiltIs(phi.value, testbb, Current());
        EndLoop(phi.value, oldbb, testbb);
        return Ok;
      }
      Insert(Br(END));
      if phi.Some? {
        return MissingBracket;
      }
      return Ok;
    }

    /** A complete symbol that does not end the activation. Only a run has a symbol after it in hand. */
    method CompileSymbol(phi: Option<Reg>, testbb: BlockId, sym: Symbol, value: int, ghost next: Symbol,
                         ghost nextvalue: int)
      returns (status: Status)
      requires Current().Wf() && HalfBuilt(phi, testbb, Current())
      requires sym != SymNone && sym != SymEof && sym != SymEndloop && (next == SymNone || Counted(sym))
      modifies this`input, this`blocks, this`nextname, this`curhead, this`insertblock
      ensures Current().Wf() || status != Ok
      ensures HalfBuilt(phi, testbb, Current()) || status != Ok
      ensures if sym == SymLoop then |input| < |old(input)| || status != Ok else input == old(input)
      ensures var built := Build([SymbolToken(sym, value)] + Pending(next, nextvalue, Lex(old(input))), old(Current()),
                                 arraybounds);
              if status == Ok then Build(Pending(next, nextvalue, Lex(input)), Current(), arraybounds) == built
              else status == MissingBracket && built == Dangles
      decreases |input|, 2
    {
      hide Build, EmitPrim, OpenLoop, CloseLoop, Lex, Push, HalfBuilt, Grew;
      ghost var follow, before := Pending(next, nextvalue, Lex(input)), Current();
      if sym == SymLoop {
        BuildLoop(follow, before, arraybounds);
        status := CompileLoop();
        if status != Ok {
          return;
        }
      } else {
        BuildPrim(SymbolToken(sym, value).prim, follow, before, arraybounds);
        WriteOut(sym, value);
        status := Ok;
      }
      StaysHalfBuilt(phi, testbb, before, Current());
    }

    /** `[` and what follows it, up to and including the matching `]`. */
    method CompileLoop() returns (status: Status)
      requires Current().Wf()
      modifies this`input, this`blocks, this`nextname, this`curhead, this`insertblock
      ensures var testbb, inner := |old(blocks)|, Build(Lex(old(input)), OpenLoop(old(Current())), arraybounds);
              if inner.Closes? then
                && status == Ok && |input| < |old(input)| && Lex(input) == inner.rest
                && inner.g.Wf() && OpenTest(inner.g, testbb) && Current() == CloseLoop(inner.g, testbb, testbb + 1)
              else status == MissingBracket
      decreases |input|, 1
    {
      var phi0, bb1, testbb := BeginLoop();
      status := Readloop(Some(phi0), bb1, testbb);
    }

    /** The whole compilation. */
    method Parse() returns (status: Status)
      requires blocks == []
      modifies this
      ensures match ParseText(old(input)) {
                case Accepted(p) => status == Ok && blocks == Compile(p, memtotal, arraybounds)
                case ExtraClose => status == ExtraBracket
                case MissingClose => status == MissingBracket
              }
    {
      EmitHeader();
      status := Readloop(None, 0, 0);
    }
  }
}
