/** The functions that are generated around a call: an invoke, a catch block for each type to be caught, a finally
    block through which every path leads, and either an end or a resumption of the exception. */
module CatchFunctions {
  import opened Wrappers

  const NOT_THROWN := 0
  const THROWN := 1
  const CAUGHT := 2

  type BlockId = nat

  const ENTRY: BlockId := 0
  const NORMAL: BlockId := 1
  const EXCEPTION: BlockId := 2
  const ROUTE: BlockId := 3
  const EXTERNAL: BlockId := 4
  const RESUME: BlockId := 5
  const END: BlockId := 6
  const FINALLY: BlockId := 7
  const CATCHES: BlockId := 8

  /** What a generated block prints. */
  datatype Note =
    | NoException
    | ForeignReceived
    | TypeReceived
    | CatchRun(clause: nat)
    | FinallyRun
    | EndRun

  datatype Code =
    | Print(note: Note)
    | StoreFlag(v: int)
    | ClearStored
    | ClearResult
    | StoreResult
    | StoreException
    | DeleteStored

  datatype Subject = OnFlag | OnSelector

  datatype Case = Case(value: int, target: BlockId)

  datatype Exit =
    | Invoke(normal: BlockId, unwind: BlockId)
    | Goto(target: BlockId)
    | IfOurs(yes: BlockId, no: BlockId)
    | Switch(on: Subject, default: BlockId, cases: seq<Case>)
    | Resume
    | Return

  /** A block, with its terminator once it has one. */
  datatype Block = Block(code: seq<Code>, exit: Option<Exit>)

  // ---------- The blocks of a finished function ----------

  function CatchBlock(clause: nat): Block {
    Block([Print(CatchRun(clause)), StoreFlag(CAUGHT)], Some(Goto(FINALLY)))
  }

  function CatchCase(clause: nat): Case {
    Case(clause + 1, CATCHES + clause)
  }

  /** The function for `n` types to be caught. */
  function GeneratedBlocks(n: nat): seq<Block> {
    [Block([ClearResult, ClearStored, StoreFlag(NOT_THROWN)], Some(Invoke(NORMAL, EXCEPTION))),
     Block([Print(NoException)], Some(Goto(FINALLY))),
     Block([StoreResult, StoreException, StoreFlag(THROWN)], Some(IfOurs(ROUTE, EXTERNAL))),
     Block([Print(TypeReceived)], Some(Switch(OnSelector, FINALLY, seq(n, i requires i >= 0 => CatchCase(i))))),
     Block([Print(ForeignReceived)], Some(Goto(FINALLY))),
     Block([], Some(Resume)),
     Block([Print(EndRun), DeleteStored], Some(Return)),
     Block([Print(FinallyRun)], Some(Switch(OnFlag, END, [Case(CAUGHT, END), Case(THROWN, RESUME)])))]
    + seq(n, i requires i >= 0 => CatchBlock(i))
  }

  // ---------- Generating it ----------

  class FunctionBuilder {
    var blocks: seq<Block>
    var insertPoint: BlockId

    constructor ()
      ensures blocks == []
    {
      blocks := [];
      insertPoint := 0;
    }

    method CreateBlock() returns (bb: BlockId)
      modifies this`blocks
      ensures bb == |old(blocks)| && blocks == old(blocks) + [Block([], None)]
    {
      bb := |blocks|;
      blocks := blocks + [Block([], None)];
    }

    method SetInsertPoint(bb: BlockId)
      modifies this`insertPoint
      ensures insertPoint == bb
    {
      insertPoint := bb;
    }

    method Insert(c: Code)
      requires insertPoint < |blocks|
      modifies this`blocks
      ensures var b := old(blocks)[insertPoint]; blocks == old(blocks)[insertPoint := b.(code := b.code + [c])]
    {
      var b := blocks[insertPoint];
      blocks := blocks[insertPoint := b.(code := b.code + [c])];
    }

    method Terminate(e: Exit)
      requires insertPoint < |blocks|
      modifies this`blocks
      ensures blocks == old(blocks)[insertPoint := old(blocks)[insertPoint].(exit := Some(e))]
    {
      blocks := blocks[insertPoint := blocks[insertPoint].(exit := Some(e))];
    }

    /** A variable of the function: its initial value is stored at the start of the entry block. */
    method CreateEntryBlockAlloca(init: Code)
      requires ENTRY < |blocks|
      modifies this`blocks
      ensures var b := old(blocks)[ENTRY]; blocks == old(blocks)[ENTRY := b.(code := [init] + b.code)]
    {
      var b := blocks[ENTRY];
      blocks := blocks[ENTRY := b.(code := [init] + b.code)];
    }

    method CreateFinallyBlock(terminatorBlock: BlockId, unwindResumeBlock: BlockId) returns (ret: BlockId)
      requires ENTRY < |blocks| && blocks[ENTRY].code == []
      modifies this
      ensures ret == |old(blocks)|
      ensures blocks
          == old(blocks)[ENTRY := old(blocks)[ENTRY].(code := [ClearResult, ClearStored, StoreFlag(NOT_THROWN)])]
                        + [Block([Print(FinallyRun)], Some(Switch(OnFlag, terminatorBlock,
                                                                  [Case(CAUGHT, terminatorBlock),
                                                                   Case(THROWN, unwindResumeBlock)])))]
    {
      CreateEntryBlockAlloca(StoreFlag(NOT_THROWN));
      CreateEntryBlockAlloca(ClearStored);
      CreateEntryBlockAlloca(ClearResult);
      assert blocks[ENTRY].code == [ClearResult, ClearStored, StoreFlag(NOT_THROWN)];
      ret := CreateBlock();
      SetInsertPoint(ret);
      Insert(Print(FinallyRun));
      assert blocks[ret].code == [Print(FinallyRun)];
      Terminate(Switch(OnFlag, terminatorBlock, [Case(CAUGHT, terminatorBlock), Case(THROWN, unwindResumeBlock)]));
    }

    method CreateCatchBlock(clause: nat, terminatorBlock: BlockId) returns (ret: BlockId)
      modifies this
      ensures ret == |old(blocks)|
      ensures blocks == old(blocks) + [Block([Print(CatchRun(clause)), StoreFlag(CAUGHT)], Some(Goto(terminatorBlock)))]
    {
      ret := CreateBlock();
      SetInsertPoint(ret);
      Insert(Print(CatchRun(clause)));
      Insert(StoreFlag(CAUGHT));
      assert blocks[ret].code == [Print(CatchRun(clause)), StoreFlag(CAUGHT)];
      Terminate(Goto(terminatorBlock));
    }

    /** A block that was created empty gets its contents. */
    method Fill(bb: BlockId, code: seq<Code>, exit: Exit)
      requires bb < |blocks|
      modifies this
      ensures blocks == old(blocks)[bb := Block(old(blocks)[bb].code + code, Some(exit))]
    {
      SetInsertPoint(bb);
      ghost var b := blocks[bb];
      for i := 0 to |code|
        invariant insertPoint == bb
        invariant |blocks| == |old(blocks)| && blocks[bb] == b.(code := b.code + code[..i])
        invariant forall a | 0 <= a < |blocks| && a != bb :: blocks[a] == old(blocks)[a]
      {
        Insert(code[i]);
        assert b.code + code[..i] + [code[i]] == b.code + code[..i + 1];
      }
      assert code[..|code|] == code;
      Terminate(exit);
    }

    /** One catch block for each type to be caught. */
    method CreateCatchBlocks(n: nat, finallyBlock: BlockId) returns (catchBlocks: seq<BlockId>)
      requires |blocks| == CATCHES && finallyBlock == FINALLY
      modifies this
      ensures |catchBlocks| == n && forall j | 0 <= j < n :: catchBlocks[j] == CATCHES + j
      ensures |blocks| == CATCHES + n && blocks[..CATCHES] == old(blocks)
      ensures forall j | 0 <= j < n :: blocks[CATCHES + j] == CatchBlock(j)
    {
      catchBlocks := [];
      for i := 0 to n
        invariant |catchBlocks| == i && forall j | 0 <= j < i :: catchBlocks[j] == CATCHES + j
        invariant |blocks| == CATCHES + i && blocks[..CATCHES] == old(blocks)
        invariant forall j | 0 <= j < i :: blocks[CATCHES + j] == CatchBlock(j)
      {
        var catchBlock := CreateCatchBlock(i, finallyBlock);
        catchBlocks := catchBlocks + [catchBlock];
      }
    }

    /** The cases of the route switch: clause numbers from 1 on. */
    method RouteCases(n: nat, catchBlocks: seq<BlockId>) returns (cases: seq<Case>)
      requires |catchBlocks| == n && forall j | 0 <= j < n :: catchBlocks[j] == CATCHES + j
      ensures cases == seq(n, i requires i >= 0 => CatchCase(i))
    {
      cases := [];
      for i := 1 to n + 1
        invariant cases == seq(i - 1, j requires j >= 0 => CatchCase(j))
      {
        cases := cases + [Case(i, catchBlocks[i - 1])];
      }
    }

    /** The blocks, of which only the finally block is filled in. */
    method CreateBlocks()
      requires blocks == []
      modifies this
      ensures |blocks| == CATCHES
      ensures blocks[ENTRY] == Block([ClearResult, ClearStored, StoreFlag(NOT_THROWN)], None)
      ensures forall b | NORMAL <= b < FINALLY :: blocks[b] == Block([], None)
      ensures blocks[FINALLY] == GeneratedBlocks(0)[FINALLY]
    {
      var entryBlock := CreateBlock();
      var normalBlock := CreateBlock();
      var exceptionBlock := CreateBlock();
      var exceptionRouteBlock := CreateBlock();
      var externalExceptionBlock := CreateBlock();
      var unwindResumeBlock := CreateBlock();
      var endBlock := CreateBlock();
      var finallyBlock := CreateFinallyBlock(endBlock, unwindResumeBlock);
      assert finallyBlock == FINALLY;
    }

    method CreateCatchWrappedInvokeFunction(n: nat)
      requires blocks == []
      modifies this
      ensures blocks == GeneratedBlocks(n)
    {
      CreateBlocks();
      ghost var before := blocks;
      var catchBlocks := CreateCatchBlocks(n, FINALLY);
      assert forall b | 0 <= b < CATCHES :: blocks[b] == blocks[..CATCHES][b];
      Fill(ENTRY, [], Invoke(NORMAL, EXCEPTION));
      Fill(END, [Print(EndRun), DeleteStored], Return);
      Fill(NORMAL, [Print(NoException)], Goto(FINALLY));
      Fill(RESUME, [], Resume);
      Fill(EXCEPTION, [StoreResult, StoreException, StoreFlag(THROWN)], IfOurs(ROUTE, EXTERNAL));
      Fill(EXTERNAL, [Print(ForeignReceived)], Goto(FINALLY));
      var cases := RouteCases(n, catchBlocks);
      Fill(ROUTE, [Print(TypeReceived)], Switch(OnSelector, FINALLY, cases));
      PartsMakeWhole(blocks, n);
    }
  }

  lemma PartsMakeWhole(blocks: seq<Block>, n: nat)
    requires |blocks| == CATCHES + n
    requires forall b | 0 <= b < CATCHES :: blocks[b] == GeneratedBlocks(n)[b]
    requires forall i | 0 <= i < n :: blocks[CATCHES + i] == CatchBlock(i)
    ensures blocks == GeneratedBlocks(n)
  {
    forall b | 0 <= b < |blocks| ensures blocks[b] == GeneratedBlocks(n)[b] {
      if b >= CATCHES {
        assert blocks[CATCHES + (b - CATCHES)] == CatchBlock(b - CATCHES);
      }
    }
  }
}
