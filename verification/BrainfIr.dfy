/** The part of the LLVM intermediate representation that the compiler emits, with a step semantics.
    Pointers are offsets from the start of the one allocation; blocks are numbered as they are created. */
module BrainfIr {
  import opened Bytes
  import opened Wrappers
  import opened BrainfMeaning

  type Reg = nat
  type BlockId = nat
  type Block = seq<Instr>

  datatype Incoming = Incoming(value: Reg, from: BlockId)

  datatype Instr =
    | Malloc(dst: Reg, size: nat)
    | Memset(ptr: Reg, size: nat)
    | Gep(dst: Reg, base: Reg, offset: int)
    | GetChar(dst: Reg)
    | Trunc(dst: Reg, src: Reg)
    | SExt(dst: Reg, src: Reg)
    | Load(dst: Reg, ptr: Reg)
    | Store(src: Reg, ptr: Reg)
    | PutChar(src: Reg)
    | AddI8(dst: Reg, src: Reg, amount: byte)
    | IcmpUge(dst: Reg, left: Reg, right: Reg)
    | IcmpUlt(dst: Reg, left: Reg, right: Reg)
    | IcmpZero(dst: Reg, src: Reg)
    | Or(dst: Reg, left: Reg, right: Reg)
    | Phi(dst: Reg, incoming: seq<Incoming>)
    | Puts
    | Free(ptr: Reg)
    | Br(target: BlockId)
    | CondBr(cond: Reg, yes: BlockId, no: BlockId)
    | Ret
  {
    predicate IsTerminator() {
      Br? || CondBr? || Ret?
    }
  }

  /** The allocation: not yet made (with the bytes it will be found to hold), in use, or released. */
  datatype Heap =
    | Fresh(junk: seq<byte>)
    | Live(cells: seq<byte>)
    | Freed(cells: seq<byte>)

  /** What the running program shares with its surroundings. */
  datatype Io = Io(heap: Heap, input: seq<byte>, output: seq<Event>)

  datatype Machine = Machine(prev: BlockId, block: BlockId, pc: nat, env: map<Reg, int>, io: Io) {
    /** `r` gets a value; go on with the next instruction. */
    function Define(r: Reg, v: int): Machine {
      this.(env := env[r := v], pc := pc + 1)
    }

    /** The surroundings change; go on with the next instruction. */
    function With(io': Io): Machine {
      this.(io := io', pc := pc + 1)
    }

    function Goto(target: BlockId): Machine {
      this.(prev := block, block := target, pc := 0)
    }

    /** The address in `r` is inside the allocation while that is in use. */
    predicate Accessible(r: Reg)
      requires r in env
    {
      io.heap.Live? && 0 <= env[r] < |io.heap.cells|
    }
  }

  datatype Config =
    | Active(m: Machine)
    | Halted(io: Io)
    | Trapped(io: Io)
    | Stuck

  function Boot(junk: seq<byte>, input: seq<byte>): Config {
    Active(Machine(0, 0, 0, map[], Io(Fresh(junk), input, [])))
  }

  function Signed(b: byte): (n: int)
    ensures -128 <= n < 128 && n % 256 == b
  {
    if b < 128 then b else b - 256
  }

  function Bit(b: bool): int {
    if b then 1 else 0
  }

  /** The value a phi takes when control comes from block `from`. */
  function PhiValue(incoming: seq<Incoming>, from: BlockId): Option<Reg> {
    if incoming == [] then None
    else if incoming[0].from == from then Some(incoming[0].value)
    else PhiValue(incoming[1..], from)
  }

  /** The registers an instruction reads, other than through a phi. */
  function Uses(i: Instr): set<Reg> {
    match i
    case Memset(ptr, _) => {ptr}
    case Gep(_, base, _) => {base}
    case Trunc(_, src) => {src}
    case SExt(_, src) => {src}
    case Load(_, ptr) => {ptr}
    case Store(src, ptr) => {src, ptr}
    case PutChar(src) => {src}
    case AddI8(_, src, _) => {src}
    case IcmpUge(_, left, right) => {left, right}
    case IcmpUlt(_, left, right) => {left, right}
    case IcmpZero(_, src) => {src}
    case Or(_, left, right) => {left, right}
    case Free(ptr) => {ptr}
    case CondBr(cond, _, _) => {cond}
    case _ => {}
  }

  /** One instruction, whose registers have all been written. Touching memory outside the allocation traps;
      a phi without a value for the edge taken makes the machine stuck. */
  function Obey(i: Instr, m: Machine): Config
    requires Uses(i) <= m.env.Keys
  {
    var io := m.io;
    match i
    case Malloc(dst, size) =>
      if io.heap.Fresh? && |io.heap.junk| == size then
        Active(m.With(io.(heap := Live(io.heap.junk))).(env := m.env[dst := 0]))
      else Stuck
    case Memset(ptr, size) =>
      if io.heap.Live? && m.env[ptr] == 0 && size == |io.heap.cells| then
        Active(m.With(io.(heap := Live(Zeros(size)))))
      else Trapped(io)
    case Gep(dst, base, offset) => Active(m.Define(dst, m.env[base] + offset))
    case GetChar(dst) =>
      if io.input == [] then Active(m.Define(dst, -1))
      else Active(m.With(io.(input := io.input[1..])).(env := m.env[dst := io.input[0]]))
    case Trunc(dst, src) => Active(m.Define(dst, Wrap(m.env[src])))
    case SExt(dst, src) => Active(m.Define(dst, Signed(Wrap(m.env[src]))))
    case Load(dst, ptr) =>
      if m.Accessible(ptr) then Active(m.Define(dst, io.heap.cells[m.env[ptr]])) else Trapped(io)
    case Store(src, ptr) =>
      if m.Accessible(ptr) then
        Active(m.With(io.(heap := Live(io.heap.cells[m.env[ptr] := Wrap(m.env[src])]))))
      else Trapped(io)
    case PutChar(src) => Active(m.With(io.(output := io.output + [Put(Wrap(m.env[src]))])))
    case AddI8(dst, src, amount) => Active(m.Define(dst, Wrap(m.env[src] + amount)))
    case IcmpUge(dst, left, right) => Active(m.Define(dst, Bit(m.env[left] >= m.env[right])))
    case IcmpUlt(dst, left, right) => Active(m.Define(dst, Bit(m.env[left] < m.env[right])))
    case IcmpZero(dst, src) => Active(m.Define(dst, Bit(m.env[src] == 0)))
    case Or(dst, left, right) => Active(m.Define(dst, Bit(m.env[left] != 0 || m.env[right] != 0)))
    case Phi(dst, incoming) =>
      var v := PhiValue(incoming, m.prev);
      if v.Some? && v.value in m.env then Active(m.Define(dst, m.env[v.value])) else Stuck
    case Puts => Active(m.With(io.(output := io.output + [ErrorLine])))
    case Free(ptr) =>
      if io.heap.Live? && m.env[ptr] == 0 then Active(m.With(io.(heap := Freed(io.heap.cells)))) else Trapped(io)
    case Br(target) => Active(m.Goto(target))
    case CondBr(cond, yes, no) => Active(m.Goto(if m.env[cond] != 0 then yes else no))
    case Ret => Halted(io)
  }

  /** One step. Running past the end of a block or reading a register never written makes the machine stuck. */
  function Step(fn: seq<Block>, c: Config): Config {
    if !c.Active? then c
    else if c.m.block < |fn| && c.m.pc < |fn[c.m.block]| && Uses(fn[c.m.block][c.m.pc]) <= c.m.env.Keys then
      Obey(fn[c.m.block][c.m.pc], c.m)
    else Stuck
  }

  function Run(fn: seq<Block>, c: Config, k: nat): Config
    decreases k
  {
    if k == 0 then c else Run(fn, Step(fn, c), k - 1)
  }

  lemma {:induction false} RunAdd(fn: seq<Block>, c: Config, j: nat, k: nat)
    ensures Run(fn, c, j + k) == Run(fn, Run(fn, c, j), k)
    decreases j
  {
    if j != 0 {
      RunAdd(fn, Step(fn, c), j - 1, k);
    }
  }

  /** `c'` is where `c` is after `k` steps; stated for all continuations, so that it composes without running. */
  ghost predicate Reached(fn: seq<Block>, c: Config, k: nat, c': Config) {
    forall j: nat {:trigger Run(fn, c', j)} :: Run(fn, c, k + j) == Run(fn, c', j)
  }

  lemma ReachedIsRun(fn: seq<Block>, c: Config, k: nat, c': Config)
    ensures Reached(fn, c, k, c') <==> c' == Run(fn, c, k)
  {
    if Reached(fn, c, k, c') {
      assert Run(fn, c', 0) == c';
    }
    if c' == Run(fn, c, k) {
      forall j: nat ensures Run(fn, c, k + j) == Run(fn, c', j) {
        RunAdd(fn, c, k, j);
      }
    }
  }

  lemma ReachedAdd(fn: seq<Block>, c: Config, j: nat, c1: Config, k: nat, c2: Config)
    requires Reached(fn, c, j, c1) && Reached(fn, c1, k, c2)
    ensures Reached(fn, c, j + k, c2)
  {
    ReachedIsRun(fn, c, j, c1);
    ReachedIsRun(fn, c1, k, c2);
    ReachedIsRun(fn, c, j + k, c2);
    RunAdd(fn, c, j, k);
  }

  lemma {:induction false} FinalStays(fn: seq<Block>, c: Config, k: nat)
    requires !c.Active?
    ensures Run(fn, c, k) == c
  {
    if k != 0 {
      FinalStays(fn, c, k - 1);
    }
  }

  function Output(c: Config): seq<Event> {
    match c
    case Active(m) => m.io.output
    case Halted(io) => io.output
    case Trapped(io) => io.output
    case Stuck => []
  }

  lemma {:induction false} OutputGrows(fn: seq<Block>, c: Config, k: nat)
    requires !Run(fn, c, k).Stuck?
    ensures Output(c) <= Output(Run(fn, c, k))
    decreases k
  {
    if k != 0 {
      if Step(fn, c).Stuck? {
        FinalStays(fn, Step(fn, c), k - 1);
      }
      OutputGrows(fn, Step(fn, c), k - 1);
      assert Output(c) <= Output(Step(fn, c));
    }
  }
}
