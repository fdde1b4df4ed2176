/** Instructions that keep several small fields in one 16-bit word, together with a bit that is not theirs and says
    whether the instruction has metadata. A machine word is the set of its one bits, so `&`, `|` and `& ~` are
    intersection, union and difference. */
module PackedFields {
  import opened Bytes
  import opened Leb128

  type Bits = set<nat>

  /** The number 2^k - 1. */
  function Ones(k: nat): (r: Bits)
    ensures forall i: nat :: i in r <==> i < k
  {
    if k == 0 then {} else Ones(k - 1) + {k - 1}
  }

  function Shl(x: Bits, s: nat): (r: Bits)
    ensures forall i: nat :: i in r <==> i >= s && i - s in x
  {
    var r := set i | i in x :: i + s;
    assert forall i: nat | i >= s && i - s in x :: i == (i - s) + s && i in r;
    r
  }

  function Shr(x: Bits, s: nat): (r: Bits)
    ensures forall i: nat :: i in r <==> i + s in x
  {
    var r: Bits := set i | i in x && i >= s :: i - s;
    assert forall i: nat | i + s in x :: i == (i + s) - s && i in r;
    r
  }

  // ---------- Numbers ----------

  /** The low `k` bits of `n`. */
  function Encode(n: nat, k: nat): Bits {
    set i | 0 <= i < k && n / Pow2(i) % 2 == 1
  }

  function Number(x: Bits, k: nat): nat {
    if k == 0 then 0 else Number(x, k - 1) + if k - 1 in x then Pow2(k - 1) else 0
  }

  lemma ModDouble(n: nat, m: nat)
    requires m >= 1
    ensures n % (2 * m) == n % m + if n / m % 2 == 1 then m else 0
  {
    var q, r := n / m, n % m;
    Distributes(q / 2, q % 2, m);
    ModUnique(n, 2 * m, q / 2, q % 2 * m + r);
  }

  lemma Distributes(h: nat, b: nat, m: nat)
    requires b < 2
    ensures (2 * h + b) * m == h * (2 * m) + b * m && b * m == if b == 1 then m else 0
  {
  }

  lemma {:induction false} NumberOfEncoded(n: nat, k: nat, width: nat)
    requires k <= width
    ensures Number(Encode(n, width), k) == n % Pow2(k)
  {
    if k > 0 {
      NumberOfEncoded(n, k - 1, width);
      ModDouble(n, Pow2(k - 1));
    }
  }

  lemma {:induction false} NumberOnly(x: Bits, y: Bits, k: nat)
    requires forall i | 0 <= i < k :: i in x <==> i in y
    ensures Number(x, k) == Number(y, k) < Pow2(k)
  {
    if k > 0 {
      NumberOnly(x, y, k - 1);
    }
  }

  // ---------- Layouts ----------

  datatype Kind = Load | Store | CmpXchg | Rmw | Fence | Call

  datatype Field = Volatile | Alignment | Scope | Ordering | Operation | TailCall | Convention | Metadata

  const METADATA_BIT: Bits := {15}

  predicate Has(kind: Kind, f: Field) {
    match f
    case Volatile => kind.Load? || kind.Store? || kind.CmpXchg? || kind.Rmw?
    case Alignment => kind.Load? || kind.Store?
    case Scope => !kind.Call?
    case Ordering => !kind.Call?
    case Operation => kind.Rmw?
    case TailCall => kind.Call?
    case Convention => kind.Call?
    case Metadata => true
  }

  /** The part of the word that belongs to the instruction's class. */
  function Data(w: Bits): Bits {
    w - METADATA_BIT
  }

  function ScopeBits(kind: Kind, data: Bits): Bits {
    if kind.Load? || kind.Store? then Shr(data, 6) * Ones(1)
    else if kind.Fence? then data * Ones(1)
    else Shr(data * {1}, 1)
  }

  function OrderingBits(kind: Kind, data: Bits): Bits {
    if kind.Load? || kind.Store? then Shr(data, 7) * Ones(3)
    else if kind.CmpXchg? then Shr(data, 2)
    else if kind.Rmw? then Shr(data, 2) * Ones(3)
    else Shr(data, 1)
  }

  /** What each getter computes. */
  function GetBits(kind: Kind, f: Field, w: Bits): Bits {
    var data := Data(w);
    match f
    case Volatile => data * Ones(1)
    case Alignment => Shr(data, 1) * Ones(5)
    case Scope => ScopeBits(kind, data)
    case Ordering => OrderingBits(kind, data)
    case Operation => Shr(data, 5)
    case TailCall => data * Ones(1)
    case Convention => Shr(data, 1)
    case Metadata => Shr(w * METADATA_BIT, 15)
  }

  /** What each setter hands to `setInstructionSubclassData`, before it is cut to 16 bits. */
  function NewData(kind: Kind, f: Field, v: Bits, data: Bits): Bits {
    match f
    case Volatile => (data - Ones(1)) + v
    case Alignment => (data - Shl(Ones(5), 1)) + Shl(v, 1)
    case Scope =>
      if kind.Load? || kind.Store? then (data - Shl(Ones(1), 6)) + Shl(v, 6)
      else if kind.Fence? then (data - Ones(1)) + v
      else (data - {1}) + Shl(v, 1)
    case Ordering =>
      if kind.Load? || kind.Store? then (data - Shl(Ones(3), 7)) + Shl(v, 7)
      else if kind.CmpXchg? then data * Ones(2) + Shl(v, 2)
      else if kind.Rmw? then (data - Shl(Ones(3), 2)) + Shl(v, 2)
      else data * Ones(1) + Shl(v, 1)
    case Operation => data * Ones(5) + Shl(v, 5)
    case TailCall => (data - Ones(1)) + v
    case Convention => data * Ones(1) + Shl(v, 1)
    case Metadata => data
  }

  function SetBits(kind: Kind, f: Field, v: Bits, w: Bits): Bits {
    if f.Metadata? then (w - METADATA_BIT) + (if 0 in v then METADATA_BIT else {})
    else w * METADATA_BIT + NewData(kind, f, v, Data(w)) * Ones(16)
  }

  /** Where a field starts and how many bits it has. */
  function Start(kind: Kind, f: Field): nat {
    match f
    case Volatile => 0
    case Alignment => 1
    case Scope => if kind.Load? || kind.Store? then 6 else if kind.Fence? then 0 else 1
    case Ordering => if kind.Load? || kind.Store? then 7 else if kind.Fence? then 1 else 2
    case Operation => 5
    case TailCall => 0
    case Convention => 1
    case Metadata => 15
  }

  function Width(kind: Kind, f: Field): nat {
    match f
    case Alignment => 5
    case Ordering => if kind.CmpXchg? then 13 else if kind.Fence? then 14 else 3
    case Operation => 10
    case Convention => 14
    case _ => 1
  }

  ghost predicate IsWord(w: Bits) {
    forall i | i in w :: i < 16
  }

  /** Each getter reads exactly the bits of its field. */
  lemma GetIsField(kind: Kind, f: Field, w: Bits)
    requires Has(kind, f) && IsWord(w)
    ensures forall i: nat :: i in GetBits(kind, f, w) <==> i < Width(kind, f) && i + Start(kind, f) in w
  {
    forall i: nat ensures i in GetBits(kind, f, w) <==> i < Width(kind, f) && i + Start(kind, f) in w {
      BitOfField(kind, f, w, i);
    }
  }

  lemma ScopeBit(kind: Kind, data: Bits, i: nat)
    requires Has(kind, Scope)
    ensures i in ScopeBits(kind, data) <==> i < 1 && i + Start(kind, Scope) in data
  {
    hide Ones, Shr;
    assert i in Ones(1) <==> i == 0;
  }

  lemma OrderingBit(kind: Kind, data: Bits, i: nat)
    requires Has(kind, Ordering) && forall j | j in data :: j < 15
    ensures i in OrderingBits(kind, data) <==> i < Width(kind, Ordering) && i + Start(kind, Ordering) in data
  {
    hide Ones, Shr;
  }

  lemma BitOfField(kind: Kind, f: Field, w: Bits, i: nat)
    requires Has(kind, f) && IsWord(w)
    ensures i in GetBits(kind, f, w) <==> i < Width(kind, f) && i + Start(kind, f) in w
  {
    hide Ones, Shr, ScopeBits, OrderingBits;
    if f.Scope? {
      ScopeBit(kind, Data(w), i);
    } else if f.Ordering? {
      OrderingBit(kind, Data(w), i);
    }
  }

  /** Each setter writes exactly the bits of its field, the value's bits that do not fit spilling over upwards. */
  lemma SetIsField(kind: Kind, f: Field, v: Bits, w: Bits)
    requires Has(kind, f) && IsWord(w) && !f.Metadata?
    ensures var start := Start(kind, f);
            forall j: nat :: j in SetBits(kind, f, v, w) <==>
              j < 16 && ((j in w && !(start <= j < start + Width(kind, f))) || (j >= start && j - start in v))
  {
    hide Ones, Shl, Shr;
  }

  // ---------- Getters and setters ----------

  function Get(kind: Kind, f: Field, w: Bits): nat {
    Number(GetBits(kind, f, w), 16)
  }

  /** The setter for `f`, given a C `unsigned`. */
  function Set(kind: Kind, f: Field, n: nat, w: Bits): Bits {
    SetBits(kind, f, Encode(n, 32), w)
  }

  lemma DivSmall(n: nat, m: nat)
    requires n < m
    ensures n / m == 0 && n % m == n
  {
  }

  lemma EncodeFits(n: nat, k: nat)
    requires n < Pow2(k)
    ensures forall i | i in Encode(n, 32) :: i < k
  {
    hide Pow2;
    forall i | i in Encode(n, 32) ensures i < k {
      if i >= k {
        Pow2Grows(k, i);
        DivSmall(n, Pow2(i));
        assert false;
      }
    }
  }

  lemma {:induction false} Pow2Grows(k: nat, i: nat)
    requires k <= i
    ensures Pow2(k) <= Pow2(i)
    decreases i
  {
    if k < i {
      Pow2Grows(k, i - 1);
    }
  }

  lemma {:induction false} NumberFits(x: Bits, width: nat, k: nat)
    requires (forall i | i in x :: i < width) && width <= k
    ensures Number(x, k) < Pow2(width)
    decreases k
  {
    if width < k {
      NumberFits(x, width, k - 1);
    } else {
      NumberOnly(x, x, k);
    }
  }

  lemma FieldsApart(kind: Kind, f: Field, g: Field, i: nat)
    requires Has(kind, f) && Has(kind, g) && f != g && i < Width(kind, g)
    ensures !(Start(kind, f) <= i + Start(kind, g) < Start(kind, f) + Width(kind, f))
    ensures Start(kind, f) + Width(kind, f) <= 16 && (!f.Metadata? ==> Start(kind, f) + Width(kind, f) <= 15)
  {
  }

  lemma FieldSize(kind: Kind, f: Field)
    requires Has(kind, f)
    ensures Start(kind, f) + Width(kind, f) <= if f.Metadata? then 16 else 15
  {
  }

  /** In bits: a value that fits is found in its field, and the other fields are as they were. */
  lemma SetGetBits(kind: Kind, f: Field, v: Bits, w: Bits, g: Field)
    requires Has(kind, f) && Has(kind, g) && IsWord(w) && forall i | i in v :: i < Width(kind, f)
    ensures IsWord(SetBits(kind, f, v, w))
    ensures forall i: nat ::
              i in GetBits(kind, g, SetBits(kind, f, v, w)) <==> i in (if f == g then v else GetBits(kind, g, w))
  {
    hide GetBits, NewData, Start, Width;
    assert IsWord(SetBits(kind, f, v, w)) by {
      if !f.Metadata? {
        SetIsField(kind, f, v, w);
      }
    }
    GetIsField(kind, g, w);
    GetIsField(kind, g, SetBits(kind, f, v, w));
    FieldSize(kind, f);
    FieldSize(kind, g);
    forall i: nat
      ensures i in GetBits(kind, g, SetBits(kind, f, v, w)) <==> i in (if f == g then v else GetBits(kind, g, w))
    {
      if i < Width(kind, g) {
        if f != g {
          FieldsApart(kind, f, g, i);
        }
        if f.Metadata? {
          MetadataField(kind);
        } else {
          SetIsField(kind, f, v, w);
        }
      }
    }
  }

  lemma MetadataField(kind: Kind)
    ensures Start(kind, Metadata) == 15 && Width(kind, Metadata) == 1
  {
  }

  /** Setting a field to a value that fits makes its getter return the value and leaves every other getter's result and
      the metadata bit as they were; and what is handed to `setInstructionSubclassData` passes its assertion. */
  lemma SetGet(kind: Kind, f: Field, n: nat, w: Bits, g: Field)
    requires Has(kind, f) && Has(kind, g) && IsWord(w) && n < Pow2(Width(kind, f))
    ensures IsWord(Set(kind, f, n, w))
    ensures Get(kind, g, Set(kind, f, n, w)) == if f == g then n else Get(kind, g, w)
    ensures !f.Metadata? ==> NewData(kind, f, Encode(n, 32), Data(w)) <= Ones(15)
  {
    hide GetBits, SetBits, NewData, Width, Start, Pow2, Number, Encode, IsWord;
    var v := Encode(n, 32);
    EncodeFits(n, Width(kind, f));
    SetGetBits(kind, f, v, w, g);
    NumberOnly(GetBits(kind, g, SetBits(kind, f, v, w)), if f == g then v else GetBits(kind, g, w), 16);
    NumberOfEncoded(n, 16, 32);
    FieldSize(kind, f);
    Pow2Grows(Width(kind, f), 16);
    DivSmall(n, Pow2(16));
    if !f.Metadata? {
      NewDataFits(kind, f, v, w);
    }
  }

  lemma NewDataFits(kind: Kind, f: Field, v: Bits, w: Bits)
    requires Has(kind, f) && IsWord(w) && forall i | i in v :: i < Width(kind, f)
    ensures NewData(kind, f, v, Data(w)) <= Ones(15)
  {
    hide Ones, Shl, Shr;
  }

  /** A value that does not fit is never read back. */
  lemma RangeIsExact(kind: Kind, f: Field, n: nat, w: Bits)
    requires Has(kind, f) && IsWord(w)
    ensures Get(kind, f, Set(kind, f, n, w)) == n <==> n < Pow2(Width(kind, f))
  {
    if n < Pow2(Width(kind, f)) {
      SetGet(kind, f, n, w, f);
    } else {
      var w' := Set(kind, f, n, w);
      assert IsWord(w') by {
        if !f.Metadata? {
          SetIsField(kind, f, Encode(n, 32), w);
        }
      }
      GetIsField(kind, f, w');
      FieldSize(kind, f);
      NumberFits(GetBits(kind, f, w'), Width(kind, f), 16);
    }
  }

  // ---------- Histories ----------

  datatype SetCall = SetCall(f: Field, n: nat)

  ghost predicate Proper(kind: Kind, calls: seq<SetCall>) {
    forall i | 0 <= i < |calls| :: Has(kind, calls[i].f) && calls[i].n < Pow2(Width(kind, calls[i].f))
  }

  function SetAll(kind: Kind, calls: seq<SetCall>, w: Bits): Bits {
    if calls == [] then w else SetAll(kind, calls[1..], Set(kind, calls[0].f, calls[0].n, w))
  }

  /** The value of the last call for `g`, or `before` if there is none. */
  function Last(calls: seq<SetCall>, g: Field, before: nat): nat {
    if calls == [] then before
    else if calls[|calls| - 1].f == g then calls[|calls| - 1].n
    else Last(calls[..|calls| - 1], g, before)
  }

  lemma {:induction false} LastOfRest(calls: seq<SetCall>, g: Field, before: nat)
    requires calls != []
    ensures Last(calls, g, before) == Last(calls[1..], g, if calls[0].f == g then calls[0].n else before)
    decreases |calls|
  {
    if |calls| == 1 {
      assert calls[..0] == [] && calls[1..] == [];
    } else {
      LastOfRest(calls[..|calls| - 1], g, before);
      assert calls[..|calls| - 1][1..] == calls[1..][..|calls| - 2];
    }
  }

  /** After any sequence of setter calls with values in range, each getter returns what was last set for its field. */
  lemma {:induction false} GettersReturnLastSet(kind: Kind, calls: seq<SetCall>, w: Bits, g: Field)
    requires Proper(kind, calls) && Has(kind, g) && IsWord(w)
    ensures Get(kind, g, SetAll(kind, calls, w)) == Last(calls, g, Get(kind, g, w))
    decreases |calls|
  {
    if calls != [] {
      var w' := Set(kind, calls[0].f, calls[0].n, w);
      SetGet(kind, calls[0].f, calls[0].n, w, g);
      LastOfRest(calls, g, Get(kind, g, w));
      GettersReturnLastSet(kind, calls[1..], w', g);
    }
  }

  // ---------- Alignments ----------

  function Log2(a: nat): nat {
    if a < 2 then 0 else 1 + Log2(a / 2)
  }

  /** How an alignment is stored: 0 for none, otherwise its logarithm plus one. */
  function AlignmentCode(a: nat): nat {
    if a == 0 then 0 else Log2(a) + 1
  }

  function AlignmentOf(code: nat): nat {
    Pow2(code) / 2
  }

  lemma {:induction false} Log2Floor(a: nat)
    requires a >= 1
    ensures Pow2(Log2(a)) <= a < 2 * Pow2(Log2(a))
  {
    if a >= 2 {
      Log2Floor(a / 2);
    }
  }

  lemma {:induction false} Log2OfPow2(j: nat)
    ensures Log2(Pow2(j)) == j
  {
    if j > 0 {
      Log2OfPow2(j - 1);
    }
  }

  ghost predicate PowerOfTwo(a: nat) {
    exists j: nat :: a == Pow2(j)
  }

  /** What is read back is the alignment exactly if it is none or a power of two, as `setAlignment` asserts, and every
      alignment up to the maximum fits its field. */
  lemma AlignmentRoundTrip(a: nat)
    ensures AlignmentOf(AlignmentCode(a)) == a <==> a == 0 || PowerOfTwo(a)
    ensures a <= 0x2000_0000 ==> AlignmentCode(a) < 32
  {
    if a > 0 {
      Log2Floor(a);
      assert AlignmentOf(AlignmentCode(a)) == Pow2(Log2(a));
      if PowerOfTwo(a) {
        var j: nat :| a == Pow2(j);
        Log2OfPow2(j);
      }
      if a <= 0x2000_0000 {
        LogBound(a);
      }
    }
  }

  lemma LogBound(a: nat)
    requires 1 <= a <= 0x2000_0000
    ensures Log2(a) <= 29
  {
    Powers();
    assert Pow2(30) == 2 * Pow2(29) && Pow2(29) == 2 * Pow2(28);
    Log2Floor(a);
    if Log2(a) > 29 {
      Pow2Grows(30, Log2(a));
      assert false;
    }
  }

  // ---------- The classes ----------

  /** A load, store, fence, cmpxchg, atomicrmw or call: its word, and the setters that its class has. */
  class Instruction {
    const kind: Kind
    var subclassData: Bits

    ghost predicate Valid()
      reads this
    {
      IsWord(subclassData)
    }

    function Field(f: Field): nat
      reads this
    {
      Get(kind, f, subclassData)
    }

    constructor (kind: Kind)
      ensures this.kind == kind && Valid() && subclassData == {}
    {
      this.kind, subclassData := kind, {};
    }

    /** Only the low 15 bits may be used; the highest one is kept. */
    method SetInstructionSubclassData(d: Bits)
      requires d <= Ones(15)
      modifies this
      ensures Data(subclassData) == d && (15 in subclassData <==> 15 in old(subclassData))
    {
      subclassData := subclassData * METADATA_BIT + d;
    }

    method SetHasMetadataHashEntry(v: bool)
      requires Valid()
      modifies this
      ensures Valid() && Field(Metadata) == if v then 1 else 0
      ensures forall g | Has(kind, g) && g != Metadata :: Field(g) == old(Field(g))
    {
      ghost var n, w := if v then 1 else 0, subclassData;
      subclassData := (subclassData - METADATA_BIT) + if v then METADATA_BIT else {};
      assert subclassData == Set(kind, Metadata, n, w) by {
        assert Pow2(0) == 1 && (0 in Encode(n, 32) <==> v);
      }
      forall g | Has(kind, g) ensures Field(g) == if g == Metadata then n else Get(kind, g, w) {
        assert Pow2(1) == 2;
        SetGet(kind, Metadata, n, w, g);
      }
    }

    /** Any other setter. */
    method SetField(f: Field, n: nat)
      requires Valid() && Has(kind, f) && !f.Metadata? && n < Pow2(Width(kind, f))
      modifies this
      ensures Valid() && Field(f) == n
      ensures forall g | Has(kind, g) && g != f :: Field(g) == old(Field(g))
    {
      hide Get, SetBits, NewData, Width, Has, Number;
      ghost var w := subclassData;
      var d := NewData(kind, f, Encode(n, 32), Data(subclassData));
      SetGet(kind, f, n, w, f);
      SetInstructionSubclassData(d);
      CutToWord(kind, f, n, w, d, subclassData);
      forall g | Has(kind, g) ensures Field(g) == if g == f then n else Get(kind, g, w) {
        SetGet(kind, f, n, w, g);
      }
    }

    method SetVolatile(v: bool)
      requires Valid() && (kind.Load? || kind.Store? || kind.CmpXchg? || kind.Rmw?)
      modifies this
      ensures Valid() && Field(Volatile) == if v then 1 else 0
      ensures forall g | Has(kind, g) && g != Volatile :: Field(g) == old(Field(g))
    {
      assert Pow2(1) == 2;
      SetField(Volatile, if v then 1 else 0);
    }

    method SetAlignment(align: nat)
      requires Valid() && (kind.Load? || kind.Store?) && align <= 0x2000_0000 && (align == 0 || PowerOfTwo(align))
      modifies this
      ensures Valid() && AlignmentOf(Field(Alignment)) == align
      ensures forall g | Has(kind, g) && g != Alignment :: Field(g) == old(Field(g))
    {
      AlignmentRoundTrip(align);
      assert Pow2(5) == 32 by {
        assert Pow2(3) == 8;
      }
      SetField(Alignment, AlignmentCode(align));
    }

    method SetOperation(operation: nat)
      requires Valid() && kind.Rmw? && operation < 0x400
      modifies this
      ensures Valid() && Field(Operation) == operation
      ensures forall g | Has(kind, g) && g != Operation :: Field(g) == old(Field(g))
    {
      SmallPowers();
      SetField(Operation, operation);
    }

    method SetTailCall(v: bool)
      requires Valid() && kind.Call?
      modifies this
      ensures Valid() && Field(TailCall) == if v then 1 else 0
      ensures forall g | Has(kind, g) && g != TailCall :: Field(g) == old(Field(g))
    {
      SmallPowers();
      SetField(TailCall, if v then 1 else 0);
    }

    method SetCallingConv(convention: nat)
      requires Valid() && kind.Call? && convention < 0x4000
      modifies this
      ensures Valid() && Field(Convention) == convention
      ensures forall g | Has(kind, g) && g != Convention :: Field(g) == old(Field(g))
    {
      SmallPowers();
      SetField(Convention, convention);
    }

    /** An ordering and a scope at once. */
    method SetAtomic(ordering: nat, scope: nat)
      requires Valid() && !kind.Call? && ordering < 8 && scope < 2
      modifies this
      ensures Valid() && Field(Ordering) == ordering && Field(Scope) == scope
      ensures forall g | Has(kind, g) && g != Ordering && g != Scope :: Field(g) == old(Field(g))
    {
      assert Pow2(3) == 8 && Pow2(1) == 2;
      Pow2Grows(3, Width(kind, Ordering));
      SetField(Ordering, ordering);
      SetField(Scope, scope);
    }
  }

  lemma SmallPowers()
    ensures Pow2(1) == 2 && Pow2(10) == 0x400 && Pow2(14) == 0x4000
  {
    Powers();
    assert Pow2(10) == 2 * Pow2(9) && Pow2(9) == 2 * Pow2(8) && Pow2(8) == 2 * Pow2(7);
  }

  lemma CutToWord(kind: Kind, f: Field, n: nat, w: Bits, d: Bits, w': Bits)
    requires !f.Metadata? && d == NewData(kind, f, Encode(n, 32), Data(w)) && d <= Ones(15)
    requires Data(w') == d && (15 in w' <==> 15 in w)
    ensures Set(kind, f, n, w) == w'
  {
    hide NewData;
    assert d * Ones(16) == d;
    assert w' == d + w * METADATA_BIT;
  }
}
