/** The phi instruction as it is built: incoming values and incoming blocks in two parallel arrays that grow. */
module PhiNode {
  import opened Wrappers
  import opened BrainfIr

  function Lists(values: seq<Reg>, blocks: seq<BlockId>): (r: seq<Incoming>)
    requires |values| == |blocks|
    ensures |r| == |values| && forall i | 0 <= i < |r| :: r[i] == Incoming(values[i], blocks[i])
  {
    seq(|values|, i requires 0 <= i < |values| => Incoming(values[i], blocks[i]))
  }

  /** The first value for a block is the one that the phi takes from there. */
  lemma {:induction false} PhiValueIsFirst(incoming: seq<Incoming>, i: nat)
    requires i < |incoming| && forall j | 0 <= j < i :: incoming[j].from != incoming[i].from
    ensures PhiValue(incoming, incoming[i].from) == Some(incoming[i].value)
  {
    if i > 0 {
      assert incoming[1..][i - 1] == incoming[i];
      assert forall j | 0 <= j < i - 1 :: incoming[1..][j] == incoming[j + 1];
      PhiValueIsFirst(incoming[1..], i - 1);
    }
  }

  lemma {:induction false} PhiValueAbsent(incoming: seq<Incoming>, from: BlockId)
    requires forall i | 0 <= i < |incoming| :: incoming[i].from != from
    ensures PhiValue(incoming, from) == None
  {
    if incoming != [] {
      assert forall i | 0 <= i < |incoming[1..]| :: incoming[1..][i] == incoming[i + 1];
      PhiValueAbsent(incoming[1..], from);
    }
  }

  /** A value added for a block that has none yet is the one taken from there, and nothing else changes. */
  lemma {:induction false} PhiValueAdded(incoming: seq<Incoming>, more: Incoming, from: BlockId)
    ensures PhiValue(incoming + [more], from)
            == if PhiValue(incoming, from) == None && more.from == from then Some(more.value)
               else PhiValue(incoming, from)
  {
    if incoming == [] {
      assert (incoming + [more])[1..] == [];
    } else {
      assert (incoming + [more])[1..] == incoming[1..] + [more];
      PhiValueAdded(incoming[1..], more, from);
    }
  }

  function Without<T>(s: seq<T>, k: nat): (r: seq<T>)
    requires k < |s|
    ensures |r| == |s| - 1 && forall j | 0 <= j < |r| :: r[j] == s[if j < k then j else j + 1]
  {
    s[..k] + s[k + 1..]
  }

  lemma ListsWithout(values: seq<Reg>, blocks: seq<BlockId>, k: nat)
    requires |values| == |blocks| && k < |values|
    ensures Lists(Without(values, k), Without(blocks, k)) == Without(Lists(values, blocks), k)
  {
  }

  /** Without the pair at `k` the phi takes what it took from every other block, and nothing from the block of that pair
      if it was the only one for it. */
  lemma PhiValueRemoved(incoming: seq<Incoming>, k: nat, from: BlockId)
    requires k < |incoming|
    ensures from != incoming[k].from ==> PhiValue(Without(incoming, k), from) == PhiValue(incoming, from)
    ensures (forall j | 0 <= j < |incoming| && j != k :: incoming[j].from != incoming[k].from) ==>
              PhiValue(Without(incoming, k), incoming[k].from) == None
  {
    if from != incoming[k].from {
      PhiValueSkips(incoming, k, from);
    }
    if forall j | 0 <= j < |incoming| && j != k :: incoming[j].from != incoming[k].from {
      PhiValueAbsent(Without(incoming, k), incoming[k].from);
    }
  }

  lemma {:induction false} PhiValueSkips(incoming: seq<Incoming>, k: nat, from: BlockId)
    requires k < |incoming| && from != incoming[k].from
    ensures PhiValue(Without(incoming, k), from) == PhiValue(incoming, from)
  {
    if k == 0 {
      assert Without(incoming, k) == incoming[1..];
    } else {
      assert Without(incoming, k)[1..] == Without(incoming[1..], k - 1);
      PhiValueSkips(incoming[1..], k - 1, from);
    }
  }

  /** Element `k` is overwritten by those after it. */
  method ShiftDown(a: array<nat>, k: nat, n: nat)
    requires k < n <= a.Length
    modifies a
    ensures a[..n - 1] == Without(old(a[..n]), k)
  {
    for i := k + 1 to n
      invariant forall j | 0 <= j < i - 1 :: a[j] == old(a[if j < k then j else j + 1])
      invariant forall j | i - 1 <= j < n :: a[j] == old(a[j])
    {
      a[i - 1] := a[i];
    }
  }

  class PHINode {
    var values: array<Reg>
    var blocks: array<BlockId>
    var numOperands: nat
    /** The phi still stands in a block; its uses have not been replaced by an undefined value. */
    var inBlock: bool

    ghost predicate Valid()
      reads this
    {
      numOperands <= values.Length == blocks.Length && values != blocks
    }

    ghost function Contents(): seq<Incoming>
      reads this, values, blocks
      requires Valid()
    {
      Lists(values[..numOperands], blocks[..numOperands])
    }

    constructor (reserved: nat)
      ensures Valid() && fresh(values) && fresh(blocks) && values.Length == reserved && Contents() == []
    {
      values := new Reg[reserved];
      blocks := new BlockId[reserved];
      numOperands := 0;
      inBlock := true;
    }

    /** Half as much space again, and at least 2. */
    method GrowOperands()
      requires Valid()
      modifies this`values, this`blocks
      ensures Valid() && fresh(values) && fresh(blocks) && Contents() == old(Contents())
      ensures numOperands == old(values.Length) ==> values.Length > numOperands
    {
      var e := numOperands;
      var numOps := if e + e / 2 < 2 then 2 else e + e / 2;
      var newValues, newBlocks := new Reg[numOps], new BlockId[numOps];
      ghost var wereValues, wereBlocks := values[..e], blocks[..e];
      for i := 0 to e
        modifies newValues, newBlocks
        invariant newValues[..i] == wereValues[..i] && newBlocks[..i] == wereBlocks[..i]
      {
        newValues[i], newBlocks[i] := values[i], blocks[i];
        assert wereValues[..i + 1] == wereValues[..i] + [wereValues[i]];
        assert wereBlocks[..i + 1] == wereBlocks[..i] + [wereBlocks[i]];
      }
      values, blocks := newValues, newBlocks;
      assert values[..e] == wereValues && blocks[..e] == wereBlocks;
    }

    method AddIncoming(value: Reg, from: BlockId)
      requires Valid()
      modifies this, values, blocks
      ensures Valid() && Contents() == old(Contents()) + [Incoming(value, from)]
    {
      ghost var was := Contents();
      if numOperands == values.Length {
        GrowOperands();
      }
      assert Contents() == was;
      ghost var wereValues, wereBlocks := values[..numOperands], blocks[..numOperands];
      numOperands := numOperands + 1;
      values[numOperands - 1] := value;
      blocks[numOperands - 1] := from;
      assert values[..numOperands] == wereValues + [value] && blocks[..numOperands] == wereBlocks + [from];
    }

    /** Everything after the value moves down; a phi left without values is deleted, if that is asked for. */
    method RemoveIncomingValue(k: nat, deletePHIIfEmpty: bool) returns (removed: Reg)
      requires Valid() && k < numOperands
      modifies this`numOperands, this`inBlock, values, blocks
      ensures inBlock == (old(inBlock) && !(deletePHIIfEmpty && old(numOperands) == 1))
      ensures Valid() && Contents() == Without(old(Contents()), k)
      ensures numOperands == old(numOperands) - 1
      ensures forall j | 0 <= j < numOperands :: Contents()[j] == old(Contents())[if j < k then j else j + 1]
      ensures removed == old(values[k])
    {
      removed := values[k];
      hide Lists, Without;
      ListsWithout(values[..numOperands], blocks[..numOperands], k);
      ShiftDown(values, k, numOperands);
      ShiftDown(blocks, k, numOperands);
      numOperands := numOperands - 1;
      if numOperands == 0 && deletePHIIfEmpty {
        inBlock := false;
      }
    }

    /** The first place of a block, or -1. */
    method GetBasicBlockIndex(from: BlockId) returns (index: int)
      requires Valid()
      ensures -1 <= index < numOperands
      ensures forall j | 0 <= j < (if index >= 0 then index else numOperands) :: blocks[j] != from
      ensures index >= 0 ==> blocks[index] == from
    {
      for i := 0 to numOperands
        invariant forall j | 0 <= j < i :: blocks[j] != from
      {
        if blocks[i] == from {
          return i;
        }
      }
      return -1;
    }

    /** What the phi gives when control comes from a block. */
    method GetIncomingValueForBlock(from: BlockId) returns (value: Option<Reg>)
      requires Valid()
      ensures value == PhiValue(Contents(), from)
    {
      var index := GetBasicBlockIndex(from);
      if index >= 0 {
        PhiValueIsFirst(Contents(), index);
        value := Some(values[index]);
      } else {
        PhiValueAbsent(Contents(), from);
        value := None;
      }
    }
  }
}
