/** The switch instruction: one flat array of operands that holds the condition, the default destination and then a
    value and a destination for each case. */
module SwitchInst {
  /** A pointer to a value or block; 0 is null. */
  type Ref = nat

  /** The unsigned 32-bit number -2, which stands for the default case. */
  const DEFAULT_PSEUDO_INDEX := 0xFFFF_FFFE

  /** Values of C's `unsigned`. */
  const UNSIGNED := 0x1_0000_0000

  datatype Case = Case(value: Ref, dest: Ref)

  // ---------- Case lists ----------

  /** The position of the first case for `value`, or that of the default. */
  function FirstCase(cases: seq<Case>, value: Ref): (i: nat)
    ensures i <= |cases|
    ensures forall j | 0 <= j < i :: cases[j].value != value
    ensures i < |cases| ==> cases[i].value == value
  {
    if cases == [] then 0 else if cases[0].value == value then 0 else FirstCase(cases[1..], value) + 1
  }

  /** Where the switch goes for `value`. */
  function Goes(cases: seq<Case>, default: Ref, value: Ref): Ref {
    var i := FirstCase(cases, value);
    if i < |cases| then cases[i].dest else default
  }

  function Swapped(cases: seq<Case>, k: nat): seq<Case>
    requires k < |cases|
  {
    cases[k := cases[|cases| - 1]][..|cases| - 1]
  }

  lemma FirstIs(cases: seq<Case>, value: Ref, i: nat)
    requires i < |cases| && cases[i].value == value && forall j | 0 <= j < i :: cases[j].value != value
    ensures FirstCase(cases, value) == i
  {
  }

  lemma FirstAbsent(cases: seq<Case>, value: Ref)
    requires forall i | 0 <= i < |cases| :: cases[i].value != value
    ensures FirstCase(cases, value) == |cases|
  {
  }

  /** A new case changes where its own value goes, if that had no case, and nothing else. */
  lemma AddedGoes(cases: seq<Case>, c: Case, default: Ref, value: Ref)
    ensures Goes(cases + [c], default, value)
            == if value == c.value && FirstCase(cases, value) == |cases| then c.dest else Goes(cases, default, value)
  {
    var all := cases + [c];
    var i, j := FirstCase(cases, value), FirstCase(all, value);
    if i < |cases| {
      assert all[i] == cases[i];
      assert j <= i;
      assert all[j] == cases[j];
    } else {
      assert forall k | 0 <= k < |cases| :: all[k] == cases[k];
      assert all[|cases|] == c;
    }
  }

  /** Removing a case, which moves the last one into its place, sends its value to the default and changes nothing for
      any other value, for the values that do not have two cases. */
  lemma RemovedGoes(cases: seq<Case>, k: nat, default: Ref, value: Ref)
    requires k < |cases|
    requires forall i, j | 0 <= i < j < |cases| && cases[i].value == value :: cases[j].value != value
    ensures Goes(Swapped(cases, k), default, value)
            == if value == cases[k].value then default else Goes(cases, default, value)
  {
    var rest, last := Swapped(cases, k), |cases| - 1;
    assert forall i | 0 <= i < last :: rest[i] == if i == k then cases[last] else cases[i];
    var i := FirstCase(cases, value);
    if i == |cases| || i == k {
      FirstAbsent(rest, value);
    } else {
      FirstIs(rest, value, if i == last then k else i);
    }
  }

  /** No two cases for a value arise. */
  lemma RemovedDistinct(cases: seq<Case>, k: nat)
    requires k < |cases| && forall i, j | 0 <= i < j < |cases| :: cases[i].value != cases[j].value
    ensures var rest := Swapped(cases, k); forall i, j | 0 <= i < j < |rest| :: rest[i].value != rest[j].value
  {
  }

  /** And it removes that case and no other. */
  lemma RemovedCases(cases: seq<Case>, k: nat)
    requires k < |cases|
    ensures multiset(Swapped(cases, k)) == multiset(cases) - multiset{cases[k]}
  {
    var last := cases[|cases| - 1];
    var moved := cases[k := last];
    assert multiset(cases) - multiset{cases[k]} == multiset(moved) - multiset{last};
    assert moved == Swapped(cases, k) + [last];
  }

  // ---------- Iterators ----------

  function FromSuccessorIndex(successor: nat): nat {
    if successor != 0 then successor - 1 else DEFAULT_PSEUDO_INDEX
  }

  function SuccessorIndex(index: nat): nat {
    if index != DEFAULT_PSEUDO_INDEX then index + 1 else 0
  }

  /** On a switch with `n` cases the two conversions are inverse: between the `n + 1` successors, and the `n` cases
      with the default. */
  lemma SuccessorsAndCases(n: nat, successor: nat, index: nat)
    requires n < 0x8000_0000 && successor < n + 1 && (index < n || index == DEFAULT_PSEUDO_INDEX)
    ensures SuccessorIndex(FromSuccessorIndex(successor)) == successor
    ensures FromSuccessorIndex(SuccessorIndex(index)) == index
    ensures SuccessorIndex(index) < n + 1
    ensures FromSuccessorIndex(0) == 0xFFFF_FFFE && (successor > 0 ==> FromSuccessorIndex(successor) == successor - 1)
    ensures FromSuccessorIndex(successor) < n || FromSuccessorIndex(successor) == DEFAULT_PSEUDO_INDEX
  {
  }

  /** The cases that lead to `bb`. */
  function LeadingTo(cases: seq<Case>, bb: Ref): seq<Case> {
    if cases == [] then []
    else if cases[0].dest == bb then [cases[0]] + LeadingTo(cases[1..], bb)
    else LeadingTo(cases[1..], bb)
  }

  lemma {:induction false} LeadingToPrefix(cases: seq<Case>, k: nat, bb: Ref)
    requires k < |cases|
    ensures LeadingTo(cases[..k + 1], bb) == LeadingTo(cases[..k], bb) + if cases[k].dest == bb then [cases[k]] else []
  {
    if k == 0 {
      assert cases[..1][1..] == [] && cases[..0] == [];
    } else {
      LeadingToPrefix(cases[1..], k - 1, bb);
      assert cases[..k + 1][1..] == cases[1..][..k] && cases[..k][1..] == cases[1..][..k - 1];
    }
  }

  lemma {:induction false} LeadingToGrows(cases: seq<Case>, k: nat, bb: Ref)
    requires k <= |cases|
    ensures |LeadingTo(cases[..k], bb)| <= |LeadingTo(cases, bb)|
    decreases |cases| - k
  {
    if k < |cases| {
      LeadingToPrefix(cases, k, bb);
      LeadingToGrows(cases, k + 1, bb);
    } else {
      assert cases[..k] == cases;
    }
  }

  /** The cases in an operand list. */
  ghost function CasesOf(ops: seq<Ref>): (cases: seq<Case>)
    requires |ops| >= 2
    ensures |cases| == |ops| / 2 - 1
    ensures forall i | 0 <= i < |cases| :: cases[i] == Case(ops[2 + 2 * i], ops[3 + 2 * i])
  {
    seq(|ops| / 2 - 1, i requires 0 <= i < |ops| / 2 - 1 => Case(ops[2 + 2 * i], ops[3 + 2 * i]))
  }

  /** The operands after removing case `k`. */
  ghost function WithoutCase(ops: seq<Ref>, k: nat): seq<Ref>
    requires |ops| >= 4 && |ops| % 2 == 0 && k < |ops| / 2 - 1
  {
    ops[2 + k * 2 := ops[|ops| - 2]][2 + k * 2 + 1 := ops[|ops| - 1]][..|ops| - 2]
  }

  ghost predicate ValuesSet(ops: seq<Ref>)
    requires |ops| >= 2
  {
    forall i | 0 <= i < |ops| / 2 - 1 :: ops[2 + 2 * i] != 0
  }

  lemma RemovedOperands(ops: seq<Ref>, k: nat)
    requires |ops| >= 4 && |ops| % 2 == 0 && k < |ops| / 2 - 1 && ValuesSet(ops)
    ensures CasesOf(WithoutCase(ops, k)) == Swapped(CasesOf(ops), k) && ValuesSet(WithoutCase(ops, k))
    ensures WithoutCase(ops, k)[..2] == ops[..2]
  {
  }

  lemma AddedOperands(ops: seq<Ref>, value: Ref, dest: Ref)
    requires |ops| >= 2 && |ops| % 2 == 0 && ValuesSet(ops) && value != 0
    ensures CasesOf(ops + [value, dest]) == CasesOf(ops) + [Case(value, dest)] && ValuesSet(ops + [value, dest])
  {
  }

  /** How much room growing makes for `e` operands. */
  function Grown(e: nat): nat {
    e * 3 % UNSIGNED
  }

  /** Growing makes room for another case unless the product wraps to too little: it fails exactly from 0x55555556
      operands up to 2^31, and again where the product wraps twice. */
  lemma GrowthFailsExactly(e: nat)
    requires 2 <= e < UNSIGNED && e % 2 == 0
    ensures Grown(e) >= e + 2 <==> e <= 0x5555_5555 || 0x8000_0000 < e <= 0xAAAA_AAAA
    ensures e <= 0x5555_5555 ==> Grown(e) == 3 * e
    ensures 0x5555_5555 < e <= 0xAAAA_AAAA ==> Grown(e) == 3 * e - 0x1_0000_0000
  {
    if e <= 0x5555_5555 {
      assert e * 3 / UNSIGNED == 0;
    } else if e <= 0xAAAA_AAAA {
      assert e * 3 / UNSIGNED == 1;
    } else {
      assert e * 3 / UNSIGNED == 2;
    }
  }

  class Switch {
    var operands: array<Ref>
    var numOperands: nat

    ghost predicate Valid()
      reads this, operands
    {
      && 2 <= numOperands <= operands.Length && numOperands % 2 == 0 && numOperands < UNSIGNED
      && ValuesSet(operands[..numOperands])
    }

    function NumCases(): nat
      reads this
      requires numOperands >= 2
    {
      numOperands / 2 - 1
    }

    /** What the operands stand for. */
    ghost function Cases(): seq<Case>
      reads this, operands
      requires 2 <= numOperands <= operands.Length
    {
      CasesOf(operands[..numOperands])
    }

    constructor (condition: Ref, default: Ref, numCases: nat)
      requires numCases < 0x7FFF_FFFF
      ensures Valid() && fresh(operands) && operands.Length == 2 + 2 * numCases
      ensures operands[0] == condition && operands[1] == default && Cases() == []
    {
      operands := new Ref[2 + 2 * numCases];
      numOperands := 2;
      new;
      operands[0] := condition;
      operands[1] := default;
    }

    function Successor(index: nat): Ref
      reads this, operands
      requires Valid() && index < numOperands / 2
    {
      operands[2 * index + 1]
    }

    /** The successor at an iterator: a case's destination, or the default's. */
    lemma CaseSuccessor(index: nat)
      requires Valid() && (index < NumCases() || index == DEFAULT_PSEUDO_INDEX)
      ensures Successor(SuccessorIndex(index)) == if index < NumCases() then Cases()[index].dest else operands[1]
    {
    }

    /** Room for three times as many operands, as computed in 32 bits. */
    method GrowOperands()
      requires Valid() && Grown(numOperands) >= numOperands
      modifies this`operands
      ensures Valid() && fresh(operands) && operands.Length == Grown(numOperands)
      ensures operands[..numOperands] == old(operands[..numOperands])
    {
      var e := numOperands;
      var newOps := new Ref[Grown(e)];
      ghost var was := operands[..e];
      for i := 0 to e
        modifies newOps
        invariant newOps[..i] == was[..i]
      {
        newOps[i] := operands[i];
        assert was[..i + 1] == was[..i] + [was[i]];
      }
      operands := newOps;
      assert operands[..e] == was;
      assert forall i | 0 <= i < e :: operands[i] == was[i];
    }

    method AddCase(value: Ref, dest: Ref)
      requires Valid() && value != 0 && numOperands + 2 < UNSIGNED
      requires numOperands + 2 > operands.Length ==> Grown(numOperands) >= numOperands + 2
      modifies this, operands
      ensures Valid() && (operands == old(operands) || fresh(operands))
      ensures Cases() == old(Cases()) + [Case(value, dest)]
      ensures operands[0] == old(operands[0]) && operands[1] == old(operands[1])
    {
      ghost var was := operands[..numOperands];
      if numOperands + 2 > operands.Length {
        GrowOperands();
      }
      operands[numOperands] := value;
      operands[numOperands + 1] := dest;
      numOperands := numOperands + 2;
      assert operands[..numOperands] == was + [value, dest];
      AddedOperands(was, value, dest);
    }

    /** The last case takes the place of the one removed. */
    method RemoveCase(k: nat)
      requires Valid() && k < NumCases()
      modifies this`numOperands, operands
      ensures Valid() && Cases() == Swapped(old(Cases()), k)
      ensures operands[0] == old(operands[0]) && operands[1] == old(operands[1])
    {
      hide CasesOf, ValuesSet, Swapped;
      ghost var was := operands[..numOperands];
      if 2 + (k + 1) * 2 != numOperands {
        operands[2 + k * 2] := operands[numOperands - 2];
        operands[2 + k * 2 + 1] := operands[numOperands - 1];
      }
      operands[numOperands - 2] := 0;
      operands[numOperands - 1] := 0;
      numOperands := numOperands - 2;
      assert operands[..numOperands] == WithoutCase(was, k);
      RemovedOperands(was, k);
    }

    /** An iterator at the first case for `value`, or at the default. */
    method FindCaseValue(value: Ref) returns (index: nat)
      requires Valid()
      ensures index == DEFAULT_PSEUDO_INDEX || index < NumCases()
      ensures index
              == if FirstCase(Cases(), value) < NumCases() then FirstCase(Cases(), value) else DEFAULT_PSEUDO_INDEX
      ensures Successor(SuccessorIndex(index)) == Goes(Cases(), operands[1], value)
    {
      var i := 0;
      while i != NumCases()
        invariant i <= NumCases()
        invariant forall j | 0 <= j < i :: Cases()[j].value != value
      {
        if operands[2 + i * 2] == value {
          assert Cases()[i].value == value;
          return i;
        }
        i := i + 1;
      }
      return DEFAULT_PSEUDO_INDEX;
    }

    /** The value of the only case that leads to `bb`, or null. */
    method FindCaseDest(bb: Ref) returns (value: Ref)
      requires Valid()
      ensures value != 0 <==> bb != operands[1] && |LeadingTo(Cases(), bb)| == 1
      ensures value != 0 ==> LeadingTo(Cases(), bb) == [Case(value, bb)]
    {
      if bb == operands[1] {
        return 0;
      }
      value := 0;
      var i := 0;
      while i != NumCases()
        invariant i <= NumCases()
        invariant LeadingTo(Cases()[..i], bb) == if value == 0 then [] else [Case(value, bb)]
      {
        LeadingToPrefix(Cases(), i, bb);
        if operands[2 * (i + 1) + 1] == bb {
          if value != 0 {
            LeadingToGrows(Cases(), i + 1, bb);
            return 0;
          }
          value := operands[2 + i * 2];
        }
        i := i + 1;
      }
      assert Cases()[..i] == Cases();
    }
  }
}
