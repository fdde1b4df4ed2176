/** Variable-length integers, as the exception tables hold them: sections 7.6 and appendix C of DWARF 3. The
    decoders shift `int` operands, which is undefined from bit 31 on; the shifted groups do not overlap, so
    combining them by `|` adds them. */
module Leb128 {
  import opened Bytes

  /** `group << shift` is defined in C's `int`. */
  predicate ShiftsInInt(group: nat, shift: nat) {
    shift < 32 && group * Pow2(shift) < 0x8000_0000
  }

  function DecodeUnsigned(mem: seq<byte>, p: nat, shift: nat): (r: Decoded<nat>)
    ensures !r.Aborted? && (r.Got? ==> p < r.next <= |mem|)
    decreases |mem| - p
  {
    if p >= |mem| || !ShiftsInInt(mem[p] % 128, shift) then Undefined
    else
      var group := mem[p] % 128 * Pow2(shift);
      if mem[p] < 128 then Got(group, p + 1)
      else
        var rest := DecodeUnsigned(mem, p + 1, shift + 7);
        if rest.Got? then Got(group + rest.value, rest.next) else Undefined
  }

  /** The value as the callers use it, a signed 64-bit number. */
  function DecodeSigned(mem: seq<byte>, p: nat, shift: nat): (r: Decoded<int>)
    ensures !r.Aborted? && (r.Got? ==> p < r.next <= |mem|)
    decreases |mem| - p
  {
    if p >= |mem| || !ShiftsInInt(mem[p] % 128, shift) then Undefined
    else
      var group := mem[p] % 128 * Pow2(shift);
      if mem[p] >= 128 then
        var rest := DecodeSigned(mem, p + 1, shift + 7);
        if rest.Got? then Got(group + rest.value, rest.next) else Undefined
      else if mem[p] >= 64 && shift + 7 < 64 then
        if shift + 7 < 32 then Got(group - Pow2(shift + 7), p + 1) else Undefined
      else Got(group, p + 1)
  }

  // ---------- The minimal encodings ----------

  function EncodeUnsigned(v: nat): seq<byte> {
    if v < 128 then [v] else [128 + v % 128] + EncodeUnsigned(v / 128)
  }

  function EncodeSigned(v: int): seq<byte>
    decreases if v >= 0 then v else -v
  {
    if -64 <= v < 64 then [v % 128] else [128 + v % 128] + EncodeSigned(v / 128)
  }

  lemma Powers()
    ensures Pow2(0) == 1 && Pow2(7) == 128 && Pow2(14) == 0x4000 && Pow2(21) == 0x20_0000
    ensures Pow2(28) == 0x1000_0000 && Pow2(35) == 0x8_0000_0000
  {
    Pow2Seven(0);
    Pow2Seven(7);
    Pow2Seven(14);
    Pow2Seven(21);
    Pow2Seven(28);
  }

  lemma Pow2Seven(n: nat)
    ensures Pow2(n + 7) == 128 * Pow2(n)
  {
    assert Pow2(n + 2) == 2 * Pow2(n + 1) && Pow2(n + 4) == 2 * Pow2(n + 3) && Pow2(n + 6) == 2 * Pow2(n + 5);
    assert Pow2(n + 1) == 2 * Pow2(n) && Pow2(n + 3) == 2 * Pow2(n + 2) && Pow2(n + 5) == 2 * Pow2(n + 4);
  }

  lemma {:induction false} Pow2Large(n: nat)
    requires n >= 35
    ensures Pow2(n) >= 0x8_0000_0000
    decreases n
  {
    Powers();
    if n > 35 {
      Pow2Large(n - 1);
    }
  }

  /** A multiple of seven bits up to bit 28, as a factor. */
  predicate GroupUnit(unit: nat) {
    unit == 1 || unit == 128 || unit == 0x4000 || unit == 0x20_0000 || unit == 0x1000_0000
  }

  lemma ShiftUnit(shift: nat)
    requires shift % 7 == 0 && shift <= 28
    ensures GroupUnit(Pow2(shift)) && Pow2(shift + 7) == 128 * Pow2(shift)
    ensures Pow2(shift) == 0x1000_0000 <==> shift == 28
  {
    Powers();
    assert shift == 0 || shift == 7 || shift == 14 || shift == 21 || shift == 28;
  }

  lemma UnsignedSplit(v: nat, unit: nat)
    requires GroupUnit(unit)
    ensures v % 128 * unit + v / 128 * (128 * unit) == v * unit
    ensures v >= 128 ==> (v * unit < 0x8000_0000 <==> v / 128 * (128 * unit) < 0x8000_0000)
  {
  }

  /** Decoding group `shift / 7` and the following ones. */
  lemma {:induction false} UnsignedGroups(mem: seq<byte>, p: nat, v: nat, shift: nat)
    requires At(mem, p, EncodeUnsigned(v)) && shift % 7 == 0 && (shift == 0 || v > 0)
    ensures DecodeUnsigned(mem, p, shift)
            == if v * Pow2(shift) < 0x8000_0000 then Got(v * Pow2(shift), p + |EncodeUnsigned(v)|) else Undefined
    decreases v
  {
    hide Pow2, At, GroupUnit;
    if shift >= 35 {
      Pow2Large(shift);
      AtLeast(v, Pow2(shift));
    } else {
      ShiftUnit(shift);
      UnsignedSplit(v, Pow2(shift));
      if v < 128 {
        assert [v] == [v] + [];
        AtHead(mem, p, v, []);
      } else {
        AtHead(mem, p, 128 + v % 128, EncodeUnsigned(v / 128));
        UnsignedGroups(mem, p + 1, v / 128, shift + 7);
      }
    }
  }

  /** Decoding the minimal encoding gives the value back and consumes exactly its bytes, whatever follows; it is
      defined for the values below 2^31 and no others. */
  lemma UnsignedRoundTrip(mem: seq<byte>, p: nat, v: nat)
    requires At(mem, p, EncodeUnsigned(v))
    ensures DecodeUnsigned(mem, p, 0) == if v < 0x8000_0000 then Got(v, p + |EncodeUnsigned(v)|) else Undefined
  {
    UnsignedGroups(mem, p, v, 0);
  }

  predicate SignedFits(v: int, unit: nat) {
    -0x800_0000 <= v * unit < 0x8000_0000
  }

  lemma SignedSplit(v: int, unit: nat)
    requires GroupUnit(unit)
    ensures v % 128 * unit + v / 128 * (128 * unit) == v * unit
    ensures !(-64 <= v < 64) && unit != 0x1000_0000 ==> (SignedFits(v, unit) <==> SignedFits(v / 128, 128 * unit))
    ensures !(-64 <= v < 64) && unit == 0x1000_0000 ==> !SignedFits(v, unit)
    ensures v % 128 * unit >= 0x8000_0000 ==> !SignedFits(v, unit)
  {
  }

  lemma SignedLast(mem: seq<byte>, p: nat, v: int, shift: nat)
    requires p < |mem| && mem[p] == v % 128 && -64 <= v < 64 && shift % 7 == 0 && shift <= 28
    ensures DecodeSigned(mem, p, shift)
            == if SignedFits(v, Pow2(shift)) then Got(v * Pow2(shift), p + 1) else Undefined
  {
    hide Pow2, GroupUnit;
    ShiftUnit(shift);
    SignedLastFits(v, Pow2(shift));
    assert v % 128 == if v < 0 then v + 128 else v;
  }

  lemma SignedLastFits(v: int, unit: nat)
    requires GroupUnit(unit) && -64 <= v < 64
    ensures v >= 0 ==> (SignedFits(v, unit) <==> v * unit < 0x8000_0000)
    ensures v < 0 ==> (SignedFits(v, unit) <==> unit != 0x1000_0000)
    ensures v < 0 ==> ((v + 128) * unit < 0x8000_0000 <==> unit != 0x1000_0000)
    ensures (v + 128) * unit - 128 * unit == v * unit
  {
  }

  /** One group, and what follows it. */
  lemma SignedMore(mem: seq<byte>, p: nat, v: int, shift: nat, next: nat)
    requires p < |mem| && mem[p] == 128 + v % 128 && !(-64 <= v < 64) && shift % 7 == 0 && shift <= 28
    requires shift < 28 ==>
               DecodeSigned(mem, p + 1, shift + 7)
               == if SignedFits(v / 128, Pow2(shift + 7)) then Got(v / 128 * Pow2(shift + 7), next) else Undefined
    ensures DecodeSigned(mem, p, shift)
            == if SignedFits(v, Pow2(shift)) then Got(v * Pow2(shift), next) else Undefined
  {
    hide Pow2, GroupUnit, SignedFits;
    ShiftUnit(shift);
    SignedSplit(v, Pow2(shift));
    if shift == 28 {
      TooFar(mem, p + 1);
    }
  }

  lemma TooFar(mem: seq<byte>, p: nat)
    ensures DecodeSigned(mem, p, 35) == Undefined
  {
  }

  lemma {:induction false} SignedGroups(mem: seq<byte>, p: nat, v: int, shift: nat)
    requires At(mem, p, EncodeSigned(v)) && shift % 7 == 0 && shift <= 28
    ensures DecodeSigned(mem, p, shift)
            == if SignedFits(v, Pow2(shift)) then Got(v * Pow2(shift), p + |EncodeSigned(v)|) else Undefined
    decreases if v >= 0 then v else -v
  {
    hide Pow2, At, SignedFits, DecodeSigned;
    if -64 <= v < 64 {
      assert [v % 128] == [v % 128] + [];
      AtHead(mem, p, v % 128, []);
      SignedLast(mem, p, v, shift);
    } else {
      AtHead(mem, p, 128 + v % 128, EncodeSigned(v / 128));
      if shift < 28 {
        SignedGroups(mem, p + 1, v / 128, shift + 7);
      }
      SignedMore(mem, p, v, shift, p + |EncodeSigned(v)|);
    }
  }

  /** The same for signed values, defined from -2^27 to below 2^31. */
  lemma SignedRoundTrip(mem: seq<byte>, p: nat, v: int)
    requires At(mem, p, EncodeSigned(v))
    ensures DecodeSigned(mem, p, 0)
            == if -0x800_0000 <= v < 0x8000_0000 then Got(v, p + |EncodeSigned(v)|) else Undefined
  {
    SignedGroups(mem, p, v, 0);
    assert Pow2(0) == 1;
  }

  /** The examples of DWARF 3, section 7.6, figures 22 and 23. */
  lemma UnsignedExamples()
    ensures DecodeUnsigned([0x02], 0, 0) == Got(2, 1) && DecodeUnsigned([0x7f], 0, 0) == Got(127, 1)
    ensures DecodeUnsigned([0x80, 0x01], 0, 0) == Got(128, 2) && DecodeUnsigned([0x81, 0x01], 0, 0) == Got(129, 2)
    ensures DecodeUnsigned([0x82, 0x01], 0, 0) == Got(130, 2) && DecodeUnsigned([0xb9, 0x64], 0, 0) == Got(12857, 2)
  {
    Powers();
  }

  lemma SignedExamples()
    ensures DecodeSigned([0x02], 0, 0) == Got(2, 1) && DecodeSigned([0x7e], 0, 0) == Got(-2, 1)
    ensures DecodeSigned([0xff, 0x00], 0, 0) == Got(127, 2) && DecodeSigned([0x81, 0x7f], 0, 0) == Got(-127, 2)
    ensures DecodeSigned([0x80, 0x01], 0, 0) == Got(128, 2) && DecodeSigned([0x80, 0x7f], 0, 0) == Got(-128, 2)
    ensures DecodeSigned([0x81, 0x01], 0, 0) == Got(129, 2) && DecodeSigned([0xff, 0x7e], 0, 0) == Got(-129, 2)
  {
    Powers();
  }

  // ---------- The decoders as they run ----------

  method ReadULEB128(mem: seq<byte>, data: nat) returns (result: nat, next: nat)
    requires DecodeUnsigned(mem, data, 0).Got?
    ensures Got(result, next) == DecodeUnsigned(mem, data, 0)
  {
    hide Pow2;
    result := 0;
    var shift: nat := 0;
    var p: nat := data;
    var more := true;
    while more
      invariant more ==> DecodeUnsigned(mem, p, shift).Got?
      invariant more ==> DecodeUnsigned(mem, data, 0).value == result + DecodeUnsigned(mem, p, shift).value
      invariant more ==> DecodeUnsigned(mem, data, 0).next == DecodeUnsigned(mem, p, shift).next
      invariant !more ==> DecodeUnsigned(mem, data, 0) == Got(result, p)
      decreases more, |mem| - p
    {
      var byte := mem[p];
      p := p + 1;
      result := result + byte % 128 * Pow2(shift);
      shift := shift + 7;
      more := byte >= 128;
    }
    next := p;
  }

  method ReadSLEB128(mem: seq<byte>, data: nat) returns (result: int, next: nat)
    requires DecodeSigned(mem, data, 0).Got?
    ensures Got(result, next) == DecodeSigned(mem, data, 0)
  {
    result := 0;
    var shift: nat := 0;
    var p: nat := data;
    var byte: nat := 0;
    var more := true;
    ghost var whole := DecodeSigned(mem, data, 0);
    while more
      invariant more ==> DecodeSigned(mem, p, shift).Got?
      invariant more ==> whole.value == result + DecodeSigned(mem, p, shift).value
      invariant more ==> whole.next == DecodeSigned(mem, p, shift).next
      invariant !more ==> byte < 128 && whole.next == p
      invariant !more ==> whole.value == result - if byte >= 64 && shift < 64 then Pow2(shift) else 0
      decreases more, |mem| - p
    {
      byte := mem[p];
      p := p + 1;
      result := result + byte % 128 * Pow2(shift);
      shift := shift + 7;
      more := byte >= 128;
    }
    next := p;
    if byte / 64 % 2 == 1 && shift < 64 {
      result := result - Pow2(shift);
    }
  }
}
