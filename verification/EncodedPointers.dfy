/** Pointers in the formats that an exception table may use for them. */
module EncodedPointers {
  import opened Bytes
  import opened Leb128

  const ABSPTR := 0x00
  const ULEB128 := 0x01
  const UDATA2 := 0x02
  const UDATA4 := 0x03
  const UDATA8 := 0x04
  const SLEB128 := 0x09
  const SDATA2 := 0x0A
  const SDATA4 := 0x0B
  const SDATA8 := 0x0C
  const PCREL := 0x10
  const INDIRECT := 0x80
  const OMIT := 0xff

  /** Values of C's `uintptr_t`. */
  const WORD := 0x1_0000_0000_0000_0000

  function Wrapped(v: int): nat {
    v % WORD
  }

  /** How many bytes a fixed-size format takes. */
  function Size(format: nat): nat {
    if format == UDATA2 || format == SDATA2 then 2
    else if format == UDATA4 || format == SDATA4 then 4
    else if format == ABSPTR || format == UDATA8 || format == SDATA8 then 8
    else 0
  }

  predicate IsSigned(format: nat) {
    format == SDATA2 || format == SDATA4 || format == SDATA8
  }

  /** Two's complement. */
  function SignExtended(v: nat, size: nat): int {
    if 2 * v >= Pow2(8 * size) then v - Pow2(8 * size) else v
  }

  function Raw(mem: seq<byte>, p: nat, format: nat): (r: Decoded<nat>)
    ensures r.Got? ==> p <= r.next <= |mem|
  {
    if Size(format) > 0 then
      if p + Size(format) <= |mem| then
        var v := LittleEndian(mem[p..p + Size(format)]);
        Got(Wrapped(if IsSigned(format) then SignExtended(v, Size(format)) else v), p + Size(format))
      else Undefined
    else if format == ULEB128 then DecodeUnsigned(mem, p, 0)
    else if format == SLEB128 then
      var r := DecodeSigned(mem, p, 0);
      if r.Got? then Got(Wrapped(r.value), r.next) else Undefined
    else Aborted
  }

  /** The whole of `readEncodedPointer`: a value in some format, then an offset to apply, then an indirection.
      Formats and offsets that are not supported abort. */
  function EncodedPointer(mem: seq<byte>, p: nat, encoding: byte): (r: Decoded<nat>)
    ensures r.Got? ==> p <= r.next
  {
    if encoding == OMIT then Got(0, p)
    else
      var raw := Raw(mem, p, encoding % 16);
      var application := encoding / 16 % 8 * 16;
      if !raw.Got? then raw
      else if application != ABSPTR && application != PCREL then Aborted
      else
        var value := if application == PCREL then Wrapped(raw.value + p) else raw.value;
        if encoding >= INDIRECT then
          var target := Raw(mem, value, ABSPTR);
          if target.Got? then Got(target.value, raw.next) else Undefined
        else Got(value, raw.next)
  }

  // ---------- Writing them ----------

  /** `v` can be written in `format` and read back. */
  predicate Fits(format: nat, v: int) {
    if format == ULEB128 then 0 <= v < 0x8000_0000
    else if format == SLEB128 then -0x800_0000 <= v < 0x8000_0000
    else if IsSigned(format) then 0 <= 2 * v + Pow2(8 * Size(format)) < 2 * Pow2(8 * Size(format))
    else Size(format) > 0 && 0 <= v < Pow2(8 * Size(format))
  }

  function Written(format: nat, v: int): seq<byte> {
    if format == ULEB128 then (if v >= 0 then EncodeUnsigned(v) else [])
    else if format == SLEB128 then EncodeSigned(v)
    else Fixed(v, Size(format))
  }

  lemma FixedFits(format: nat, v: int)
    requires Size(format) > 0 && Fits(format, v)
    ensures var stored := v % Pow2(8 * Size(format));
            Wrapped(if IsSigned(format) then SignExtended(stored, Size(format)) else stored) == Wrapped(v)
  {
    hide Pow2, Wrapped;
    if v < 0 {
      NegativeMod(v, Pow2(8 * Size(format)));
    } else {
      ModUnique(v, Pow2(8 * Size(format)), 0, v);
    }
  }

  lemma FixedRaw(mem: seq<byte>, p: nat, format: nat, v: int)
    requires Size(format) > 0 && Fits(format, v) && At(mem, p, Fixed(v, Size(format)))
    ensures Raw(mem, p, format) == Got(Wrapped(v), p + Size(format))
  {
    hide Pow2, Fits, SignExtended, Wrapped, Fixed;
    FixedRoundTrip(v, Size(format));
    FixedFits(format, v);
  }

  lemma RawRoundTrip(mem: seq<byte>, p: nat, format: nat, v: int)
    requires Fits(format, v) && At(mem, p, Written(format, v))
    ensures Raw(mem, p, format) == Got(Wrapped(v), p + |Written(format, v)|)
  {
    hide Pow2, At, DecodeUnsigned, DecodeSigned, EncodeUnsigned, EncodeSigned;
    if format == ULEB128 {
      UnsignedRoundTrip(mem, p, v);
    } else if format == SLEB128 {
      SignedRoundTrip(mem, p, v);
    } else {
      assert Size(format) > 0;
      FixedRaw(mem, p, format, v);
    }
  }

  lemma NegativeMod(v: int, m: nat)
    requires m >= 1 && v < 0 <= v + m
    ensures v % m == v + m
  {
    ModUnique(v, m, -1, v + m);
  }

  lemma SplitEncoding(format: nat, relative: bool)
    requires format < 16
    ensures var encoding := format + if relative then PCREL else 0;
            && encoding < INDIRECT && encoding % 16 == format
            && encoding / 16 % 8 * 16 == if relative then PCREL else ABSPTR
  {
  }

  lemma WrappedOnce(v: nat, p: nat)
    requires v < WORD
    ensures Wrapped(v) == v && Wrapped(Wrapped(v - p) + p) == v
  {
    var q := (v - p) / WORD;
    ModUnique(Wrapped(v - p) + p, WORD, -q, v);
  }

  /** Reading gives back what was written, in every supported format, absolute or relative to the place where it
      stands, and goes on right after it. */
  lemma PointerRoundTrip(mem: seq<byte>, p: nat, format: nat, v: nat, relative: bool)
    requires format < 16 && v < WORD
    requires var stored := if relative then v - p else v; Fits(format, stored) && At(mem, p, Written(format, stored))
    ensures EncodedPointer(mem, p, format + if relative then PCREL else 0)
            == Got(v, p + |Written(format, if relative then v - p else v)|)
  {
    hide Raw, Fits, Written, At, Wrapped;
    RawRoundTrip(mem, p, format, if relative then v - p else v);
    SplitEncoding(format, relative);
    WrappedOnce(v, p);
  }

  /** With the indirection bit, the value read is the word that stands where the pointer leads. */
  lemma IndirectRoundTrip(mem: seq<byte>, p: nat, format: nat, v: nat, relative: bool, target: nat)
    requires format < 16 && v < WORD && target < WORD
    requires var stored := if relative then v - p else v; Fits(format, stored) && At(mem, p, Written(format, stored))
    requires Fits(ABSPTR, target) && At(mem, v, Written(ABSPTR, target))
    ensures EncodedPointer(mem, p, format + (if relative then PCREL else 0) + INDIRECT)
            == Got(target, p + |Written(format, if relative then v - p else v)|)
  {
    hide Raw, Fits, Written, At, Wrapped;
    RawRoundTrip(mem, p, format, if relative then v - p else v);
    RawRoundTrip(mem, v, ABSPTR, target);
    SplitEncoding(format, relative);
    var encoding := format + if relative then PCREL else 0;
    assert (encoding + INDIRECT) % 16 == format && (encoding + INDIRECT) / 16 % 8 == encoding / 16 % 8;
    WrappedOnce(v, p);
    WrappedOnce(target, 0);
  }

  predicate Supported(encoding: byte) {
    || encoding == OMIT
    || ((Size(encoding % 16) > 0 || encoding % 16 == ULEB128 || encoding % 16 == SLEB128)
        && (encoding / 16 % 8 == 0 || encoding / 16 % 8 == 1))
  }

  /** The routine gives up exactly on the encodings it does not support, as long as it may read the value first; and it
      yields a value for supported ones only. */
  lemma AbortsExactly(mem: seq<byte>, p: nat, encoding: byte)
    ensures EncodedPointer(mem, p, encoding).Aborted? <==>
            !Supported(encoding) && !Raw(mem, p, encoding % 16).Undefined?
    ensures EncodedPointer(mem, p, encoding).Got? ==> Supported(encoding)
  {
  }

  /** The two and the four bytes at `p` as numbers, the lowest byte first. */
  function Half(mem: seq<byte>, p: nat): nat
    requires p + 2 <= |mem|
  {
    mem[p] as int + 0x100 * mem[p + 1] as int
  }

  function Full(mem: seq<byte>, p: nat): nat
    requires p + 4 <= |mem|
  {
    Half(mem, p) + 0x1_0000 * Half(mem, p + 2)
  }

  /** Values that fit are read back, and no others of the format's kind: 64-bit ones, signed for a signed format. */
  lemma RoundTripIsExact(mem: seq<byte>, p: nat, format: nat, v: int)
    requires Size(format) > 0 || format == ULEB128 || format == SLEB128
    requires if IsSigned(format) || format == SLEB128 then 0 <= 2 * v + WORD < 2 * WORD else 0 <= v < WORD
    requires At(mem, p, Written(format, v))
    ensures Raw(mem, p, format) == Got(Wrapped(v), p + |Written(format, v)|) <==> Fits(format, v)
  {
    if Fits(format, v) {
      RawRoundTrip(mem, p, format, v);
    } else if format == ULEB128 {
      UnsignedRoundTrip(mem, p, v);
    } else if format == SLEB128 {
      SignedRoundTrip(mem, p, v);
    } else {
      FixedRoundTrip(v, Size(format));
      TooLarge(format, v);
    }
  }

  lemma TooLarge(format: nat, v: int)
    requires Size(format) > 0 && !Fits(format, v)
    requires if IsSigned(format) then 0 <= 2 * v + WORD < 2 * WORD else 0 <= v < WORD
    ensures var stored := v % Pow2(8 * Size(format));
            Wrapped(if IsSigned(format) then SignExtended(stored, Size(format)) else stored) != Wrapped(v)
  {
    hide Pow2, Wrapped;
    WordSizes();
    var m := Pow2(8 * Size(format));
    assert 1 <= m <= WORD && m % 2 == 0;
    var stored := v % m;
    if IsSigned(format) {
      WrappedTells(if 2 * stored >= m then stored - m else stored, v);
    } else {
      WrappedTells(stored, v);
    }
  }

  /** Numbers less than a word apart stay apart. */
  lemma WrappedTells(a: int, b: int)
    requires a != b && -WORD < a - b < WORD
    ensures Wrapped(a) != Wrapped(b)
  {
  }

  /** The fixed-size formats by their numbers: how many bytes each takes, and what it makes of them. */
  lemma FixedFormats(mem: seq<byte>, p: nat)
    requires p + 8 <= |mem|
    ensures EncodedPointer(mem, p, 0x02) == Got(Half(mem, p), p + 2)
    ensures EncodedPointer(mem, p, 0x03) == Got(Full(mem, p), p + 4)
    ensures var low := Half(mem, p);
            EncodedPointer(mem, p, 0x0A) == Got(if low < 0x8000 then low else low + 0xFFFF_FFFF_FFFF_0000, p + 2)
    ensures var half := Full(mem, p);
            EncodedPointer(mem, p, 0x0B)
            == Got(if half < 0x8000_0000 then half else half + 0xFFFF_FFFF_0000_0000, p + 4)
    ensures var whole := Got(Full(mem, p) + 0x1_0000_0000 * Full(mem, p + 4), p + 8);
            && EncodedPointer(mem, p, 0x00) == whole && EncodedPointer(mem, p, 0x04) == whole
            && EncodedPointer(mem, p, 0x0C) == whole
  {
    TwoByteFormats(mem, p);
    FourByteFormats(mem, p);
    EightByteFormats(mem, p);
  }

  lemma TwoByteFormats(mem: seq<byte>, p: nat)
    requires p + 2 <= |mem|
    ensures EncodedPointer(mem, p, 0x02) == Got(Half(mem, p), p + 2)
    ensures var low := Half(mem, p);
            EncodedPointer(mem, p, 0x0A) == Got(if low < 0x8000 then low else low + 0xFFFF_FFFF_FFFF_0000, p + 2)
  {
    hide LittleEndian, Pow2, Half, DecodeUnsigned, DecodeSigned;
    WordSizes();
    TwoBytes(mem, p);
    HalfBound(mem, p);
  }

  lemma FourByteFormats(mem: seq<byte>, p: nat)
    requires p + 4 <= |mem|
    ensures EncodedPointer(mem, p, 0x03) == Got(Full(mem, p), p + 4)
    ensures var half := Full(mem, p);
            EncodedPointer(mem, p, 0x0B)
            == Got(if half < 0x8000_0000 then half else half + 0xFFFF_FFFF_0000_0000, p + 4)
  {
    hide LittleEndian, Pow2, Full, DecodeUnsigned, DecodeSigned;
    WordSizes();
    FourBytes(mem, p);
    FullBound(mem, p);
  }

  lemma EightByteFormats(mem: seq<byte>, p: nat)
    requires p + 8 <= |mem|
    ensures var whole := Got(Full(mem, p) + 0x1_0000_0000 * Full(mem, p + 4), p + 8);
            && EncodedPointer(mem, p, 0x00) == whole && EncodedPointer(mem, p, 0x04) == whole
            && EncodedPointer(mem, p, 0x0C) == whole
  {
    hide LittleEndian, Pow2, Full, DecodeUnsigned, DecodeSigned;
    WordSizes();
    EightBytes(mem, p);
    FullBound(mem, p);
    FullBound(mem, p + 4);
  }

  lemma HalfBound(mem: seq<byte>, p: nat)
    requires p + 2 <= |mem|
    ensures Half(mem, p) < 0x1_0000
  {
  }

  lemma FullBound(mem: seq<byte>, p: nat)
    requires p + 4 <= |mem|
    ensures Full(mem, p) < 0x1_0000_0000
  {
    HalfBound(mem, p);
    HalfBound(mem, p + 2);
  }

  lemma WordSizes()
    ensures Pow2(16) == 0x1_0000 && Pow2(32) == 0x1_0000_0000 && Pow2(64) == WORD
  {
    hide Pow2;
    Powers();
    Pow2Twice(14);
    Pow2Twice(15);
    Pow2Twice(28);
    Pow2Twice(29);
    Pow2Twice(30);
    Pow2Twice(31);
    Pow2Seven(35);
    Pow2Seven(42);
    Pow2Seven(49);
    Pow2Seven(56);
    Pow2Twice(63);
  }

  lemma Pow2Twice(n: nat)
    ensures Pow2(n + 1) == 2 * Pow2(n)
  {
  }

  lemma OneMore(mem: seq<byte>, p: nat, end: nat)
    requires p < end <= |mem|
    ensures LittleEndian(mem[p..end]) == mem[p] as int + 0x100 * LittleEndian(mem[p + 1..end])
  {
    assert mem[p..end][1..] == mem[p + 1..end];
  }

  lemma TwoBytes(mem: seq<byte>, p: nat)
    requires p + 2 <= |mem|
    ensures LittleEndian(mem[p..p + 2]) == Half(mem, p)
  {
    OneMore(mem, p, p + 2);
    OneMore(mem, p + 1, p + 2);
    assert mem[p + 2..p + 2] == [];
  }

  lemma FourBytes(mem: seq<byte>, p: nat)
    requires p + 4 <= |mem|
    ensures LittleEndian(mem[p..p + 4]) == Full(mem, p)
  {
    OneMore(mem, p, p + 4);
    OneMore(mem, p + 1, p + 4);
    TwoBytes(mem, p + 2);
  }

  lemma EightBytes(mem: seq<byte>, p: nat)
    requires p + 8 <= |mem|
    ensures LittleEndian(mem[p..p + 8]) == Full(mem, p) + 0x1_0000_0000 * Full(mem, p + 4)
  {
    OneMore(mem, p, p + 8);
    OneMore(mem, p + 1, p + 8);
    OneMore(mem, p + 2, p + 8);
    OneMore(mem, p + 3, p + 8);
    FourBytes(mem, p + 4);
  }

  /** The others: an omitted pointer, the variable-length formats, a pc-relative one and an indirect one. */
  lemma OtherFormats(mem: seq<byte>, p: nat)
    requires p + 8 <= |mem|
    ensures EncodedPointer(mem, p, 0xff) == Got(0, p)
    ensures EncodedPointer(mem, p, 0x01) == DecodeUnsigned(mem, p, 0)
    ensures var v := DecodeSigned(mem, p, 0);
            EncodedPointer(mem, p, 0x09) == if v.Got? then Got(Wrapped(v.value), v.next) else Undefined
    ensures EncodedPointer(mem, p, 0x10) == Got(Wrapped(EncodedPointer(mem, p, 0x00).value + p), p + 8)
    ensures var v := EncodedPointer(mem, p, 0x00).value;
            v + 8 <= |mem| ==> EncodedPointer(mem, p, 0x80) == Got(EncodedPointer(mem, v, 0x00).value, p + 8)
    ensures Wrapped(0) == 0 && Wrapped(WORD) == 0 && Wrapped(-1) == WORD - 1
  {
    hide LittleEndian, Pow2, DecodeUnsigned, DecodeSigned;
  }

  method ReadEncodedPointer(mem: seq<byte>, data: nat, encoding: byte) returns (result: Decoded<nat>)
    ensures result == EncodedPointer(mem, data, encoding)
  {
    if encoding == OMIT {
      return Got(0, data);
    }
    var p: nat := data;
    var value: nat := 0;
    var format := encoding % 16;
    if format == ULEB128 {
      if DecodeUnsigned(mem, p, 0).Undefined? {
        return Undefined;
      }
      value, p := ReadULEB128(mem, p);
    } else if format == SLEB128 {
      if DecodeSigned(mem, p, 0).Undefined? {
        return Undefined;
      }
      var signed;
      signed, p := ReadSLEB128(mem, p);
      value := Wrapped(signed);
    } else if Size(format) > 0 {
      if p + Size(format) > |mem| {
        return Undefined;
      }
      var v := LittleEndian(mem[p..p + Size(format)]);
      value := Wrapped(if IsSigned(format) then SignExtended(v, Size(format)) else v);
      p := p + Size(format);
    } else {
      return Aborted;
    }
    var application := encoding / 16 % 8 * 16;
    if application == PCREL {
      value := Wrapped(value + data);
    } else if application != ABSPTR {
      return Aborted;
    }
    if encoding >= INDIRECT {
      var target := Raw(mem, value, ABSPTR);
      if !target.Got? {
        return Undefined;
      }
      value := target.value;
    }
    return Got(value, p);
  }
}
