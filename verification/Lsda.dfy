/** The personality routine's reading of one function's exception table (its language-specific data area): which
    landing pad covers the point of a call, and which clause of the pad, if any, catches the exception. */
module Lsda {
  import opened Wrappers
  import opened Bytes
  import opened Leb128
  import opened EncodedPointers

  /** The class of the exceptions that generated code throws; others are foreign. */
  const OUR_CLASS := 0x6F62_6A00_6261_7300

  function BigEndian(bs: seq<byte>): nat {
    if bs == [] then 0 else 0x100 * BigEndian(bs[..|bs| - 1]) + bs[|bs| - 1]
  }

  /** A class is its eight characters, the first the highest. */
  method GenClass(classChars: seq<byte>) returns (ret: nat)
    requires 1 <= |classChars| <= 8
    ensures ret == BigEndian(classChars)
  {
    ret := classChars[0];
    assert classChars[..1][..0] == [];
    for i := 1 to |classChars|
      invariant ret == BigEndian(classChars[..i])
    {
      assert classChars[..i + 1][..i] == classChars[..i];
      ret := ret * 0x100;
      ret := ret + classChars[i];
    }
    assert classChars[..|classChars|] == classChars;
  }

  /** `obj`, a zero, `bas`, a zero. */
  lemma OurClassCharacters()
    ensures OUR_CLASS == BigEndian([0x6F, 0x62, 0x6A, 0, 0x62, 0x61, 0x73, 0])
  {
    var bs: seq<byte> := [0x6F, 0x62, 0x6A, 0, 0x62, 0x61, 0x73, 0];
    assert bs[..7][..6] == bs[..6] && bs[..6][..5] == bs[..5] && bs[..5][..4] == bs[..4];
    assert bs[..4][..3] == bs[..3] && bs[..3][..2] == bs[..2] && bs[..2][..1] == bs[..1] && bs[..1][..0] == [];
    assert BigEndian(bs[..1]) == 0x6F && BigEndian(bs[..2]) == 0x6F62 && BigEndian(bs[..3]) == 0x6F_626A;
    assert BigEndian(bs[..4]) == 0x6F62_6A00 && BigEndian(bs[..5]) == 0x6F_626A_0062;
    assert BigEndian(bs[..6]) == 0x6F62_6A00_6261 && BigEndian(bs[..7]) == 0x6F_626A_0062_6173;
  }

  /** An exception object: which one it is, its class, and the type stored in it. */
  datatype Exn = Exn(id: nat, exceptionClass: nat, kind: int) {
    predicate Ours() {
      exceptionClass == OUR_CLASS
    }
  }

  // ---------- Action chains ----------

  /** The type that type-info number `id` stands for: `classInfo` is the end of a table of pointers to type-info
      objects, and `types` gives what those hold. */
  function TypeOf(mem: seq<byte>, types: map<nat, int>, classInfo: nat, id: nat): Option<int> {
    if 8 * id <= classInfo then
      var address := Raw(mem, classInfo - 8 * id, ABSPTR);
      if address.Got? && address.value in types then Some(types[address.value]) else None
    else None
  }

  /** The clause that a record with type offset `offset` stands for: `Some` type to be caught, or `None` for a
      cleanup. */
  function ClauseOf(mem: seq<byte>, types: map<nat, int>, classInfo: nat, offset: nat): Option<int> {
    if offset == 0 then None else TypeOf(mem, types, classInfo, offset)
  }

  /** The walk for `kind` along the action records from `p` visits records with the clauses `clauses`, in order: each
      record points, relative to where that pointer stands, to the next, and the walk ends with the first record that
      catches `kind`, or with one that points nowhere. There are no filters. */
  ghost predicate Visits(mem: seq<byte>, types: map<nat, int>, classInfo: nat, p: nat, kind: int,
                         clauses: seq<Option<int>>)
    decreases |clauses|
  {
    && clauses != []
    && var first := DecodeSigned(mem, p, 0);
    && first.Got? && first.value >= 0
    && clauses[0] == ClauseOf(mem, types, classInfo, first.value) && (first.value > 0 ==> clauses[0].Some?)
    && var offset := DecodeSigned(mem, first.next, 0);
    && offset.Got?
    && if clauses[0] == Some(kind) || offset.value == 0 then |clauses| == 1
       else
         && first.next + offset.value >= 0
         && Visits(mem, types, classInfo, first.next + offset.value, kind, clauses[1..])
  }

  /** At `p` starts a whole chain of records with the clauses `clauses`, whatever is looked for. */
  ghost predicate Chain(mem: seq<byte>, types: map<nat, int>, classInfo: nat, p: nat, clauses: seq<Option<int>>)
    decreases |clauses|
  {
    && clauses != []
    && var first := DecodeSigned(mem, p, 0);
    && first.Got? && first.value >= 0
    && clauses[0] == ClauseOf(mem, types, classInfo, first.value) && (first.value > 0 ==> clauses[0].Some?)
    && var offset := DecodeSigned(mem, first.next, 0);
    && offset.Got?
    && if offset.value == 0 then |clauses| == 1
       else first.next + offset.value >= 0 && Chain(mem, types, classInfo, first.next + offset.value, clauses[1..])
  }

  /** The 1-based position of the first clause that catches `kind`, or 0. */
  function FirstMatch(clauses: seq<Option<int>>, kind: int): nat {
    if clauses == [] then 0
    else if clauses[0] == Some(kind) then 1
    else
      var later := FirstMatch(clauses[1..], kind);
      if later == 0 then 0 else later + 1
  }

  lemma {:induction false} FirstMatchIsFirst(clauses: seq<Option<int>>, kind: int)
    ensures var r := FirstMatch(clauses, kind);
            if r == 0 then Some(kind) !in clauses
            else r <= |clauses| && clauses[r - 1] == Some(kind) && Some(kind) !in clauses[..r - 1]
  {
    if clauses != [] {
      FirstMatchIsFirst(clauses[1..], kind);
      var r := FirstMatch(clauses, kind);
      if r > 1 {
        assert clauses[..r - 1] == [clauses[0]] + clauses[1..][..r - 2];
      }
    }
  }

  /** The part of `clauses` up to the first that catches `kind`. */
  function UpTo(clauses: seq<Option<int>>, kind: int): seq<Option<int>> {
    if clauses == [] then []
    else if clauses[0] == Some(kind) then [clauses[0]]
    else [clauses[0]] + UpTo(clauses[1..], kind)
  }

  /** On a whole chain the walk visits the records up to the first that matches. */
  lemma {:induction false} ChainVisits(mem: seq<byte>, types: map<nat, int>, classInfo: nat, p: nat, kind: int,
                                       clauses: seq<Option<int>>)
    requires Chain(mem, types, classInfo, p, clauses)
    ensures Visits(mem, types, classInfo, p, kind, UpTo(clauses, kind))
    ensures FirstMatch(UpTo(clauses, kind), kind) == FirstMatch(clauses, kind)
    decreases |clauses|
  {
    var first := DecodeSigned(mem, p, 0);
    var offset := DecodeSigned(mem, first.next, 0);
    assert clauses[0] != Some(kind) ==> UpTo(clauses, kind)[1..] == UpTo(clauses[1..], kind);
    if offset.value != 0 {
      ChainVisits(mem, types, classInfo, first.next + offset.value, kind, clauses[1..]);
    }
  }

  /** What memory holds at `p` decides what is visited. */
  lemma {:induction false} VisitsUnique(mem: seq<byte>, types: map<nat, int>, classInfo: nat, p: nat, kind: int,
                                        a: seq<Option<int>>, b: seq<Option<int>>)
    requires Visits(mem, types, classInfo, p, kind, a) && Visits(mem, types, classInfo, p, kind, b)
    ensures a == b
    decreases |a|
  {
    var first := DecodeSigned(mem, p, 0);
    var offset := DecodeSigned(mem, first.next, 0);
    if |a| > 1 {
      VisitsUnique(mem, types, classInfo, first.next + offset.value, kind, a[1..], b[1..]);
    }
    assert a == [a[0]] + a[1..] && b == [b[0]] + b[1..];
  }

  method HandleActionValue(mem: seq<byte>, types: map<nat, int>, classInfo: nat, actionEntry: nat, exn: Exn,
                           ghost clauses: seq<Option<int>>) returns (found: bool, resultAction: nat)
    requires exn.Ours() ==> Visits(mem, types, classInfo, actionEntry, exn.kind, clauses)
    ensures resultAction == if exn.Ours() then FirstMatch(clauses, exn.kind) else 0
    ensures found <==> resultAction > 0
  {
    found, resultAction := false, 0;
    if !exn.Ours() {
      return;
    }
    var actionPos: nat := actionEntry;
    var i: nat := 0;
    ghost var rest := clauses;
    while true
      invariant Visits(mem, types, classInfo, actionPos, exn.kind, rest)
      invariant !found && resultAction == 0
      invariant FirstMatch(clauses, exn.kind) == var r := FirstMatch(rest, exn.kind); if r == 0 then 0 else r + i
      decreases |rest|
    {
      var typeOffset, actionOffset, afterwards;
      typeOffset, actionPos := ReadSLEB128(mem, actionPos);
      actionOffset, afterwards := ReadSLEB128(mem, actionPos);
      assert typeOffset >= 0;
      if typeOffset > 0 && TypeOf(mem, types, classInfo, typeOffset) == Some(exn.kind) {
        resultAction := i + 1;
        found := true;
        break;
      }
      if actionOffset == 0 {
        break;
      }
      actionPos := actionPos + actionOffset;
      i := i + 1;
      rest := rest[1..];
    }
  }

  // ---------- The call-site table ----------

  datatype CallSite = CallSite(start: nat, length: nat, pad: nat, action: nat) {
    /** An entry with a landing pad whose half-open range contains `offset`. */
    predicate Covers(offset: nat) {
      pad != 0 && start <= offset < Wrapped(start + length)
    }
  }

  datatype Header = Header(classInfo: nat, encoding: byte, start: nat, end: nat)

  function ParseHeader(mem: seq<byte>, lsda: nat): Decoded<Header> {
    if lsda >= |mem| then Undefined
    else
      var lpStart := EncodedPointer(mem, lsda + 1, mem[lsda]);
      if !lpStart.Got? then (if lpStart.Aborted? then Aborted else Undefined)
      else if lpStart.next >= |mem| then Undefined
      else
        var ttype := lpStart.next;
        var offset := if mem[ttype] == OMIT then Got(0, ttype + 1) else DecodeUnsigned(mem, ttype + 1, 0);
        if !offset.Got? || offset.next >= |mem| then Undefined
        else
          var length := DecodeUnsigned(mem, offset.next + 1, 0);
          if !length.Got? then Undefined
          else
            var classInfo := if mem[ttype] == OMIT then 0 else offset.next + offset.value;
            Got(Header(classInfo, mem[offset.next], length.next, length.next + length.value), length.next)
  }

  function ParseSite(mem: seq<byte>, p: nat, encoding: byte): (r: Decoded<CallSite>)
    ensures r.Got? ==> p < r.next
  {
    var start := EncodedPointer(mem, p, encoding);
    if !start.Got? then Undefined
    else
      var length := EncodedPointer(mem, start.next, encoding);
      if !length.Got? then Undefined
      else
        var pad := EncodedPointer(mem, length.next, encoding);
        if !pad.Got? then Undefined
        else
          var action := DecodeUnsigned(mem, pad.next, 0);
          if !action.Got? then Undefined
          else Got(CallSite(start.value, length.value, pad.value, action.value), action.next)
  }

  /** The header in bytes: no start address, absolute type infos at an offset, four-byte call sites, the table's
      length. */
  lemma HeaderBytes(mem: seq<byte>, lsda: nat)
    requires lsda + 5 <= |mem| && mem[lsda] == 0xff && mem[lsda + 1] == 0x00 && mem[lsda + 2] < 0x80
    requires mem[lsda + 3] == 0x03 && mem[lsda + 4] < 0x80
    ensures ParseHeader(mem, lsda)
            == Got(Header(lsda + 3 + mem[lsda + 2], 0x03, lsda + 5, lsda + 5 + mem[lsda + 4]), lsda + 5)
  {
    OmittedPointer(mem, lsda + 1);
    assert Pow2(0) == 1;
  }

  /** Without type infos there is no offset to them, and their table ends at 0. */
  lemma HeaderWithoutTypes(mem: seq<byte>, lsda: nat)
    requires lsda + 4 <= |mem| && mem[lsda] == 0xff && mem[lsda + 1] == 0xff && mem[lsda + 3] < 0x80
    ensures ParseHeader(mem, lsda)
            == Got(Header(0, mem[lsda + 2], lsda + 4, lsda + 4 + mem[lsda + 3] as int), lsda + 4)
  {
    OmittedPointer(mem, lsda + 1);
    assert Pow2(0) == 1;
  }

  /** A start address, here of four bytes, is passed over. */
  lemma HeaderWithStart(mem: seq<byte>, lsda: nat)
    requires lsda + 9 <= |mem| && mem[lsda] == 0x03 && mem[lsda + 5] == 0xff && mem[lsda + 7] < 0x80
    ensures ParseHeader(mem, lsda)
            == Got(Header(0, mem[lsda + 6], lsda + 8, lsda + 8 + mem[lsda + 7] as int), lsda + 8)
  {
    hide Full, EncodedPointer, DecodeUnsigned;
    FixedFormats(mem, lsda + 1);
    OneByte(mem, lsda + 7);
  }

  lemma OneByte(mem: seq<byte>, p: nat)
    requires p < |mem| && mem[p] < 0x80
    ensures DecodeUnsigned(mem, p, 0) == Got(mem[p] as int, p + 1)
  {
    assert Pow2(0) == 1;
  }

  /** An entry in bytes: start, length and landing pad of four bytes each, and the action. */
  lemma SiteInBytes(mem: seq<byte>, p: nat)
    requires p + 16 <= |mem| && mem[p + 12] < 0x80
    ensures ParseSite(mem, p, 0x03)
            == Got(CallSite(Full(mem, p), Full(mem, p + 4), Full(mem, p + 8), mem[p + 12]), p + 13)
  {
    hide Full, EncodedPointer;
    FixedFormats(mem, p);
    FixedFormats(mem, p + 4);
    FixedFormats(mem, p + 8);
    assert Pow2(0) == 1;
  }

  /** Between `p` and `end` stand the entries `sites`, in order. */
  ghost predicate Table(mem: seq<byte>, p: nat, end: nat, encoding: byte, sites: seq<CallSite>)
    decreases |sites|
  {
    if p >= end then sites == []
    else
      && sites != []
      && var site := ParseSite(mem, p, encoding);
      && site.Got? && site.value == sites[0] && Table(mem, site.next, end, encoding, sites[1..])
  }

  /** The scan from `p` reads the entries `sites`, in order: up to the first that covers `offset`, or all of them. */
  ghost predicate Scans(mem: seq<byte>, p: nat, end: nat, encoding: byte, offset: nat, sites: seq<CallSite>)
    decreases |sites|
  {
    if p >= end then sites == []
    else
      && sites != []
      && var site := ParseSite(mem, p, encoding);
      && site.Got? && site.value == sites[0]
      && if sites[0].Covers(offset) then |sites| == 1 else Scans(mem, site.next, end, encoding, offset, sites[1..])
  }

  function Covering(sites: seq<CallSite>, offset: nat): Option<CallSite> {
    if sites == [] then None
    else if sites[0].Covers(offset) then Some(sites[0])
    else Covering(sites[1..], offset)
  }

  /** The entry found is the first with a landing pad whose range, from its start up to but not including its end,
      contains the call; there is none exactly if no entry is like that. */
  lemma {:induction false} CoveringIsFirst(sites: seq<CallSite>, offset: nat) returns (k: nat)
    ensures k <= |sites|
    ensures forall i | 0 <= i < k ::
              !(sites[i].pad != 0 && sites[i].start <= offset && offset < Wrapped(sites[i].start + sites[i].length))
    ensures if k == |sites| then Covering(sites, offset).None?
            else
              && sites[k].pad != 0 && sites[k].start <= offset && offset < Wrapped(sites[k].start + sites[k].length)
              && Covering(sites, offset) == Some(sites[k])
  {
    if sites == [] || sites[0].Covers(offset) {
      k := 0;
    } else {
      var later := CoveringIsFirst(sites[1..], offset);
      k := later + 1;
    }
  }

  /** The part of `sites` up to the first that covers `offset`. */
  function Until(sites: seq<CallSite>, offset: nat): seq<CallSite> {
    if sites == [] then []
    else if sites[0].Covers(offset) then [sites[0]]
    else [sites[0]] + Until(sites[1..], offset)
  }

  /** On a whole table the scan reads the entries up to the one it acts on. */
  lemma {:induction false} TableScans(mem: seq<byte>, p: nat, end: nat, encoding: byte, offset: nat,
                                      sites: seq<CallSite>)
    requires Table(mem, p, end, encoding, sites)
    ensures Scans(mem, p, end, encoding, offset, Until(sites, offset))
    ensures Covering(Until(sites, offset), offset) == Covering(sites, offset)
    decreases |sites|
  {
    if sites != [] && !sites[0].Covers(offset) {
      TableScans(mem, ParseSite(mem, p, encoding).next, end, encoding, offset, sites[1..]);
      assert Until(sites, offset)[1..] == Until(sites[1..], offset);
    }
  }

  lemma {:induction false} ScansUnique(mem: seq<byte>, p: nat, end: nat, encoding: byte, offset: nat,
                                       a: seq<CallSite>, b: seq<CallSite>)
    requires Scans(mem, p, end, encoding, offset, a) && Scans(mem, p, end, encoding, offset, b)
    ensures a == b
    decreases |a|
  {
    if a != [] && !a[0].Covers(offset) {
      ScansUnique(mem, ParseSite(mem, p, encoding).next, end, encoding, offset, a[1..], b[1..]);
    }
    assert a != [] ==> a == [a[0]] + a[1..] && b == [b[0]] + b[1..];
  }

  /** The action clauses visited at the entry `site`, if there is one and it has any. */
  ghost predicate PadClauses(mem: seq<byte>, types: map<nat, int>, header: Header, site: Option<CallSite>, exn: Exn,
                             clauses: seq<Option<int>>) {
    if site.Some? && site.value.action != 0 && exn.Ours() then
      Visits(mem, types, header.classInfo, header.end + site.value.action - 1, exn.kind, clauses)
    else clauses == []
  }

  /** For a call at `offset` that throws `exn`, the table at `lsda` is read as the entries `sites`, and at the last of
      them, if it covers the call, as the action clauses `clauses`. Nothing is asked of what is not read. */
  ghost predicate Describes(mem: seq<byte>, types: map<nat, int>, lsda: nat, offset: nat, exn: Exn,
                            sites: seq<CallSite>, clauses: seq<Option<int>>) {
    && var header := ParseHeader(mem, lsda);
    && header.Got?
    && Scans(mem, header.value.start, header.value.end, header.value.encoding, offset, sites)
    && PadClauses(mem, types, header.value, Covering(sites, offset), exn, clauses)
  }

  /** What is read is decided by the bytes. */
  lemma DescribesUnique(mem: seq<byte>, types: map<nat, int>, lsda: nat, offset: nat, exn: Exn,
                        sites: seq<CallSite>, clauses: seq<Option<int>>,
                        sites': seq<CallSite>, clauses': seq<Option<int>>)
    requires Describes(mem, types, lsda, offset, exn, sites, clauses)
    requires Describes(mem, types, lsda, offset, exn, sites', clauses')
    ensures sites == sites' && clauses == clauses'
  {
    hide ParseHeader, Scans, Visits, Covering;
    var header := ParseHeader(mem, lsda).value;
    ScansUnique(mem, header.start, header.end, header.encoding, offset, sites, sites');
    var site := Covering(sites, offset);
    if site.Some? && site.value.action != 0 && exn.Ours() {
      VisitsUnique(mem, types, header.classInfo, header.end + site.value.action - 1, exn.kind, clauses, clauses');
    }
  }

  /** The answers of a personality routine. */
  datatype Reason = ContinueUnwind | HandlerFound | InstallContext

  /** What the routine selects at a pad: the 1-based position of the clause that catches the exception, or 0. */
  function Selector(clauses: seq<Option<int>>, exn: Exn): nat {
    if exn.Ours() then FirstMatch(clauses, exn.kind) else 0
  }

  function Answer(covered: bool, selector: nat, search: bool): (reason: Reason)
    ensures reason == HandlerFound <==> covered && search && selector > 0
    ensures reason == InstallContext <==> covered && !search
  {
    if !covered then ContinueUnwind
    else if !search then InstallContext
    else if selector > 0 then HandlerFound
    else ContinueUnwind
  }

  /** How far into the function, which starts at `regionStart`, the call stands that returns to `ip`. */
  function CallOffset(ip: nat, regionStart: nat): (offset: nat)
    ensures regionStart < ip <= WORD ==> offset == ip - 1 - regionStart
  {
    Wrapped(Wrapped(ip - 1) - regionStart)
  }

  /** The unwinder's view of one activation of a function. */
  class UnwindContext {
    var ip: nat
    /** The two registers in which a landing pad finds its arguments. */
    var gr0: nat
    var gr1: nat
    const regionStart: nat

    constructor (ip: nat, regionStart: nat)
      ensures this.ip == ip && this.regionStart == regionStart
    {
      this.ip, this.regionStart := ip, regionStart;
    }

    method SetGR(which: nat, value: nat)
      requires which < 2
      modifies this
      ensures ip == old(ip)
      ensures gr0 == (if which == 0 then value else old(gr0)) && gr1 == (if which == 1 then value else old(gr1))
    {
      if which == 0 {
        gr0 := value;
      } else {
        gr1 := value;
      }
    }

    method SetIP(value: nat)
      modifies this`ip
      ensures ip == value
    {
      ip := value;
    }
  }

  /** The place of the first entry with a landing pad whose range contains `offset`, or the number of entries. */
  function FirstAround(sites: seq<CallSite>, offset: nat): (k: nat)
    ensures k <= |sites|
    ensures forall j | 0 <= j < k ::
              sites[j].pad == 0 || offset < sites[j].start || Wrapped(sites[j].start + sites[j].length) <= offset
    ensures k < |sites| ==>
              sites[k].pad != 0 && sites[k].start <= offset && offset < Wrapped(sites[k].start + sites[k].length)
  {
    if sites == [] then 0
    else if sites[0].pad != 0 && sites[0].start <= offset < Wrapped(sites[0].start + sites[0].length) then 0
    else FirstAround(sites[1..], offset) + 1
  }

  /** Something is done only if some entry has a landing pad and a range that contains the call, and then it is done at
      the first such entry: in the cleanup phase its landing pad is entered. If no entry is like that, the unwinder is
      told to go on. */
  ghost predicate ActsOnFirst(sites: seq<CallSite>, offset: nat, search: bool, reason: Reason, context: UnwindContext)
    reads context
  {
    var k := FirstAround(sites, offset);
    if k == |sites| then reason == ContinueUnwind
    else if search then reason != InstallContext
    else reason == InstallContext && context.ip == Wrapped(context.regionStart + sites[k].pad)
  }

  method HandleLsda(mem: seq<byte>, types: map<nat, int>, lsda: Option<nat>, search: bool, exn: Exn,
                    context: UnwindContext,
                    ghost sites: seq<CallSite>, ghost clauses: seq<Option<int>>) returns (reason: Reason)
    requires lsda.Some? ==>
               Describes(mem, types, lsda.value, CallOffset(context.ip, context.regionStart), exn, sites, clauses)
    modifies context
    ensures var site := if lsda.Some? then Covering(sites, CallOffset(old(context.ip), context.regionStart)) else None;
            && reason == Answer(site.Some?, Selector(clauses, exn), search)
            && (if reason == InstallContext then
                  && context.gr0 == exn.id && context.gr1 == Selector(clauses, exn)
                  && site.Some? && context.ip == Wrapped(context.regionStart + site.value.pad)
                else unchanged(context))
    ensures lsda.None? ==> reason == ContinueUnwind
    ensures lsda.Some? ==> ActsOnFirst(sites, CallOffset(old(context.ip), context.regionStart), search, reason, context)
  {
    hide ParseHeader, Scans, PadClauses, Selector, Covering, ActsOnFirst;
    reason := ContinueUnwind;
    if lsda.None? {
      return;
    }
    var pc := Wrapped(context.ip - 1);
    var pcOffset := Wrapped(pc - context.regionStart);
    var header := ReadHeader(mem, lsda.value);
    reason := ScanSites(mem, types, header, pcOffset, search, exn, context, sites, clauses);
  }

  method ReadHeader(mem: seq<byte>, lsda: nat) returns (header: Header)
    requires ParseHeader(mem, lsda).Got?
    ensures header == ParseHeader(mem, lsda).value
  {
    hide EncodedPointer, DecodeUnsigned;
    var p: nat := lsda;
    var lpStartEncoding := mem[p];
    p := p + 1;
    assert EncodedPointer(mem, p, lpStartEncoding).Got?;
    OmittedPointer(mem, p);
    if lpStartEncoding != OMIT {
      var lpStart := ReadEncodedPointer(mem, p, lpStartEncoding);
      p := lpStart.next;
    }
    var ttypeEncoding := mem[p];
    p := p + 1;
    var classInfo: nat := 0;
    if ttypeEncoding != OMIT {
      var classInfoOffset;
      classInfoOffset, p := ReadULEB128(mem, p);
      classInfo := p + classInfoOffset;
    }
    var callSiteEncoding := mem[p];
    p := p + 1;
    var callSiteTableLength;
    callSiteTableLength, p := ReadULEB128(mem, p);
    header := Header(classInfo, callSiteEncoding, p, p + callSiteTableLength);
  }

  lemma OmittedPointer(mem: seq<byte>, p: nat)
    ensures EncodedPointer(mem, p, OMIT) == Got(0, p)
  {
  }

  method ReadSite(mem: seq<byte>, callSitePtr: nat, encoding: byte) returns (site: CallSite, next: nat)
    requires ParseSite(mem, callSitePtr, encoding).Got?
    ensures ParseSite(mem, callSitePtr, encoding) == Got(site, next) && next > callSitePtr
  {
    hide EncodedPointer, DecodeUnsigned;
    var start := ReadEncodedPointer(mem, callSitePtr, encoding);
    var length := ReadEncodedPointer(mem, start.next, encoding);
    var landingPad := ReadEncodedPointer(mem, length.next, encoding);
    var actionEntry;
    actionEntry, next := ReadULEB128(mem, landingPad.next);
    site := CallSite(start.value, length.value, landingPad.value, actionEntry);
  }

  /** The scan of the call-site table: each round consumes at least one byte. */
  method ScanSites(mem: seq<byte>, types: map<nat, int>, header: Header, pcOffset: nat, search: bool, exn: Exn,
                   context: UnwindContext, ghost sites: seq<CallSite>, ghost clauses: seq<Option<int>>)
    returns (reason: Reason)
    requires Scans(mem, header.start, header.end, header.encoding, pcOffset, sites)
    requires PadClauses(mem, types, header, Covering(sites, pcOffset), exn, clauses)
    modifies context
    ensures var site := Covering(sites, pcOffset);
            && reason == Answer(site.Some?, Selector(clauses, exn), search)
            && (if reason == InstallContext then
                  && context.gr0 == exn.id && context.gr1 == Selector(clauses, exn)
                  && site.Some? && context.ip == Wrapped(context.regionStart + site.value.pad)
                else unchanged(context))
    ensures ActsOnFirst(sites, pcOffset, search, reason, context)
  {
    ghost var first := CoveringIsFirst(sites, pcOffset);
    hide ParseSite, Visits, FirstMatch, Wrapped;
    reason := ContinueUnwind;
    var callSitePtr: nat := header.start;
    ghost var rest := sites;
    while callSitePtr < header.end
      invariant Scans(mem, callSitePtr, header.end, header.encoding, pcOffset, rest)
      invariant Covering(rest, pcOffset) == Covering(sites, pcOffset)
      invariant reason == ContinueUnwind && unchanged(context)
      decreases header.end - callSitePtr
    {
      var site;
      site, callSitePtr := ReadSite(mem, callSitePtr, header.encoding);
      rest := rest[1..];
      if site.pad == 0 {
        continue;
      }
      if site.start <= pcOffset && pcOffset < Wrapped(site.start + site.length) {
        assert Covering(sites, pcOffset) == Some(site);
        reason := AtPad(mem, types, header, site, search, exn, context, clauses);
        return;
      }
    }
  }

  /** What is done at the entry that covers the call: a foreign exception is given no action. */
  method AtPad(mem: seq<byte>, types: map<nat, int>, header: Header, site: CallSite, search: bool, exn: Exn,
               context: UnwindContext, ghost clauses: seq<Option<int>>) returns (reason: Reason)
    requires PadClauses(mem, types, header, Some(site), exn, clauses) && header.end > 0
    modifies context
    ensures reason == Answer(true, Selector(clauses, exn), search)
    ensures if reason == InstallContext then
              && context.gr0 == exn.id && context.gr1 == Selector(clauses, exn)
              && context.ip == Wrapped(context.regionStart + site.pad)
            else unchanged(context)
  {
    hide Visits, Wrapped;
    reason := ContinueUnwind;
    var actionEntry := if exn.Ours() then site.action else 0;
    if actionEntry != 0 {
      actionEntry := actionEntry + header.end - 1;
    }
    var exceptionMatched, actionValue := false, 0;
    if actionEntry != 0 {
      exceptionMatched, actionValue := HandleActionValue(mem, types, header.classInfo, actionEntry, exn, clauses);
    }
    if !search {
      context.SetGR(0, exn.id);
      if actionEntry == 0 || !exceptionMatched {
        context.SetGR(1, 0);
      } else {
        context.SetGR(1, actionValue);
      }
      context.SetIP(Wrapped(context.regionStart + site.pad));
      reason := InstallContext;
    } else if exceptionMatched {
      reason := HandlerFound;
    }
  }

  /** Both phases at one activation: the search finds a handler exactly when the cleanup then enters the pad with a
      positive selector, which is never the case for a foreign exception; a covering pad without a match is
      entered with selector 0; and the search leaves the activation as it is. */
  method TwoPhases(mem: seq<byte>, types: map<nat, int>, lsda: Option<nat>, exn: Exn, context: UnwindContext,
                   ghost sites: seq<CallSite>, ghost clauses: seq<Option<int>>) returns (first: Reason, second: Reason)
    requires lsda.Some? ==>
               Describes(mem, types, lsda.value, CallOffset(context.ip, context.regionStart), exn, sites, clauses)
    modifies context
    ensures first == HandlerFound <==> second == InstallContext && context.gr1 > 0
    ensures second == InstallContext <==>
              lsda.Some? && Covering(sites, CallOffset(old(context.ip), context.regionStart)).Some?
    ensures second == InstallContext && first != HandlerFound ==> context.gr1 == 0
    ensures !exn.Ours() ==> first != HandlerFound
    ensures first != InstallContext && second != HandlerFound
    ensures second != InstallContext ==> first == ContinueUnwind && second == ContinueUnwind
  {
    first := HandleLsda(mem, types, lsda, true, exn, context, sites, clauses);
    second := HandleLsda(mem, types, lsda, false, exn, context, sites, clauses);
  }
}
