/** The exception table that the JIT emits for a function with one landing pad, and that the personality routine
    reads back from it what went in. */
module ExceptionTables {
  import opened Wrappers
  import opened Bytes
  import opened Leb128
  import opened EncodedPointers
  import opened Lsda

  // ---------- Type ids ----------

  /** The type infos of a function, in the order in which they are first asked for: the clauses last to first. */
  function TypeInfos(catches: seq<int>): (infos: seq<int>)
    ensures |infos| <= |catches|
    ensures forall i, j | 0 <= i < j < |infos| :: infos[i] != infos[j]
    ensures forall i | 0 <= i < |catches| :: catches[i] in infos
    ensures forall i | 0 <= i < |infos| :: infos[i] in catches
  {
    if catches == [] then []
    else
      var infos := TypeInfos(catches[1..]);
      if catches[0] in infos then infos else infos + [catches[0]]
  }

  /** The 1-based place of `kind` among the type infos. */
  function TypeId(infos: seq<int>, kind: int): (id: nat)
    requires kind in infos
    ensures 1 <= id <= |infos| && infos[id - 1] == kind
  {
    if infos[0] == kind then 1 else TypeId(infos[1..], kind) + 1
  }

  /** The ids of a pad's clauses in order, and a last 0 for its cleanup. */
  function ClauseIds(catches: seq<int>, infos: seq<int>): (ids: seq<nat>)
    requires forall i | 0 <= i < |catches| :: catches[i] in infos
    ensures |ids| == |catches| + 1
  {
    if catches == [] then [0] else [TypeId(infos, catches[0])] + ClauseIds(catches[1..], infos)
  }

  // ---------- Actions ----------

  function Record(id: nat, next: int): seq<byte> {
    EncodeSigned(id) + EncodeSigned(next)
  }

  /** The record that leads to the one before it, of size `before`, if there is one. */
  function Link(id: nat, before: nat): seq<byte> {
    Record(id, if before == 0 then 0 else -(before + |EncodeSigned(id)|))
  }

  /** The size of the last record written for `ids`, which is the first of its chain. */
  function FirstSize(ids: seq<nat>): nat {
    if ids == [] then 0 else |Link(ids[0], FirstSize(ids[1..]))|
  }

  /** The records are written from the end of the chain to its start. */
  function Actions(ids: seq<nat>): seq<byte> {
    if ids == [] then [] else Actions(ids[1..]) + Link(ids[0], FirstSize(ids[1..]))
  }

  /** The actions of a pad; if it has a cleanup only, none. */
  function PadActions(catches: seq<int>): seq<byte> {
    if catches == [] then [] else Actions(ClauseIds(catches, TypeInfos(catches)))
  }

  /** What the call sites of the pad name as their action. */
  function FirstAction(catches: seq<int>): nat {
    if catches == [] then 0
    else
      var ids := ClauseIds(catches, TypeInfos(catches));
      FirstSizeBound(ids);
      |Actions(ids)| - FirstSize(ids) + 1
  }

  lemma FirstSizeBound(ids: seq<nat>)
    ensures FirstSize(ids) <= |Actions(ids)|
    ensures ids != [] ==> FirstSize(ids) > 0
  {
    if ids != [] {
      EncodedNotEmpty(ids[0]);
    }
  }

  lemma FirstActionInside(catches: seq<int>)
    ensures FirstAction(catches) <= |PadActions(catches)|
  {
    if catches != [] {
      FirstSizeBound(ClauseIds(catches, TypeInfos(catches)));
    }
  }

  lemma EncodedNotEmpty(v: int)
    ensures |EncodeSigned(v)| > 0
  {
  }

  /** The clauses of a pad as the personality routine sees them. */
  function Clauses(catches: seq<int>): (clauses: seq<Option<int>>)
    ensures |clauses| == |catches| + 1
  {
    if catches == [] then [None] else [Some(catches[0])] + Clauses(catches[1..])
  }

  lemma RecordDecodes(mem: seq<byte>, p: nat, id: nat, next: int)
    requires At(mem, p, Record(id, next)) && id < 0x8000_0000 && -0x800_0000 <= next < 0x8000_0000
    ensures var size := |EncodeSigned(id)|;
            && DecodeSigned(mem, p, 0) == Got(id, p + size)
            && DecodeSigned(mem, p + size, 0) == Got(next, p + |Record(id, next)|)
  {
    hide At, DecodeSigned, EncodeSigned;
    AtSplit(mem, p, EncodeSigned(id), EncodeSigned(next));
    SignedRoundTrip(mem, p, id);
    SignedRoundTrip(mem, p + |EncodeSigned(id)|, next);
  }

  /** A record in front of a chain. */
  lemma ChainLink(mem: seq<byte>, types: map<nat, int>, classInfo: nat, p: nat, id: nat, next: int,
                  rest: seq<Option<int>>)
    requires var size := |EncodeSigned(id)|;
             && DecodeSigned(mem, p, 0) == Got(id, p + size)
             && DecodeSigned(mem, p + size, 0).Got? && DecodeSigned(mem, p + size, 0).value == next
             && (if next == 0 then rest == []
                 else p + size + next >= 0 && Chain(mem, types, classInfo, p + size + next, rest))
    requires id > 0 ==> ClauseOf(mem, types, classInfo, id).Some?
    ensures Chain(mem, types, classInfo, p, [ClauseOf(mem, types, classInfo, id)] + rest)
  {
    hide ClauseOf, DecodeSigned, EncodeSigned;
    assert ([ClauseOf(mem, types, classInfo, id)] + rest)[1..] == rest;
  }

  /** The records written for `catches` are a chain of its clauses, in order, then the cleanup. */
  lemma {:induction false} ActionsChain(mem: seq<byte>, types: map<nat, int>, classInfo: nat, base: nat,
                                        catches: seq<int>, infos: seq<int>)
    requires forall i | 0 <= i < |catches| :: catches[i] in infos
    requires forall i | 0 <= i < |infos| :: TypeOf(mem, types, classInfo, i + 1) == Some(infos[i])
    requires |infos| < 0x8000_0000
    requires At(mem, base, Actions(ClauseIds(catches, infos))) && |Actions(ClauseIds(catches, infos))| < 0x800_0000
    ensures var ids := ClauseIds(catches, infos);
            && FirstSize(ids) <= |Actions(ids)|
            && Chain(mem, types, classInfo, base + |Actions(ids)| - FirstSize(ids), Clauses(catches))
    decreases |catches|
  {
    hide TypeOf, At, DecodeSigned, EncodeSigned, Chain, Link;
    var ids := ClauseIds(catches, infos);
    var before := FirstSize(ids[1..]);
    var next := if before == 0 then 0 else -(before + |EncodeSigned(ids[0])|);
    var p := base + |Actions(ids[1..])|;
    FirstSizeBound(ids);
    FirstSizeBound(ids[1..]);
    AtSplit(mem, base, Actions(ids[1..]), Link(ids[0], before));
    LinkIs(ids[0], before);
    RecordDecodes(mem, p, ids[0], next);
    if catches == [] {
      assert ids[1..] == [];
      ChainLink(mem, types, classInfo, p, 0, 0, []);
      assert Clauses(catches) == [ClauseOf(mem, types, classInfo, 0)] + [];
    } else {
      assert ids[1..] == ClauseIds(catches[1..], infos);
      ActionsChain(mem, types, classInfo, base, catches[1..], infos);
      ChainLink(mem, types, classInfo, p, ids[0], next, Clauses(catches[1..]));
    }
  }

  lemma LinkIs(id: nat, before: nat)
    ensures Link(id, before) == Record(id, if before == 0 then 0 else -(before + |EncodeSigned(id)|))
    ensures before > 0 ==> |Link(id, before)| > |EncodeSigned(id)|
  {
    EncodedNotEmpty(if before == 0 then 0 else -(before + |EncodeSigned(id)|));
  }

  // ---------- Call sites ----------

  function SiteBytes(site: CallSite): seq<byte> {
    Fixed(site.start, 4) + (Fixed(site.length, 4) + (Fixed(site.pad, 4) + EncodeUnsigned(site.action)))
  }

  function SitesBytes(sites: seq<CallSite>): seq<byte> {
    if sites == [] then [] else SiteBytes(sites[0]) + SitesBytes(sites[1..])
  }

  predicate SiteFits(site: CallSite) {
    site.start < 0x1_0000_0000 && site.length < 0x1_0000_0000 && site.pad < 0x1_0000_0000 && site.action < 0x8000_0000
  }

  lemma WordDecodes(mem: seq<byte>, p: nat, v: nat)
    requires At(mem, p, Fixed(v, 4)) && v < 0x1_0000_0000
    ensures EncodedPointer(mem, p, UDATA4) == Got(v, p + 4)
  {
    WordSizes();
    PointerRoundTrip(mem, p, UDATA4, v, false);
  }

  lemma SiteDecodes(mem: seq<byte>, p: nat, site: CallSite)
    requires At(mem, p, SiteBytes(site)) && SiteFits(site)
    ensures ParseSite(mem, p, UDATA4) == Got(site, p + |SiteBytes(site)|)
  {
    hide At, EncodedPointer, DecodeUnsigned, EncodeUnsigned, Fixed;
    var rest := Fixed(site.pad, 4) + EncodeUnsigned(site.action);
    AtSplit(mem, p, Fixed(site.start, 4), Fixed(site.length, 4) + rest);
    AtSplit(mem, p + 4, Fixed(site.length, 4), rest);
    AtSplit(mem, p + 8, Fixed(site.pad, 4), EncodeUnsigned(site.action));
    WordDecodes(mem, p, site.start);
    WordDecodes(mem, p + 4, site.length);
    WordDecodes(mem, p + 8, site.pad);
    UnsignedRoundTrip(mem, p + 12, site.action);
  }

  lemma {:induction false} SitesDecode(mem: seq<byte>, p: nat, sites: seq<CallSite>)
    requires At(mem, p, SitesBytes(sites)) && forall i | 0 <= i < |sites| :: SiteFits(sites[i])
    ensures Table(mem, p, p + |SitesBytes(sites)|, UDATA4, sites)
    decreases |sites|
  {
    hide At, ParseSite, SiteBytes;
    if sites != [] {
      AtSplit(mem, p, SiteBytes(sites[0]), SitesBytes(sites[1..]));
      SiteDecodes(mem, p, sites[0]);
      SitesDecode(mem, p + |SiteBytes(sites[0])|, sites[1..]);
    }
  }

  // ---------- Type infos ----------

  /** `globals` gives the address of each type-info object, and `types` what it holds. */
  ghost predicate Loaded(globals: map<int, nat>, types: map<nat, int>, infos: seq<int>) {
    forall i | 0 <= i < |infos| ::
      && infos[i] in globals && globals[infos[i]] < WORD
      && globals[infos[i]] in types && types[globals[infos[i]]] == infos[i]
  }

  function TypeBytes(infos: seq<int>, globals: map<int, nat>): (bs: seq<byte>)
    requires forall i | 0 <= i < |infos| :: infos[i] in globals
    ensures |bs| == 8 * |infos|
  {
    if infos == [] then [] else TypeBytes(infos[1..], globals) + Fixed(globals[infos[0]], 8)
  }

  lemma AddressDecodes(mem: seq<byte>, p: nat, v: nat)
    requires At(mem, p, Fixed(v, 8)) && v < WORD
    ensures Raw(mem, p, ABSPTR) == Got(v, p + 8)
  {
    hide Pow2, At, Raw, Fixed;
    WordSizes();
    RawRoundTrip(mem, p, ABSPTR, v);
  }

  lemma {:induction false} TypesDecode(mem: seq<byte>, p: nat, infos: seq<int>, globals: map<int, nat>,
                                       types: map<nat, int>)
    requires Loaded(globals, types, infos) && At(mem, p, TypeBytes(infos, globals))
    ensures forall i | 0 <= i < |infos| :: TypeOf(mem, types, p + 8 * |infos|, i + 1) == Some(infos[i])
  {
    hide At, Raw, Fixed;
    if infos != [] {
      var rest := TypeBytes(infos[1..], globals);
      AtSplit(mem, p, rest, Fixed(globals[infos[0]], 8));
      AddressDecodes(mem, p + |rest|, globals[infos[0]]);
      TypesDecode(mem, p, infos[1..], globals, types);
      hide TypeBytes, Loaded;
      forall i | 0 < i < |infos| ensures TypeOf(mem, types, p + 8 * |infos|, i + 1) == Some(infos[i]) {
        NextType(mem, types, p + 8 * |infos[1..]|, i);
        assert TypeOf(mem, types, p + 8 * |infos[1..]|, i - 1 + 1) == Some(infos[1..][i - 1]);
      }
    }
  }

  lemma NextType(mem: seq<byte>, types: map<nat, int>, end: nat, id: nat)
    ensures TypeOf(mem, types, end + 8, id + 1) == TypeOf(mem, types, end, id)
  {
  }

  // ---------- The whole table ----------

  function CatchTypes(catches: seq<int>, globals: map<int, nat>): seq<byte>
    requires forall i | 0 <= i < |catches| :: catches[i] in globals
  {
    TypeBytes(TypeInfos(catches), globals)
  }

  /** The call-site table, with its encoding and length, and the tables that follow it. */
  function Tables(sites: seq<byte>, actions: seq<byte>, types: seq<byte>): seq<byte> {
    [UDATA4] + (EncodeUnsigned(|sites|) + (sites + (actions + types)))
  }

  /** No start of its own for the landing pads, and `rest` with its length as the offset of the type infos. */
  function WithHeader(rest: seq<byte>): seq<byte> {
    [OMIT] + ([ABSPTR] + (EncodeUnsigned(|rest|) + rest))
  }

  /** What follows the type offset. */
  function Rest(sites: seq<CallSite>, catches: seq<int>, globals: map<int, nat>): seq<byte>
    requires forall i | 0 <= i < |catches| :: catches[i] in globals
  {
    Tables(SitesBytes(sites), PadActions(catches), CatchTypes(catches, globals))
  }

  function ExceptionTable(sites: seq<CallSite>, catches: seq<int>, globals: map<int, nat>): seq<byte>
    requires forall i | 0 <= i < |catches| :: catches[i] in globals
  {
    WithHeader(Rest(sites, catches, globals))
  }

  /** The parts of a table in memory. */
  lemma TableParts(mem: seq<byte>, lsda: nat, sites: seq<CallSite>, catches: seq<int>, globals: map<int, nat>)
    returns (p: nat)
    requires forall i | 0 <= i < |catches| :: catches[i] in globals
    requires At(mem, lsda, ExceptionTable(sites, catches, globals)) && |Rest(sites, catches, globals)| < 0x800_0000
    ensures var actions, infos := PadActions(catches), TypeInfos(catches);
            var end := p + |SitesBytes(sites)|;
            && At(mem, p, SitesBytes(sites)) && At(mem, end, actions)
            && At(mem, end + |actions|, TypeBytes(infos, globals))
            && ParseHeader(mem, lsda)
               == Got(Header(end + |actions| + 8 * |infos|, UDATA4, p, end), p)
  {
    hide At, DecodeUnsigned, EncodeUnsigned, TypeBytes, SitesBytes, PadActions;
    var rest, actions, types := Rest(sites, catches, globals), PadActions(catches),
        TypeBytes(TypeInfos(catches), globals);
    var bytes := SitesBytes(sites);
    AtHead(mem, lsda, OMIT, [ABSPTR] + (EncodeUnsigned(|rest|) + rest));
    AtHead(mem, lsda + 1, ABSPTR, EncodeUnsigned(|rest|) + rest);
    AtSplit(mem, lsda + 2, EncodeUnsigned(|rest|), rest);
    UnsignedRoundTrip(mem, lsda + 2, |rest|);
    var r := lsda + 2 + |EncodeUnsigned(|rest|)|;
    AtHead(mem, r, UDATA4, EncodeUnsigned(|bytes|) + (bytes + (actions + types)));
    AtSplit(mem, r + 1, EncodeUnsigned(|bytes|), bytes + (actions + types));
    UnsignedRoundTrip(mem, r + 1, |bytes|);
    p := r + 1 + |EncodeUnsigned(|bytes|)|;
    AtSplit(mem, p, bytes, actions + types);
    AtSplit(mem, p + |bytes|, actions, types);
    OmittedPointer(mem, lsda + 1);
  }

  /** The sites lead to one pad, and name its action exactly where they lead to it. */
  ghost predicate SitesOf(sites: seq<CallSite>, catches: seq<int>) {
    forall i | 0 <= i < |sites| ::
      SiteFits(sites[i]) && sites[i].action == if sites[i].pad == 0 then 0 else FirstAction(catches)
  }

  /** What the personality routine reads from an emitted table is what was put in: every call site, and from the action
      that the covering sites name the catch clauses in their order, then the cleanup. */
  lemma TableRoundTrip(mem: seq<byte>, lsda: nat, sites: seq<CallSite>, catches: seq<int>, globals: map<int, nat>,
                       types: map<nat, int>)
    requires Loaded(globals, types, TypeInfos(catches)) && SitesOf(sites, catches)
    requires forall i | 0 <= i < |catches| :: catches[i] in globals
    requires At(mem, lsda, ExceptionTable(sites, catches, globals)) && |Rest(sites, catches, globals)| < 0x800_0000
    ensures var header := ParseHeader(mem, lsda);
            && header.Got?
            && Table(mem, header.value.start, header.value.end, header.value.encoding, sites)
            && (catches != [] ==>
                  && FirstAction(catches) > 0
                  && Chain(mem, types, header.value.classInfo, header.value.end + FirstAction(catches) - 1,
                           Clauses(catches)))
  {
    hide At, Rest, ExceptionTable, Chain, Table, ParseHeader, TypeBytes, SitesBytes, PadActions, FirstAction, Loaded;
    var p := TableParts(mem, lsda, sites, catches, globals);
    var end, infos := p + |SitesBytes(sites)|, TypeInfos(catches);
    SitesDecode(mem, p, sites);
    if catches != [] {
      PadSmaller(sites, catches, globals);
      PadDecodes(mem, end, catches, globals, types);
    }
  }

  lemma CoveringIn(sites: seq<CallSite>, offset: nat)
    ensures Covering(sites, offset).Some? ==>
              Covering(sites, offset).value in sites && Covering(sites, offset).value.Covers(offset)
  {
  }

  /** The clauses read when `exn` is thrown at `offset`. */
  function ReadClauses(sites: seq<CallSite>, catches: seq<int>, offset: nat, exn: Exn): seq<Option<int>> {
    if Covering(sites, offset).Some? && catches != [] && exn.Ours() then UpTo(Clauses(catches), exn.kind) else []
  }

  /** For any call and exception, the routine reads the sites up to the one that covers the call, and its clauses up to
      the one that catches the exception. */
  lemma TableDescribes(mem: seq<byte>, lsda: nat, sites: seq<CallSite>, catches: seq<int>, globals: map<int, nat>,
                       types: map<nat, int>, offset: nat, exn: Exn)
    requires Loaded(globals, types, TypeInfos(catches)) && SitesOf(sites, catches)
    requires forall i | 0 <= i < |catches| :: catches[i] in globals
    requires At(mem, lsda, ExceptionTable(sites, catches, globals)) && |Rest(sites, catches, globals)| < 0x800_0000
    ensures Describes(mem, types, lsda, offset, exn, Until(sites, offset), ReadClauses(sites, catches, offset, exn))
    ensures Covering(Until(sites, offset), offset) == Covering(sites, offset)
  {
    hide At, Rest, ExceptionTable, Chain, Table, Visits, Scans, ParseHeader, FirstAction, Loaded, Clauses;
    hide TypeInfos, UpTo;
    TableRoundTrip(mem, lsda, sites, catches, globals, types);
    var header := ParseHeader(mem, lsda).value;
    TableScans(mem, header.start, header.end, header.encoding, offset, sites);
    CoveringIn(sites, offset);
    NoAction();
    if catches != [] {
      ChainVisits(mem, types, header.classInfo, header.end + FirstAction(catches) - 1, exn.kind, Clauses(catches));
    }
  }

  /** A pad with a cleanup only has no actions. */
  lemma NoAction()
    ensures FirstAction([]) == 0 && PadActions([]) == []
  {
  }

  lemma PadSmaller(sites: seq<CallSite>, catches: seq<int>, globals: map<int, nat>)
    requires forall i | 0 <= i < |catches| :: catches[i] in globals
    ensures |PadActions(catches)| + 8 * |TypeInfos(catches)| <= |Rest(sites, catches, globals)|
  {
    hide PadActions, SitesBytes, EncodeUnsigned, TypeInfos;
  }

  /** The actions and type infos of one pad. */
  lemma PadDecodes(mem: seq<byte>, end: nat, catches: seq<int>, globals: map<int, nat>, types: map<nat, int>)
    requires catches != [] && Loaded(globals, types, TypeInfos(catches))
    requires forall i | 0 <= i < |catches| :: catches[i] in globals
    requires At(mem, end, PadActions(catches)) && |PadActions(catches)| + 8 * |TypeInfos(catches)| < 0x800_0000
    requires At(mem, end + |PadActions(catches)|, TypeBytes(TypeInfos(catches), globals))
    ensures FirstAction(catches) > 0
    ensures Chain(mem, types, end + |PadActions(catches)| + 8 * |TypeInfos(catches)|, end + FirstAction(catches) - 1,
                  Clauses(catches))
  {
    hide At, Chain, TypeBytes, Loaded, TypeInfos, Actions, FirstSize, ClauseIds, TypeOf;
    var actions, infos := PadActions(catches), TypeInfos(catches);
    TypesDecode(mem, end + |actions|, infos, globals, types);
    ActionsChain(mem, types, end + |actions| + 8 * |infos|, end, catches, infos);
  }

  /** The selector at a pad is the 1-based position of the first clause for the thrown type. */
  lemma {:induction false} SelectorIsFirstClause(catches: seq<int>, kind: int)
    ensures var r := FirstMatch(Clauses(catches), kind);
            if r == 0 then kind !in catches
            else r <= |catches| && catches[r - 1] == kind && forall i | 0 <= i < r - 1 :: catches[i] != kind
  {
    if catches != [] {
      SelectorIsFirstClause(catches[1..], kind);
      assert Clauses(catches)[1..] == Clauses(catches[1..]);
      assert forall i | 0 < i < |catches| :: catches[i] == catches[1..][i - 1];
    } else {
      assert Clauses(catches)[1..] == [];
    }
  }

  // ---------- Call sites from the code ----------

  /** A place in the code; 0 is none. */
  type Label = nat

  /** An instruction, as far as call sites go. */
  datatype Op = Plain | Calls | Mark(place: Label)

  /** What the label at the start of a try range says: where the range ends, its landing pad and that pad's action. */
  datatype Try = Try(end: Label, pad: Label, action: nat)

  datatype Span = Span(begin: Label, end: Label, pad: Label, action: nat)

  /** The range begun by `begin`, after `done`: it extends the last one if that leads to the same pad and action. */
  function AddTry(done: seq<Span>, begin: Label, t: Try): seq<Span> {
    var last := |done| - 1;
    if done != [] && done[last].pad == t.pad && done[last].action == t.action then
      done[last := done[last].(end := t.end)]
    else
      done + [Span(begin, t.end, t.pad, t.action)]
  }

  /** Whether, after `op`, something since `last` may throw. */
  predicate MayThrow(op: Op, mayThrow: bool, last: Label) {
    if op.Mark? then mayThrow && op.place != last else mayThrow || op.Calls?
  }

  /** The entry without a pad for what may throw between two ranges. */
  function Gap(mayThrow: bool, last: Label, next: Label): seq<Span> {
    if mayThrow then [Span(last, next, 0, 0)] else []
  }

  /** The call sites of `code`, given those `done` before it, whether something since `last` may throw. */
  function Spans(code: seq<Op>, tries: map<Label, Try>, mayThrow: bool, last: Label, done: seq<Span>): seq<Span>
    decreases |code|
  {
    if code == [] then done + Gap(mayThrow, last, 0)
    else
      var may := MayThrow(code[0], mayThrow, last);
      if !code[0].Mark? || code[0].place !in tries then Spans(code[1..], tries, may, last, done)
      else
        var place := code[0].place;
        Spans(code[1..], tries, may, tries[place].end, AddTry(done + Gap(may, last, place), place, tries[place]))
  }

  /** What is emitted for a call site: offsets from the start of the function, in 32 bits. */
  function SiteOf(span: Span, at: Label -> nat, size: nat): CallSite {
    var begin := if span.begin == 0 then 0 else at(span.begin);
    var end := if span.end == 0 then size else at(span.end);
    CallSite(begin % 0x1_0000_0000, (end - begin) % 0x1_0000_0000,
             if span.pad == 0 then 0 else at(span.pad) % 0x1_0000_0000, span.action)
  }

  function SitesFrom(spans: seq<Span>, at: Label -> nat, size: nat): (sites: seq<CallSite>)
    ensures |sites| == |spans| && forall k | 0 <= k < |sites| :: sites[k] == SiteOf(spans[k], at, size)
  {
    seq(|spans|, k requires 0 <= k < |spans| => SiteOf(spans[k], at, size))
  }

  /** The try ranges that begin in `code` follow each other from `from` on, inside the function. */
  ghost predicate InOrder(code: seq<Op>, tries: map<Label, Try>, at: Label -> nat, from: nat, size: nat)
    decreases |code|
  {
    if code == [] then from <= size
    else if code[0].Mark? && code[0].place in tries then
      var begin, end := code[0].place, tries[code[0].place].end;
      begin != 0 && end != 0 && from <= at(begin) <= at(end) && InOrder(code[1..], tries, at, at(end), size)
    else InOrder(code[1..], tries, at, from, size)
  }

  ghost predicate SpanOver(span: Span, at: Label -> nat, pad: Label, a: nat, b: nat) {
    span.begin != 0 && span.end != 0 && span.pad == pad && at(span.begin) <= a && b <= at(span.end)
  }

  ghost predicate SomeSpan(spans: seq<Span>, at: Label -> nat, pad: Label, a: nat, b: nat) {
    exists k :: 0 <= k < |spans| && SpanOver(spans[k], at, pad, a, b)
  }

  /** The ranges with a pad end before `from`. */
  ghost predicate EndBy(spans: seq<Span>, at: Label -> nat, from: nat) {
    forall k | 0 <= k < |spans| && spans[k].pad != 0 ::
      spans[k].begin != 0 && spans[k].end != 0 && at(spans[k].begin) <= at(spans[k].end) <= from
  }

  lemma AddTryKeeps(done: seq<Span>, begin: Label, t: Try, at: Label -> nat, from: nat, pad: Label, a: nat, b: nat)
    requires EndBy(done, at, from) && SomeSpan(done, at, pad, a, b) && pad != 0
    requires begin != 0 && t.end != 0 && from <= at(begin) <= at(t.end)
    ensures SomeSpan(AddTry(done, begin, t), at, pad, a, b)
  {
    var k :| 0 <= k < |done| && SpanOver(done[k], at, pad, a, b);
    assert SpanOver(AddTry(done, begin, t)[k], at, pad, a, b);
  }

  lemma AddTryEnds(done: seq<Span>, begin: Label, t: Try, at: Label -> nat, from: nat)
    requires EndBy(done, at, from) && t.pad != 0
    requires begin != 0 && t.end != 0 && from <= at(begin) <= at(t.end)
    ensures EndBy(AddTry(done, begin, t), at, at(t.end))
    ensures SomeSpan(AddTry(done, begin, t), at, t.pad, at(begin), at(t.end))
  {
    var all := AddTry(done, begin, t);
    assert SpanOver(all[|all| - 1], at, t.pad, at(begin), at(t.end));
  }

  lemma GapKeeps(done: seq<Span>, gap: seq<Span>, at: Label -> nat, from: nat, pad: Label, a: nat, b: nat)
    requires forall k | 0 <= k < |gap| :: gap[k].pad == 0
    ensures EndBy(done, at, from) ==> EndBy(done + gap, at, from)
    ensures SomeSpan(done, at, pad, a, b) ==> SomeSpan(done + gap, at, pad, a, b)
  {
    if SomeSpan(done, at, pad, a, b) {
      var k :| 0 <= k < |done| && SpanOver(done[k], at, pad, a, b);
      assert SpanOver((done + gap)[k], at, pad, a, b);
    }
  }

  ghost predicate PadsSet(tries: map<Label, Try>) {
    forall l | l in tries :: tries[l].pad != 0
  }

  /** A range once recorded stays, if longer. */
  lemma {:induction false} SpansKeep(code: seq<Op>, tries: map<Label, Try>, mayThrow: bool, last: Label,
                                     done: seq<Span>,
                                     at: Label -> nat, from: nat, size: nat, pad: Label, a: nat, b: nat)
    requires InOrder(code, tries, at, from, size) && PadsSet(tries) && EndBy(done, at, from)
    requires SomeSpan(done, at, pad, a, b) && pad != 0
    ensures SomeSpan(Spans(code, tries, mayThrow, last, done), at, pad, a, b)
    decreases |code|
  {
    hide SomeSpan, EndBy, AddTry;
    if code == [] {
      GapKeeps(done, Gap(mayThrow, last, 0), at, from, pad, a, b);
    } else if code[0].Mark? && code[0].place in tries {
      var place := code[0].place;
      var may := MayThrow(code[0], mayThrow, last);
      var gap := Gap(may, last, place);
      GapKeeps(done, gap, at, from, pad, a, b);
      AddTryKeeps(done + gap, place, tries[place], at, from, pad, a, b);
      AddTryEnds(done + gap, place, tries[place], at, from);
      SpansKeep(code[1..], tries, may, tries[place].end, AddTry(done + gap, place, tries[place]), at,
                at(tries[place].end), size,
                pad, a, b);
    } else {
      SpansKeep(code[1..], tries, MayThrow(code[0], mayThrow, last), last, done, at, from, size, pad, a, b);
    }
  }

  /** Every try range is covered by a call site that leads to its pad. */
  lemma {:induction false} SpansCover(code: seq<Op>, tries: map<Label, Try>, mayThrow: bool, last: Label,
                                      done: seq<Span>,
                                      at: Label -> nat, from: nat, size: nat, place: Label)
    requires InOrder(code, tries, at, from, size) && PadsSet(tries) && EndBy(done, at, from)
    requires Mark(place) in code && place in tries
    ensures SomeSpan(Spans(code, tries, mayThrow, last, done), at, tries[place].pad, at(place), at(tries[place].end))
    ensures at(tries[place].end) <= size
    decreases |code|
  {
    hide SomeSpan, EndBy, AddTry;
    var t := tries[place];
    if code[0].Mark? && code[0].place in tries {
      var l := code[0].place;
      var may := MayThrow(code[0], mayThrow, last);
      var gap := Gap(may, last, l);
      GapKeeps(done, gap, at, from, t.pad, at(place), at(t.end));
      AddTryEnds(done + gap, l, tries[l], at, from);
      var all := AddTry(done + gap, l, tries[l]);
      if l == place {
        SpansKeep(code[1..], tries, may, t.end, all, at, at(t.end), size, t.pad, at(place), at(t.end));
        OrderEnds(code[1..], tries, at, at(t.end), size);
      } else {
        SpansCover(code[1..], tries, may, tries[l].end, all, at, at(tries[l].end), size, place);
      }
    } else {
      SpansCover(code[1..], tries, MayThrow(code[0], mayThrow, last), last, done, at, from, size, place);
    }
  }

  lemma {:induction false} OrderEnds(code: seq<Op>, tries: map<Label, Try>, at: Label -> nat, from: nat, size: nat)
    requires InOrder(code, tries, at, from, size)
    ensures from <= size
    decreases |code|
  {
    if code != [] {
      if code[0].Mark? && code[0].place in tries {
        OrderEnds(code[1..], tries, at, at(tries[code[0].place].end), size);
      } else {
        OrderEnds(code[1..], tries, at, from, size);
      }
    }
  }

  /** A call site has the pad and action of some range, or none of either. */
  ghost predicate FromTries(spans: seq<Span>, tries: map<Label, Try>) {
    forall k | 0 <= k < |spans| ::
      (spans[k].pad == 0 && spans[k].action == 0)
      || (exists l | l in tries :: spans[k].pad == tries[l].pad && spans[k].action == tries[l].action)
  }

  lemma {:induction false} SpansFromTries(code: seq<Op>, tries: map<Label, Try>, mayThrow: bool, last: Label,
                                          done: seq<Span>)
    requires FromTries(done, tries)
    ensures FromTries(Spans(code, tries, mayThrow, last, done), tries)
    decreases |code|
  {
    if code != [] {
      if code[0].Mark? && code[0].place in tries {
        var place := code[0].place;
        var may := MayThrow(code[0], mayThrow, last);
        var before := done + Gap(may, last, place);
        assert FromTries(AddTry(before, place, tries[place]), tries);
        SpansFromTries(code[1..], tries, may, tries[place].end, AddTry(before, place, tries[place]));
      } else {
        SpansFromTries(code[1..], tries, MayThrow(code[0], mayThrow, last), last, done);
      }
    }
  }

  function CallSites(code: seq<Op>, tries: map<Label, Try>, at: Label -> nat, size: nat): seq<CallSite> {
    SitesFrom(Spans(code, tries, false, 0, []), at, size)
  }

  /** A function smaller than 2^32 whose try ranges all lead to the pad for `catches`, which is not at its very
      start. */
  ghost predicate LaidOut(code: seq<Op>, tries: map<Label, Try>, at: Label -> nat, size: nat, catches: seq<int>) {
    && InOrder(code, tries, at, 0, size) && size < 0x1_0000_0000
    && (forall l | l in tries ::
          tries[l].pad != 0 && 0 < at(tries[l].pad) < 0x1_0000_0000 && tries[l].action == FirstAction(catches))
  }

  /** Every address in a try range is covered, by an entry that contains it and leads to where the range's landing pad
      is, with the pad's action. */
  lemma TriesAreCovered(code: seq<Op>, tries: map<Label, Try>, at: Label -> nat, size: nat, catches: seq<int>,
                        place: Label, offset: nat)
    requires LaidOut(code, tries, at, size, catches) && Mark(place) in code && place in tries
    requires at(place) <= offset < at(tries[place].end)
    ensures var site := Covering(CallSites(code, tries, at, size), offset);
            && site.Some? && site.value.start <= offset < site.value.start + site.value.length
            && site.value.pad == at(tries[place].pad) && site.value.action == FirstAction(catches)
  {
    hide Spans, SiteOf, InOrder, SomeSpan, FirstAction;
    var spans, sites, pad := Spans(code, tries, false, 0, []), CallSites(code, tries, at, size), tries[place].pad;
    SpansCover(code, tries, false, 0, [], at, 0, size, place);
    SpanEnds(code, tries, false, 0, [], at, 0, size);
    SpansApart(code, tries, false, 0, [], at, 0, size);
    SpansFromTries(code, tries, false, 0, []);
    var k := SpanHere(spans, at, pad, at(place), at(tries[place].end));
    SpanCovers(spans, k, at, size, pad, at(place), at(tries[place].end), offset);
    var first := CoveringIsFirst(sites, offset);
    SpanMeets(spans, first, at, size, offset);
    assert first == k;
    SiteFields(spans[k], at, size);
  }

  lemma SpanHere(spans: seq<Span>, at: Label -> nat, pad: Label, a: nat, b: nat) returns (k: nat)
    requires SomeSpan(spans, at, pad, a, b)
    ensures k < |spans| && SpanOver(spans[k], at, pad, a, b)
  {
    k :| 0 <= k < |spans| && SpanOver(spans[k], at, pad, a, b);
  }

  /** What the emitted entry for a range with a pad holds. */
  lemma SiteFields(span: Span, at: Label -> nat, size: nat)
    requires span.begin != 0 && span.end != 0 && span.pad != 0
    requires at(span.begin) <= at(span.end) < 0x1_0000_0000 && at(span.pad) < 0x1_0000_0000
    ensures var site := SiteOf(span, at, size);
            && site.start == at(span.begin) && site.start + site.length == at(span.end)
            && site.pad == at(span.pad) && site.action == span.action
  {
    Small(at(span.begin));
    Small(at(span.end) - at(span.begin));
    Small(at(span.pad));
  }

  /** An entry that covers an address comes from a range that contains it. */
  lemma SpanMeets(spans: seq<Span>, k: nat, at: Label -> nat, size: nat, offset: nat)
    requires k < |spans| && EndBy(spans, at, size) && size < 0x1_0000_0000
    requires SiteOf(spans[k], at, size).Covers(offset)
    ensures spans[k].pad != 0 && at(spans[k].begin) <= offset < at(spans[k].end)
  {
    if spans[k].pad != 0 {
      var begin, end := at(spans[k].begin), at(spans[k].end);
      assert begin <= end <= size;
      Small(begin);
      Small(end - begin);
      Small(end);
    }
  }

  /** The ranges with a pad do not overlap and stand in order. */
  ghost predicate Apart(spans: seq<Span>, at: Label -> nat) {
    forall j, k | 0 <= j < k < |spans| && spans[j].pad != 0 && spans[k].pad != 0 ::
      at(spans[j].end) <= at(spans[k].begin)
  }

  lemma AddTryApart(done: seq<Span>, gap: seq<Span>, begin: Label, t: Try, at: Label -> nat, from: nat)
    requires EndBy(done, at, from) && Apart(done, at) && forall k | 0 <= k < |gap| :: gap[k].pad == 0
    requires from <= at(begin) <= at(t.end) && t.pad != 0
    ensures Apart(AddTry(done + gap, begin, t), at)
  {
  }

  lemma {:induction false} SpansApart(code: seq<Op>, tries: map<Label, Try>, mayThrow: bool, last: Label,
                                      done: seq<Span>, at: Label -> nat, from: nat, size: nat)
    requires InOrder(code, tries, at, from, size) && PadsSet(tries) && EndBy(done, at, from) && Apart(done, at)
    ensures Apart(Spans(code, tries, mayThrow, last, done), at)
    decreases |code|
  {
    if code != [] {
      hide EndBy, Apart, AddTry;
      var may := MayThrow(code[0], mayThrow, last);
      if code[0].Mark? && code[0].place in tries {
        var place := code[0].place;
        var gap := Gap(may, last, place);
        GapKeeps(done, gap, at, from, 0, 0, 0);
        AddTryEnds(done + gap, place, tries[place], at, from);
        AddTryApart(done, gap, place, tries[place], at, from);
        SpansApart(code[1..], tries, may, tries[place].end, AddTry(done + gap, place, tries[place]), at,
                   at(tries[place].end), size);
      } else {
        SpansApart(code[1..], tries, may, last, done, at, from, size);
      }
    }
  }

  // ---------- The layout written out, for one range and for two ----------

  /** Over code without the beginning of a range or the end of the last one, only whether something may throw
      changes. */
  lemma {:induction false} Stretch(code: seq<Op>, rest: seq<Op>, tries: map<Label, Try>, mayThrow: bool, last: Label,
                                   done: seq<Span>)
    requires forall l | l in tries :: Mark(l) !in code
    requires Mark(last) !in code
    ensures Spans(code + rest, tries, mayThrow, last, done) == Spans(rest, tries, mayThrow || Calls in code, last, done)
    decreases |code|
  {
    if code == [] {
      assert code + rest == rest;
    } else {
      assert code[0] in code && (code + rest)[0] == code[0] && (code + rest)[1..] == code[1..] + rest;
      Stretch(code[1..], rest, tries, MayThrow(code[0], mayThrow, last), last, done);
    }
  }

  lemma RangeBegins(begin: Label, rest: seq<Op>, tries: map<Label, Try>, mayThrow: bool, last: Label, done: seq<Span>)
    requires begin in tries && begin != last
    ensures Spans([Mark(begin)] + rest, tries, mayThrow, last, done)
            == Spans(rest, tries, mayThrow, tries[begin].end,
                     AddTry(done + if mayThrow then [Span(last, begin, 0, 0)] else [], begin, tries[begin]))
  {
    assert ([Mark(begin)] + rest)[1..] == rest;
  }

  lemma RangeEnds(end: Label, rest: seq<Op>, tries: map<Label, Try>, mayThrow: bool, done: seq<Span>)
    requires end !in tries
    ensures Spans([Mark(end)] + rest, tries, mayThrow, end, done) == Spans(rest, tries, false, end, done)
  {
    assert ([Mark(end)] + rest)[1..] == rest;
  }

  /** Code without the labels of the ranges in `tries`. */
  ghost predicate Unlabelled(code: seq<Op>, tries: map<Label, Try>) {
    Mark(0) !in code && forall l | l in tries :: Mark(l) !in code && Mark(tries[l].end) !in code
  }

  /** One range: an entry for it, and one without a pad for what is before it, and for what is after it, if that may
      throw. */
  lemma OneTryLayout(pre: seq<Op>, body: seq<Op>, post: seq<Op>, begin: Label, t: Try)
    requires var tries := map[begin := t]; Unlabelled(pre, tries) && Unlabelled(body, tries) && Unlabelled(post, tries)
    requires begin != 0 && t.end != begin && t.pad != 0
    ensures Spans(pre + ([Mark(begin)] + (body + ([Mark(t.end)] + post))), map[begin := t], false, 0, [])
            == (if Calls in pre then [Span(0, begin, 0, 0)] else [])
               + [Span(begin, t.end, t.pad, t.action)]
               + (if Calls in post then [Span(t.end, 0, 0, 0)] else [])
  {
    hide Spans;
    var tries := map[begin := t];
    var before := if Calls in pre then [Span(0, begin, 0, 0)] else [];
    var rest := [Mark(t.end)] + post;
    Stretch(pre, [Mark(begin)] + (body + rest), tries, false, 0, []);
    RangeBegins(begin, body + rest, tries, Calls in pre, 0, []);
    assert [] + before == before;
    var done := before + [Span(begin, t.end, t.pad, t.action)];
    assert AddTry(before, begin, t) == done;
    Stretch(body, rest, tries, Calls in pre, t.end, done);
    RangeEnds(t.end, post, tries, Calls in pre || Calls in body, done);
    assert post + [] == post;
    Stretch(post, [], tries, false, t.end, done);
    NothingLeft(tries, Calls in post, t.end, done);
  }

  lemma NothingLeft(tries: map<Label, Try>, mayThrow: bool, last: Label, done: seq<Span>)
    ensures Spans([], tries, mayThrow, last, done) == done + if mayThrow then [Span(last, 0, 0, 0)] else []
  {
  }

  /** What is emitted for a function with one range. */
  lemma OneTrySites(pre: seq<Op>, body: seq<Op>, post: seq<Op>, begin: Label, t: Try, at: Label -> nat, size: nat)
    requires var tries := map[begin := t]; Unlabelled(pre, tries) && Unlabelled(body, tries) && Unlabelled(post, tries)
    requires begin != 0 && t.end != 0 && t.end != begin && t.pad != 0
    requires at(begin) <= at(t.end) <= size < 0x1_0000_0000 && at(t.pad) < 0x1_0000_0000
    ensures CallSites(pre + ([Mark(begin)] + (body + ([Mark(t.end)] + post))), map[begin := t], at, size)
            == (if Calls in pre then [CallSite(0, at(begin), 0, 0)] else [])
               + [CallSite(at(begin), at(t.end) - at(begin), at(t.pad), t.action)]
               + (if Calls in post then [CallSite(at(t.end), size - at(t.end), 0, 0)] else [])
  {
    hide Spans;
    OneTryLayout(pre, body, post, begin, t);
    Small(at(begin));
    Small(at(t.end));
    Small(at(t.end) - at(begin));
    Small(size - at(t.end));
    Small(at(t.pad));
  }

  /** Two ranges: what is between them gets an entry without a pad if it may throw; otherwise the ranges are merged, if
      they lead to the same pad with the same action. */
  lemma TwoTriesLayout(one: seq<Op>, between: seq<Op>, two: seq<Op>, begin: Label, t: Try, begin': Label, t': Try)
    requires var tries := map[begin := t, begin' := t'];
             Unlabelled(one, tries) && Unlabelled(between, tries) && Unlabelled(two, tries)
    requires begin != 0 && begin' != 0 && t.pad != 0 && t'.pad != 0 && t.end !in {0, begin, begin'}
    requires t'.end !in {0, begin, begin', t.end} && begin != begin'
    ensures var code := [Mark(begin)] + (one + ([Mark(t.end)] +
                        (between + ([Mark(begin')] + (two + ([Mark(t'.end)] + []))))));
            Spans(code, map[begin := t, begin' := t'], false, 0, [])
            == if Calls in between then
                 [Span(begin, t.end, t.pad, t.action), Span(t.end, begin', 0, 0),
                  Span(begin', t'.end, t'.pad, t'.action)]
               else if t.pad == t'.pad && t.action == t'.action then
                 [Span(begin, t'.end, t.pad, t.action)]
               else
                 [Span(begin, t.end, t.pad, t.action), Span(begin', t'.end, t'.pad, t'.action)]
  {
    hide Spans;
    var tries := map[begin := t, begin' := t'];
    var rest' := two + ([Mark(t'.end)] + []);
    var rest := between + ([Mark(begin')] + rest');
    var done := [Span(begin, t.end, t.pad, t.action)];
    RangeBegins(begin, one + ([Mark(t.end)] + rest), tries, false, 0, []);
    assert AddTry([] + [], begin, t) == done;
    Stretch(one, [Mark(t.end)] + rest, tries, false, t.end, done);
    RangeEnds(t.end, rest, tries, Calls in one, done);
    Stretch(between, [Mark(begin')] + rest', tries, false, t.end, done);
    RangeBegins(begin', rest', tries, Calls in between, t.end, done);
    var all := AddTry(done + if Calls in between then [Span(t.end, begin', 0, 0)] else [], begin', t');
    Stretch(two, [Mark(t'.end)] + [], tries, Calls in between, t'.end, all);
    RangeEnds(t'.end, [], tries, Calls in between || Calls in two, all);
    NothingLeft(tries, false, t'.end, all);
  }

  // ---------- Calls outside every try range ----------

  /** The call at `i` stands outside every try range: each range begun before it has ended before it. `offset` is an
      address between the ranges around it. */
  ghost predicate Outside(code: seq<Op>, tries: map<Label, Try>, at: Label -> nat, i: nat, offset: nat) {
    && i < |code| && code[i].Calls?
    && (forall j | 0 <= j < i && code[j].Mark? && code[j].place in tries ::
          Mark(tries[code[j].place].end) in code[..i] && at(tries[code[j].place].end) <= offset)
    && (forall j | i < j < |code| && code[j].Mark? && code[j].place in tries :: offset < at(code[j].place))
  }

  /** Labels stand in one place each, and 0 is none. */
  ghost predicate Labelled(code: seq<Op>) {
    && Mark(0) !in code
    && (forall i, j | 0 <= i < j < |code| && code[i].Mark? :: code[i] != code[j])
  }

  /** No range with a pad contains `offset`. */
  ghost predicate Misses(spans: seq<Span>, at: Label -> nat, offset: nat) {
    forall k | 0 <= k < |spans| && spans[k].pad != 0 :: at(spans[k].end) <= offset || offset < at(spans[k].begin)
  }

  /** The last of `spans` will not come to contain `offset` by being extended. */
  ghost predicate BehindGap(spans: seq<Span>, at: Label -> nat, offset: nat) {
    spans != [] && (spans[|spans| - 1].pad == 0 || offset < at(spans[|spans| - 1].begin))
  }

  /** All ranges that begin in `code` do so after `offset`. */
  ghost predicate BeginAfter(code: seq<Op>, tries: map<Label, Try>, at: Label -> nat, offset: nat) {
    forall j | 0 <= j < |code| && code[j].Mark? && code[j].place in tries :: offset < at(code[j].place)
  }

  lemma AddTryMisses(done: seq<Span>, gap: seq<Span>, begin: Label, t: Try, at: Label -> nat, offset: nat)
    requires Misses(done, at, offset) && forall k | 0 <= k < |gap| :: gap[k].pad == 0
    requires offset < at(begin) && t.pad != 0 && (gap != [] || BehindGap(done, at, offset))
    ensures Misses(AddTry(done + gap, begin, t), at, offset) && BehindGap(AddTry(done + gap, begin, t), at, offset)
  {
  }

  /** Once an entry without a pad, or one further on, is last, nothing that follows reaches back. */
  lemma {:induction false} AfterGap(code: seq<Op>, tries: map<Label, Try>, mayThrow: bool, last: Label, done: seq<Span>,
                                    at: Label -> nat, offset: nat)
    requires PadsSet(tries) && BeginAfter(code, tries, at, offset)
    requires Misses(done, at, offset) && BehindGap(done, at, offset)
    ensures Misses(Spans(code, tries, mayThrow, last, done), at, offset)
    decreases |code|
  {
    if code != [] {
      var may := MayThrow(code[0], mayThrow, last);
      assert BeginAfter(code[1..], tries, at, offset);
      if code[0].Mark? && code[0].place in tries {
        var place := code[0].place;
        AddTryMisses(done, Gap(may, last, place), place, tries[place], at, offset);
        AfterGap(code[1..], tries, may, tries[place].end, AddTry(done + Gap(may, last, place), place, tries[place]), at,
                 offset);
      } else {
        AfterGap(code[1..], tries, may, last, done, at, offset);
      }
    }
  }

  /** From a call outside every range on, an entry without a pad comes before the next range. */
  lemma {:induction false} AfterCall(code: seq<Op>, tries: map<Label, Try>, last: Label, done: seq<Span>,
                                     at: Label -> nat, offset: nat)
    requires PadsSet(tries) && BeginAfter(code, tries, at, offset) && Mark(last) !in code && Misses(done, at, offset)
    ensures Misses(Spans(code, tries, true, last, done), at, offset)
    decreases |code|
  {
    if code != [] {
      assert code[0] in code;
      assert MayThrow(code[0], true, last);
      assert BeginAfter(code[1..], tries, at, offset);
      if code[0].Mark? && code[0].place in tries {
        var place := code[0].place;
        AddTryMisses(done, Gap(true, last, place), place, tries[place], at, offset);
        AfterGap(code[1..], tries, true, tries[place].end, AddTry(done + Gap(true, last, place), place, tries[place]),
                 at, offset);
      } else {
        AfterCall(code[1..], tries, last, done, at, offset);
      }
    }
  }

  /** The ranges before a call that stands outside them have ended, in the addresses and in the code. */
  ghost predicate EndedBefore(code: seq<Op>, tries: map<Label, Try>, at: Label -> nat, i: nat, offset: nat)
    requires i < |code|
  {
    forall j | 0 <= j < i && code[j].Mark? && code[j].place in tries ::
      at(tries[code[j].place].end) <= offset && Mark(tries[code[j].place].end) !in code[i + 1..]
  }

  lemma {:induction false} BeforeCall(code: seq<Op>, tries: map<Label, Try>, mayThrow: bool, last: Label,
                                      done: seq<Span>, at: Label -> nat, from: nat, size: nat, i: nat, offset: nat)
    requires InOrder(code, tries, at, from, size) && PadsSet(tries) && EndBy(done, at, from) && from <= offset
    requires i < |code| && code[i].Calls? && EndedBefore(code, tries, at, i, offset)
    requires BeginAfter(code[i + 1..], tries, at, offset) && Mark(last) !in code[i + 1..]
    ensures Misses(Spans(code, tries, mayThrow, last, done), at, offset)
    decreases |code|
  {
    if i == 0 {
      AfterCall(code[1..], tries, last, done, at, offset);
    } else {
      hide EndBy, AddTry, Misses, BeginAfter;
      assert code[1..][i - 1] == code[i] && code[1..][i..] == code[i + 1..];
      assert EndedBefore(code[1..], tries, at, i - 1, offset) by {
        assert forall j | 0 <= j < i - 1 :: code[1..][j] == code[j + 1];
      }
      var may := MayThrow(code[0], mayThrow, last);
      if code[0].Mark? && code[0].place in tries {
        var place := code[0].place;
        var gap := Gap(may, last, place);
        GapKeeps(done, gap, at, from, 0, 0, 0);
        AddTryEnds(done + gap, place, tries[place], at, from);
        BeforeCall(code[1..], tries, may, tries[place].end, AddTry(done + gap, place, tries[place]), at,
                   at(tries[place].end), size, i - 1, offset);
      } else {
        BeforeCall(code[1..], tries, may, last, done, at, from, size, i - 1, offset);
      }
    }
  }

  /** An address around a call that stands outside every try range, before the first, between two or after the last, is
      not covered. */
  lemma OutsideIsUncovered(code: seq<Op>, tries: map<Label, Try>, at: Label -> nat, size: nat, catches: seq<int>,
                           i: nat, offset: nat)
    requires LaidOut(code, tries, at, size, catches) && Labelled(code) && Outside(code, tries, at, i, offset)
    ensures Covering(CallSites(code, tries, at, size), offset) == None
  {
    hide Spans, SiteOf, InOrder, FirstAction;
    assert EndedBefore(code, tries, at, i, offset) by {
      forall j | 0 <= j < i && code[j].Mark? && code[j].place in tries
        ensures Mark(tries[code[j].place].end) !in code[i + 1..]
      {
        var e :| 0 <= e < i && code[..i][e] == Mark(tries[code[j].place].end);
        assert forall k | i < k < |code| :: code[e] != code[k];
      }
    }
    BeforeCall(code, tries, false, 0, [], at, 0, size, i, offset);
    SpanEnds(code, tries, false, 0, [], at, 0, size);
    var spans, sites := Spans(code, tries, false, 0, []), CallSites(code, tries, at, size);
    var first := CoveringIsFirst(sites, offset);
    if first < |sites| {
      SpanMeets(spans, first, at, size, offset);
      assert false;
    }
  }

  lemma SpanCovers(spans: seq<Span>, k: nat, at: Label -> nat, size: nat, pad: Label, a: nat, b: nat, offset: nat)
    requires k < |spans| && SpanOver(spans[k], at, pad, a, b) && EndBy(spans, at, size) && size < 0x1_0000_0000
    requires pad != 0 && 0 < at(pad) < 0x1_0000_0000 && a <= offset < b
    ensures SiteOf(spans[k], at, size).Covers(offset)
  {
    var begin, end := at(spans[k].begin), at(spans[k].end);
    assert begin <= end <= size;
    Small(begin);
    Small(end - begin);
    Small(at(pad));
    Small(end);
  }

  lemma Small(n: nat)
    requires n < 0x1_0000_0000
    ensures n % 0x1_0000_0000 == n && Wrapped(n) == n
  {
  }

  /** All recorded ranges with a pad end inside the function. */
  lemma {:induction false} SpanEnds(code: seq<Op>, tries: map<Label, Try>, mayThrow: bool, last: Label, done: seq<Span>,
                                    at: Label -> nat, from: nat, size: nat)
    requires InOrder(code, tries, at, from, size) && PadsSet(tries) && EndBy(done, at, from)
    ensures EndBy(Spans(code, tries, mayThrow, last, done), at, size)
    decreases |code|
  {
    if code == [] {
    } else if code[0].Mark? && code[0].place in tries {
      var place := code[0].place;
      var may := MayThrow(code[0], mayThrow, last);
      var gap := Gap(may, last, place);
      GapKeeps(done, gap, at, from, 0, 0, 0);
      AddTryEnds(done + gap, place, tries[place], at, from);
      SpanEnds(code[1..], tries, may, tries[place].end, AddTry(done + gap, place, tries[place]), at,
               at(tries[place].end), size);
    } else {
      SpanEnds(code[1..], tries, MayThrow(code[0], mayThrow, last), last, done, at, from, size);
    }
  }

  /** The emitted call sites lead to the pad with its action, or nowhere. */
  lemma CallSitesFit(code: seq<Op>, tries: map<Label, Try>, at: Label -> nat, size: nat, catches: seq<int>)
    requires LaidOut(code, tries, at, size, catches) && FirstAction(catches) < 0x8000_0000
    ensures SitesOf(CallSites(code, tries, at, size), catches)
  {
    hide FirstAction;
    SpansFromTries(code, tries, false, 0, []);
  }
}
