/** What the bounds check does to the meaning of a source text: it stops a run at the first moment the head
    rests outside the tape after a maximal run of moves, changes nothing before, and makes every access safe. */
module BrainfBounds {
  import opened BrainfLexer
  import opened BrainfMeaning

  /** A run keeps the size of the tape and only appends characters to the output. */
  ghost predicate Extends(w: World, w': World) {
    && |w'.tape| == |w.tape|
    && w.output <= w'.output
    && (forall e | e in w'.output :: e in w.output || e.Put?)
  }

  lemma {:induction false} TextExtends(s: string, st: State, checked: bool, fuel: nat)
    ensures Extends(st.w, RunText(s, st, checked, fuel).st.w)
    decreases fuel, |s|, 0
  {
    if s == [] {
    } else if s[0] == '[' {
      var close := 1 + CloseAt(s[1..], 0);
      if close != |s| {
        LoopExtends(s[1..close], st, checked, fuel);
        var out := RunLoop(s[1..close], st, checked, fuel);
        if out.Finished? {
          TextExtends(s[close + 1..], out.st, checked, fuel);
        }
      }
    } else if s[0] == ']' || !IsCommand(s[0]) {
      TextExtends(s[1..], st, checked, fuel);
    } else {
      var out := Act(s[0], st);
      if out.Finished? {
        TextExtends(s[1..], out.st, checked, fuel);
      }
    }
  }

  lemma {:induction false} LoopExtends(body: string, st: State, checked: bool, fuel: nat)
    ensures Extends(st.w, RunLoop(body, st, checked, fuel).st.w)
    decreases fuel, |body|, 1
  {
    if st.InTape() && st.Cell() != 0 && fuel != 0 {
      TextExtends(body, st, checked, fuel - 1);
      var out := RunText(body, st, checked, fuel - 1);
      if out.Finished? {
        LoopExtends(body, out.st, checked, fuel - 1);
      }
    }
  }

  // ---------- Safety ----------

  /** The head is on the tape, or a run of moves that may bring it back is still going on. */
  predicate Safe(s: string, st: State) {
    st.InTape() || !RunEnds(s)
  }

  /** With the check no access is outside the tape, and whoever finishes has the head on the tape. */
  lemma {:induction false} CheckedTextIsSafe(s: string, st: State, fuel: nat)
    requires Safe(s, st)
    ensures !RunText(s, st, true, fuel).Trap?
    ensures RunText(s, st, true, fuel).Finished? ==> RunText(s, st, true, fuel).st.InTape()
    decreases fuel, |s|, 0
  {
    if s == [] {
    } else if s[0] == '[' {
      var close := 1 + CloseAt(s[1..], 0);
      if close != |s| {
        CheckedLoopIsSafe(s[1..close], st, fuel);
        var out := RunLoop(s[1..close], st, true, fuel);
        if out.Finished? {
          CheckedTextIsSafe(s[close + 1..], out.st, fuel);
        }
      }
    } else if s[0] == ']' || !IsCommand(s[0]) {
      CheckedTextIsSafe(s[1..], st, fuel);
    } else {
      var out := Act(s[0], st);
      if out.Finished? && Safe(s[1..], out.st) {
        CheckedTextIsSafe(s[1..], out.st, fuel);
      }
    }
  }

  lemma {:induction false} CheckedLoopIsSafe(body: string, st: State, fuel: nat)
    requires st.InTape()
    ensures !RunLoop(body, st, true, fuel).Trap?
    ensures RunLoop(body, st, true, fuel).Finished? ==> RunLoop(body, st, true, fuel).st.InTape()
    decreases fuel, |body|, 1
  {
    if st.Cell() != 0 && fuel != 0 {
      CheckedTextIsSafe(body, st, fuel - 1);
      var out := RunText(body, st, true, fuel - 1);
      if out.Finished? {
        CheckedLoopIsSafe(body, out.st, fuel - 1);
      }
    }
  }

  // ---------- Exactness ----------

  /** The states after each executed maximal run of moves, in a run without the check. */
  function Rests(s: string, st: State, fuel: nat): seq<State>
    decreases fuel, |s|, 0
  {
    if s == [] then []
    else if s[0] == '[' then
      var close := 1 + CloseAt(s[1..], 0);
      if close == |s| then [] else
      var out := RunLoop(s[1..close], st, false, fuel);
      LoopRests(s[1..close], st, fuel) + if out.Finished? then Rests(s[close + 1..], out.st, fuel) else []
    else if s[0] == ']' || !IsCommand(s[0]) then Rests(s[1..], st, fuel)
    else
      var out := Act(s[0], st);
      if !out.Finished? then []
      else (if IsMove(s[0]) && RunEnds(s[1..]) then [out.st] else []) + Rests(s[1..], out.st, fuel)
  }

  function LoopRests(body: string, st: State, fuel: nat): seq<State>
    decreases fuel, |body|, 1
  {
    if !st.InTape() || st.Cell() == 0 || fuel == 0 then []
    else
      var out := RunText(body, st, false, fuel - 1);
      Rests(body, st, fuel - 1) + if out.Finished? then LoopRests(body, out.st, fuel - 1) else []
  }

  /** The first of `rests` with the head off a tape of `size` cells, if any. */
  function FirstOff(rests: seq<State>, size: nat): (i: nat)
    ensures i <= |rests|
    ensures forall j | 0 <= j < i :: 0 <= rests[j].head < size
    ensures i < |rests| ==> !(0 <= rests[i].head < size)
  {
    if rests == [] || !(0 <= rests[0].head < size) then 0 else 1 + FirstOff(rests[1..], size)
  }

  /** A checked run against the unchecked one that passes through `rests`: it is the same if those all have the head on
      the tape; otherwise it stops with the error in the first that has not, its head, tape, unread input and output
      those that the unchecked run has there, and the unchecked run goes on from that output. */
  ghost predicate ChecksExactly(checked: Outcome, unchecked: Outcome, rests: seq<State>, size: nat) {
    var i := FirstOff(rests, size);
    if i == |rests| then checked == unchecked && !checked.OffTape?
    else checked == OffTape(rests[i]) && checked.st.w.output <= unchecked.st.w.output
  }

  lemma {:induction false} FirstOffAppend(a: seq<State>, b: seq<State>, size: nat)
    ensures FirstOff(a + b, size) == if FirstOff(a, size) < |a| then FirstOff(a, size) else |a| + FirstOff(b, size)
  {
    if a == [] {
      assert a + b == b;
    } else {
      FirstOffAppend(a[1..], b, size);
      assert (a + b)[1..] == a[1..] + b;
    }
  }

  /** Exactness of a first part that finishes unchecked, and of what follows it, gives exactness of both. */
  lemma ExactThen(a: Outcome, b: Outcome, rests: seq<State>, a': Outcome, b': Outcome, rests': seq<State>, size: nat)
    requires ChecksExactly(a, b, rests, size) && b.Finished?
    requires ChecksExactly(a', b', rests', size) && b.st.w.output <= b'.st.w.output
    ensures ChecksExactly(if a.Finished? then a' else a, b', rests + rests', size)
  {
    FirstOffAppend(rests, rests', size);
  }

  /** One command other than a bracket, and what follows it. */
  lemma ActIsExact(c: char, rest: string, st: State, fuel: nat)
    requires IsCommand(c) && !IsBracket(c) && Act(c, st).Finished?
    requires var st1 := Act(c, st).st;
             && ChecksExactly(RunText(rest, st1, true, fuel), RunText(rest, st1, false, fuel), Rests(rest, st1, fuel),
                              |st.w.tape|)
             && st1.w.output <= RunText(rest, st1, false, fuel).st.w.output
    ensures var st1, rests := Act(c, st).st, IsMove(c) && RunEnds(rest);
            ChecksExactly(if rests && !st1.InTape() then OffTape(st1) else RunText(rest, st1, true, fuel),
                          RunText(rest, st1, false, fuel),
                          (if rests then [st1] else []) + Rests(rest, st1, fuel), |st.w.tape|)
  {
    hide RunText, Rests;
    var out := Act(c, st);
    var rests := IsMove(c) && RunEnds(rest);
    var here := if rests then [out.st] else [];
    assert here != [] ==> here[1..] == [];
    ExactThen(if rests && !out.st.InTape() then OffTape(out.st) else out, out, here,
              RunText(rest, out.st, true, fuel), RunText(rest, out.st, false, fuel), Rests(rest, out.st, fuel),
              |st.w.tape|);
  }

  /** A loop that finishes, and what follows it. */
  lemma LoopThenIsExact(body: string, rest: string, st: State, fuel: nat)
    requires RunLoop(body, st, false, fuel).Finished?
    requires ChecksExactly(RunLoop(body, st, true, fuel), RunLoop(body, st, false, fuel), LoopRests(body, st, fuel),
                           |st.w.tape|)
    requires var st1 := RunLoop(body, st, false, fuel).st;
             ChecksExactly(RunText(rest, st1, true, fuel), RunText(rest, st1, false, fuel), Rests(rest, st1, fuel),
                           |st1.w.tape|)
    ensures var a, st1 := RunLoop(body, st, true, fuel), RunLoop(body, st, false, fuel).st;
            ChecksExactly(if a.Finished? then RunText(rest, a.st, true, fuel) else a, RunText(rest, st1, false, fuel),
                          LoopRests(body, st, fuel) + Rests(rest, st1, fuel), |st.w.tape|)
  {
    hide RunText, RunLoop, Rests, LoopRests, FirstOff;
    var a, out := RunLoop(body, st, true, fuel), RunLoop(body, st, false, fuel);
    LoopExtends(body, st, false, fuel);
    TextExtends(rest, out.st, false, fuel);
    ExactThen(a, out, LoopRests(body, st, fuel), RunText(rest, out.st, true, fuel), RunText(rest, out.st, false, fuel),
              Rests(rest, out.st, fuel), |st.w.tape|);
  }

  /** With the check a text runs as without it up to the first executed maximal run of moves that leaves the head off
      the tape, and there it stops. */
  lemma {:induction false} CheckIsExact(s: string, st: State, fuel: nat)
    ensures ChecksExactly(RunText(s, st, true, fuel), RunText(s, st, false, fuel), Rests(s, st, fuel), |st.w.tape|)
    decreases fuel, |s|, 0
  {
    hide RunLoop, LoopRests;
    if s == [] {
    } else if s[0] == '[' {
      var close := 1 + CloseAt(s[1..], 0);
      if close != |s| {
        var body, rest := s[1..close], s[close + 1..];
        LoopCheckIsExact(body, st, fuel);
        var out := RunLoop(body, st, false, fuel);
        if out.Finished? {
          CheckIsExact(rest, out.st, fuel);
          LoopThenIsExact(body, rest, st, fuel);
        } else {
          assert LoopRests(body, st, fuel) + [] == LoopRests(body, st, fuel);
        }
      }
    } else if s[0] == ']' || !IsCommand(s[0]) {
      CheckIsExact(s[1..], st, fuel);
    } else if Act(s[0], st).Finished? {
      CheckIsExact(s[1..], Act(s[0], st).st, fuel);
      TextExtends(s[1..], Act(s[0], st).st, false, fuel);
      ActIsExact(s[0], s[1..], st, fuel);
    }
  }

  lemma {:induction false} LoopCheckIsExact(body: string, st: State, fuel: nat)
    ensures ChecksExactly(RunLoop(body, st, true, fuel), RunLoop(body, st, false, fuel), LoopRests(body, st, fuel),
                          |st.w.tape|)
    decreases fuel, |body|, 1
  {
    hide RunText, Rests, FirstOff;
    if st.InTape() && st.Cell() != 0 && fuel != 0 {
      CheckIsExact(body, st, fuel - 1);
      var a, out, rests := RunText(body, st, true, fuel - 1), RunText(body, st, false, fuel - 1),
                           Rests(body, st, fuel - 1);
      if out.Finished? {
        TextExtends(body, st, false, fuel - 1);
        LoopCheckIsExact(body, out.st, fuel - 1);
        LoopExtends(body, out.st, false, fuel - 1);
        ExactThen(a, out, rests, RunLoop(body, out.st, true, fuel - 1), RunLoop(body, out.st, false, fuel - 1),
                  LoopRests(body, out.st, fuel - 1), |st.w.tape|);
      } else {
        assert rests + [] == rests;
      }
    }
  }
}
