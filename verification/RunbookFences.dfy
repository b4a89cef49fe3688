/** Code fences and the missing section's stub: when exactly the patcher cannot find the section it
    has just added. */
module RunbookFences {
  import opened Wrappers
  import opened BoundedText
  import opened Validator
  import opened RunbookPatcher
  import opened RunbookIdempotence
  import opened RunbookOneSection

  // ----- Counting fences ------------------------------------------------------------------

  function Fences(ls: seq<string>): nat {
    if ls == [] then 0 else (if IsFence(ls[0]) then 1 else 0) + Fences(ls[1..])
  }

  /** A fence is open after these lines. */
  predicate LeavesOpen(ls: seq<string>) {
    Fences(ls) % 2 == 1
  }

  lemma {:induction false} FencesOfConcat(a: seq<string>, b: seq<string>)
    ensures Fences(a + b) == Fences(a) + Fences(b)
  {
    if a == [] {
      assert a + b == b;
    } else {
      FencesOfConcat(a[1..], b);
      assert (a + b)[1..] == a[1..] + b;
    }
  }

  lemma {:induction false} NoFences(ls: seq<string>)
    requires forall m :: 0 <= m < |ls| ==> !IsFence(ls[m])
    ensures Fences(ls) == 0
  {
    if ls != [] {
      NoFences(ls[1..]);
    }
  }

  lemma MaskedOfCons(line: string, rest: seq<string>, inFence: bool)
    ensures Masked([line] + rest, inFence)
         == [if IsFence(line) || !inFence then line else Spaces(|line|)] + Masked(rest, inFence != IsFence(line))
    ensures LeavesOpen([line] + rest) == (LeavesOpen(rest) != IsFence(line))
  {
    assert ([line] + rest)[1..] == rest;
  }

  lemma {:induction false} MaskedConcat(a: seq<string>, b: seq<string>, inFence: bool)
    ensures Masked(a + b, inFence) == Masked(a, inFence) + Masked(b, inFence != LeavesOpen(a))
  {
    if a == [] {
      assert a + b == b;
    } else {
      var rest, after := a[1..], inFence != IsFence(a[0]);
      assert a == [a[0]] + rest && a + b == [a[0]] + (rest + b);
      MaskedOfCons(a[0], rest, inFence);
      MaskedOfCons(a[0], rest + b, inFence);
      assert (after != LeavesOpen(rest)) == (inFence != LeavesOpen(a));
      MaskedConcat(rest, b, after);
    }
  }

  /** A line is read as blanks exactly when it is no fence and an odd number of fences is above. */
  lemma MaskedAt(ls: seq<string>, m: nat)
    requires m < |ls|
    ensures Masked(ls, false)[m] == if IsFence(ls[m]) || !LeavesOpen(ls[..m]) then ls[m] else Spaces(|ls[m]|)
  {
    assert ls == ls[..m] + ([ls[m]] + ls[m + 1..]);
    MaskedConcat(ls[..m], [ls[m]] + ls[m + 1..], false);
    assert ([ls[m]] + ls[m + 1..])[1..] == ls[m + 1..];
  }

  /** How many lines start with three backticks or three tildes. */
  function CodeMarks(ls: seq<string>): nat {
    if ls == [] then 0 else (if "```" <= ls[0] || "~~~" <= ls[0] then 1 else 0) + CodeMarks(ls[1..])
  }

  lemma {:induction false} MarksAreFences(ls: seq<string>)
    ensures CodeMarks(ls) == Fences(ls)
  {
    if ls != [] {
      MarksAreFences(ls[1..]);
    }
  }

  /** A line that starts with three backticks or three tildes is read as it is, and so is a line with
      an even number of such lines above it; any other line is read as spaces, as many as it has
      characters. */
  lemma MaskedExactly(ls: seq<string>, m: nat)
    requires m < |ls|
    ensures var out := Masked(ls, false)[m];
            if "```" <= ls[m] || "~~~" <= ls[m] || CodeMarks(ls[..m]) % 2 == 0 then out == ls[m]
            else |out| == |ls[m]| && forall k :: 0 <= k < |out| ==> out[k] == ' '
  {
    MaskedAt(ls, m);
    MarksAreFences(ls[..m]);
  }

  /** The line is read as it is. */
  predicate Shown(ls: seq<string>, m: nat)
    requires m < |ls|
  {
    IsFence(ls[m]) || !LeavesOpen(ls[..m])
  }

  /** The text with its fenced lines blanked. */
  ghost predicate Reads(ls: seq<string>, masked: seq<string>) {
    && |masked| == |ls|
    && forall m :: 0 <= m < |ls| ==> if Shown(ls, m) then masked[m] == ls[m] else Blank(masked[m])
  }

  lemma MaskedReads(ls: seq<string>)
    ensures Reads(ls, Masked(ls, false))
  {
    forall m | 0 <= m < |ls|
      ensures if Shown(ls, m) then Masked(ls, false)[m] == ls[m] else Blank(Masked(ls, false)[m])
    {
      MaskedAt(ls, m);
    }
  }

  lemma {:induction false} MaskedInFence(ls: seq<string>)
    requires forall m :: 0 <= m < |ls| ==> !IsFence(ls[m])
    ensures forall m :: 0 <= m < |ls| ==> Blank(Masked(ls, true)[m])
  {
    if ls != [] {
      MaskedInFence(ls[1..]);
      assert Masked(ls, true) == [Spaces(|ls[0]|)] + Masked(ls[1..], true);
    }
  }

  lemma FenceNotBlank(line: string)
    requires IsFence(line)
    ensures !Blank(line)
  {
    assert line[0] == line[..3][0] && !IsSpace(line[0]);
  }

  lemma FencesUpTo(ls: seq<string>, n: nat)
    requires 0 < n <= |ls| && forall m :: n <= m < |ls| ==> !IsFence(ls[m])
    ensures Fences(ls) == Fences(ls[..n - 1]) + (if IsFence(ls[n - 1]) then 1 else 0)
  {
    assert ls == ls[..n - 1] + ([ls[n - 1]] + ls[n..]);
    FencesOfConcat(ls[..n - 1], [ls[n - 1]] + ls[n..]);
    assert ([ls[n - 1]] + ls[n..])[1..] == ls[n..];
    NoFences(ls[n..]);
  }

  /** The lines of the text that are left when trailing whitespace goes, and their fences. */
  lemma TrimmedFences(ls: seq<string>)
    requires ls != []
    ensures var t := WithoutTrailingSpace(ls); Fences(t) == Fences(ls) && IsFence(t[|t| - 1]) == IsFence(ls[|t| - 1])
  {
    var t := WithoutTrailingSpace(ls);
    var n := |t|;
    StripRightIs(ls[n - 1]);
    SameFence(ls[n - 1], t[n - 1]);
    forall m | n <= m < |ls| ensures !IsFence(ls[m]) {
      if IsFence(ls[m]) { FenceNotBlank(ls[m]); }
    }
    FencesUpTo(ls, n);
    FencesUpTo(t, n);
    assert t[..n - 1] == ls[..n - 1];
  }

  lemma SameFence(x: string, t: string)
    requires Strips(x, t)
    ensures IsFence(t) == IsFence(x)
  {
    if |x| >= 3 && (x[..3] == "```" || x[..3] == "~~~") {
      assert x[2] == x[..3][2] && !IsSpace(x[2]) && 2 < |t| && t[..3] == x[..3];
    }
    assert |t| >= 3 ==> t[..3] == x[..3];
  }

  // ----- Headings that read through -------------------------------------------------------

  /** A heading completed above line `n` is completed the same way in any text that reads the same
      up to there and goes on. */
  lemma HeadCarries(a: seq<string>, b: seq<string>, n: nat, section: string, p: nat, q: nat)
    requires p < |a| && NameLine(a, p, section) == Some(q) && q < n <= |a| && q + 1 < |b| && n <= |b|
    requires forall m :: 0 <= m < n ==> SameRole(a[m], b[m], section)
    ensures NameLine(b, p, section).Some?
  {
    assert SameRole(a[p], b[p], section) && SameRole(a[q], b[q], section);
    if !EndsInHeader(a[p], section) {
      SameNextText(a, b, n, p + 1);
    }
  }

  lemma HeadingLineNotBlank(ls: seq<string>, p: nat, section: string)
    requires p < |ls| && NameLine(ls, p, section).Some? && Plain(section)
    ensures !Blank(ls[p]) && !Blank(ls[NameLine(ls, p, section).value])
  {
    BlankIsNoHeader(ls[p], section);
    BlankIsNoHeader(ls[NameLine(ls, p, section).value], section);
  }

  /** A fence line is the name of no section that does not itself read as a fence. */
  lemma FenceIsNoName(line: string, section: string)
    requires IsFence(line) && Plain(section) && !IsFence(section)
    ensures !IsNameLine(line, section)
  {
    forall a ensures !NameCut(line, section, a) {
      FenceHasNoCut(line, section, a);
    }
  }

  lemma FencePrefix(line: string, section: string)
    requires 3 <= |section| <= |line| && line[..|section|] == section
    ensures IsFence(section) == IsFence(line)
  {
    assert section[..3] == line[..3];
  }

  lemma FenceHasNoCut(line: string, section: string, a: int)
    requires IsFence(line) && Plain(section) && !IsFence(section)
    ensures !NameCut(line, section, a)
  {
    assert forall i :: 0 <= i < 3 ==> line[i] == line[..3][i] && !IsSpace(line[i]);
    assert 0 < a <= |line| ==> line[..a][0] == line[0];
    if a == 0 && |section| <= |line| {
      assert |section| < 3 ==> line[0 + |section|..][0] == line[|section|];
      assert line[0..0 + |section|] == line[..|section|];
      if |section| >= 3 && line[..|section|] == section {
        FencePrefix(line, section);
      }
    }
  }

  lemma SameFencesBetween(ls: seq<string>, m: nat, q: nat)
    requires m <= q <= |ls| && forall i :: m <= i < q ==> !IsFence(ls[i])
    ensures LeavesOpen(ls[..m]) == LeavesOpen(ls[..q])
  {
    assert ls[..q] == ls[..m] + ls[m..q];
    FencesOfConcat(ls[..m], ls[m..q]);
    NoFences(ls[m..q]);
  }

  /** What reads as a heading with the fences masked is one in the text itself. */
  lemma MaskedHeadingIsReal(ls: seq<string>, masked: seq<string>, p: nat, section: string)
    requires Reads(ls, masked)
    requires Plain(section) && !IsFence(section) && p < |ls| && NameLine(masked, p, section).Some?
    ensures NameLine(ls, p, section).Some?
  {
    var q := NameLine(masked, p, section).value;
    HeadingLineNotBlank(masked, p, section);
    assert masked[p] == ls[p] && masked[q] == ls[q];
    if q > p {
      FenceIsNoNameAt(ls, q, section);
      ReadsThrough(ls, masked, p, q);
      NameBelow(ls, p, q, section);
    }
  }

  lemma FenceIsNoNameAt(ls: seq<string>, q: nat, section: string)
    requires Plain(section) && !IsFence(section) && q < |ls| && IsNameLine(ls[q], section)
    ensures !IsFence(ls[q])
  {
    if IsFence(ls[q]) { FenceIsNoName(ls[q], section); }
  }

  lemma NameBelow(ls: seq<string>, p: nat, q: nat, section: string)
    requires p < q < |ls| - 1 && EndsInMarks(ls[p]) && IsNameLine(ls[q], section) && !Blank(ls[q])
    requires forall m :: p < m < q ==> Blank(ls[m])
    ensures NameLine(ls, p, section).Some?
  {
    assert NextText(ls, p + 1) == q;
  }

  lemma ReadsThrough(ls: seq<string>, masked: seq<string>, p: nat, q: nat)
    requires Reads(ls, masked) && p < q < |ls| && !IsFence(ls[q]) && Shown(ls, q)
    requires forall m :: p < m < q ==> Blank(masked[m])
    ensures forall m :: p < m < q ==> Blank(ls[m])
  {
    forall m | p < m < q ensures !IsFence(ls[m]) {
      assert IsFence(ls[m]) ==> Shown(ls, m);
      if IsFence(ls[m]) { FenceNotBlank(ls[m]); }
    }
    forall m | p < m < q ensures Blank(ls[m]) {
      SameFencesBetween(ls, m, q);
      assert Shown(ls, m);
    }
  }

  // ----- The stub -------------------------------------------------------------------------

  function Stub(section: string): seq<string> {
    ["", "## " + section, "", ""]
  }

  lemma StubIsFenceFree(section: string)
    ensures forall m :: 0 <= m < 4 ==> !IsFence(Stub(section)[m])
  {
    assert Stub(section)[1][0] == '#';
  }

  lemma StubHeads(base: seq<string>, n: nat, section: string)
    requires n + 4 == |base| && base[n..] == Stub(section)
    ensures NameLine(base, n + 1, section).Some?
  {
    var line := "## " + section;
    assert base[n + 1] == base[n..][1] == line;
    assert line[3..3 + |section|] == section && line[3 + |section|..] == "";
    assert HeaderCut(line, section, 0, 3);
  }

  /** With no fence left open, the stub is a heading like any other. */
  lemma StubInTheOpen(ls: seq<string>, section: string)
    requires ls != [] && !LeavesOpen(ls)
    ensures FindSection(Stubbed(ls, section), section).Some?
  {
    var t := WithoutTrailingSpace(ls);
    var base := Stubbed(ls, section);
    TrimmedFences(ls);
    StubIsFenceFree(section);
    MaskedConcat(t, Stub(section), false);
    MaskedFenceFree(Stub(section));
    assert base == t + Stub(section);
    assert Masked(base, false)[|t|..] == Stub(section);
    StubHeads(Masked(base, false), |t|, section);
    StubHeads(base, |t|, section);
    FoundBelow(base, |t| + 1, section);
  }

  /** A heading that reads in the masked text no lower than one that stands in the text is found. */
  lemma FoundBelow(base: seq<string>, m: nat, section: string)
    requires m < |base| && NameLine(base, m, section).Some?
    requires var p := FindFrom(Masked(base, false), 0, section); p.Some? && (p.value <= m || NameLine(Masked(base, false), m, section).Some?)
    ensures FindSection(base, section).Some?
  {
  }

  /** With a fence left open, the stub reads as blanks, and a heading is found only where one
      would be in the text above it with a line end after it. */
  lemma StubInAFence(ls: seq<string>, section: string)
    requires ls != [] && LeavesOpen(ls) && Plain(section)
    ensures FindSection(Stubbed(ls, section), section).None?
            <==> FindFrom(Masked(WithoutTrailingSpace(ls), false) + [""], 0, section).None?
  {
    var t := WithoutTrailingSpace(ls);
    var base := Stubbed(ls, section);
    var masked, short := Masked(base, false), Masked(t, false) + [""];
    TrimmedFences(ls);
    StubIsFenceFree(section);
    MaskedConcat(t, Stub(section), false);
    MaskedInFence(Stub(section));
    assert base == t + Stub(section);
    assert base[|t|..] == Stub(section);
    assert forall m :: 0 <= m < |t| ==> masked[m] == short[m];
    assert forall m :: |t| <= m < |masked| ==> Blank(masked[m]);
    SameHeadings(masked, short, |t|, section);
    StubHeads(base, |t|, section);
    if FindFrom(masked, 0, section).Some? {
      FoundBelow(base, |t| + 1, section);
    }
  }

  /** Two texts that are the same above line `n` and blank from there on. */
  lemma SameHeadings(a: seq<string>, b: seq<string>, n: nat, section: string)
    requires n < |a| && n < |b| && Plain(section) && 0 < n
    requires forall m :: 0 <= m < n ==> a[m] == b[m]
    requires (forall m :: n <= m < |a| ==> Blank(a[m])) && (forall m :: n <= m < |b| ==> Blank(b[m]))
    ensures FindFrom(a, 0, section).None? <==> FindFrom(b, 0, section).None?
    ensures FindFrom(a, 0, section).Some? ==> FindFrom(a, 0, section).value < n
  {
    forall m | 0 <= m < n ensures NameLine(a, m, section) == NameLine(b, m, section) {
      SameNameLine(a, b, n, m, section);
    }
    forall m | n <= m < |a| ensures NameLine(a, m, section).None? {
      BlankIsNoHeader(a[m], section);
    }
    forall m | n <= m < |b| ensures NameLine(b, m, section).None? {
      BlankIsNoHeader(b[m], section);
    }
  }

  // ----- Exactly when the patcher fails ---------------------------------------------------

  /** A section that stands in the text stands in its trimmed form with a line end after it. */
  lemma StandsWhenTrimmed(ls: seq<string>, section: string)
    requires ls != [] && Plain(section) && FindSection(ls, section).Some?
    ensures FindFrom(Masked(WithoutTrailingSpace(ls), false) + [""], 0, section).Some?
  {
    var p := FindFrom(Masked(ls, false), 0, section).value;
    var q := NameLine(Masked(ls, false), p, section).value;
    var n := |WithoutTrailingSpace(ls)|;
    HeadingLineNotBlank(Masked(ls, false), p, section);
    MaskedReads(ls);
    TrimmedRoles(ls, section);
    assert Masked(ls, false)[q] == ls[q] && q < n;
    HeadCarries(Masked(ls, false), Masked(WithoutTrailingSpace(ls), false) + [""], n, section, p, q);
  }

  lemma TrimmedRoles(ls: seq<string>, section: string)
    requires ls != [] && Plain(section)
    ensures var t := WithoutTrailingSpace(ls);
            forall m :: 0 <= m < |t| ==> SameRole(Masked(ls, false)[m], (Masked(t, false) + [""])[m], section)
  {
    var t := WithoutTrailingSpace(ls);
    StripRightIs(ls[|t| - 1]);
    MaskedReads(ls);
    MaskedReads(t);
    forall m | 0 <= m < |t| ensures SameRole(Masked(ls, false)[m], Masked(t, false)[m], section) {
      TrimmedRole(ls, t, Masked(ls, false), Masked(t, false), m, section);
    }
  }

  lemma TrimmedRole(ls: seq<string>, t: seq<string>, a: seq<string>, b: seq<string>, m: nat, section: string)
    requires Reads(ls, a) && Reads(t, b) && Plain(section) && m < |t| <= |ls|
    requires (forall i :: 0 <= i < |t| - 1 ==> t[i] == ls[i]) && Strips(ls[|t| - 1], t[|t| - 1])
    ensures SameRole(a[m], b[m], section)
  {
    assert t[..m] == ls[..m];
    SameFence(ls[|t| - 1], t[|t| - 1]);
    assert Shown(ls, m) == Shown(t, m);
    if Shown(ls, m) {
      if m == |t| - 1 {
        StrippedRole(ls[m], t[m], section);
      }
    } else {
      BlankIsNoHeader(a[m], section);
      BlankIsNoHeader(b[m], section);
    }
  }

  /** The section added to a text is not found if and only if the text leaves a fence open and,
      with a line end after it, shows no heading of the section outside its fences. */
  lemma StubIsLostExactly(ls: seq<string>, e: Edit, expand: string -> Option<string>)
    requires ls != [] && Plain(e.section) && expand(e.line) == Some(e.line)
    ensures PatchOne(ls, e, expand) == Err(SectionNotFound)
            <==> && LeavesOpen(ls)
                 && FindFrom(Masked(WithoutTrailingSpace(ls), false) + [""], 0, e.section).None?
  {
    FailsExactly(ls, e, expand);
    if FindSection(ls, e.section).Some? {
      StandsWhenTrimmed(ls, e.section);
    } else if LeavesOpen(ls) {
      StubInAFence(ls, e.section);
    } else {
      StubInTheOpen(ls, e.section);
    }
  }

  lemma FailsExactly(ls: seq<string>, e: Edit, expand: string -> Option<string>)
    requires ls != [] && expand(e.line) == Some(e.line)
    ensures PatchOne(ls, e, expand) == Err(SectionNotFound)
            <==> FindSection(ls, e.section).None? && FindSection(Stubbed(ls, e.section), e.section).None?
  {
  }

  /** Read off the text itself, for a section whose name does not itself read as a fence: it is
      missing, the number of fence lines is odd, and the last line that is not blank is not a
      fence that ends in the section's heading, which the stub's line end would complete. */
  lemma UnclosedFenceHidesTheStub(ls: seq<string>, e: Edit, expand: string -> Option<string>)
    requires ls != [] && Plain(e.section) && !IsFence(e.section) && expand(e.line) == Some(e.line)
    ensures var t := WithoutTrailingSpace(ls);
            var last := t[|t| - 1];
            PatchOne(ls, e, expand) == Err(SectionNotFound)
            <==> && FindSection(ls, e.section).None?
                 && Fences(ls) % 2 == 1
                 && !(IsFence(last) && EndsInHeader(last, e.section))
  {
    var t := WithoutTrailingSpace(ls);
    var last := t[|t| - 1];
    StubIsLostExactly(ls, e, expand);
    if FindSection(ls, e.section).Some? {
      StandsWhenTrimmed(ls, e.section);
    } else if LeavesOpen(ls) {
      if IsFence(last) && EndsInHeader(last, e.section) {
        LastFenceHeads(t, e.section);
      } else {
        NothingElseHeads(ls, e.section);
      }
    }
  }

  lemma LastFenceHeads(t: seq<string>, section: string)
    requires t != [] && IsFence(t[|t| - 1]) && EndsInHeader(t[|t| - 1], section)
    ensures FindFrom(Masked(t, false) + [""], 0, section).Some?
  {
    var n := |t|;
    MaskedAt(t, n - 1);
    assert (Masked(t, false) + [""])[n - 1] == t[n - 1];
    assert NameLine(Masked(t, false) + [""], n - 1, section).Some?;
  }

  /** Apart from a heading in a last fence, the line end completes none. */
  lemma NothingElseHeads(ls: seq<string>, section: string)
    requires ls != [] && Plain(section) && !IsFence(section) && LeavesOpen(ls) && FindSection(ls, section).None?
    requires var t := WithoutTrailingSpace(ls); !(IsFence(t[|t| - 1]) && EndsInHeader(t[|t| - 1], section))
    ensures FindFrom(Masked(WithoutTrailingSpace(ls), false) + [""], 0, section).None?
  {
    var t := WithoutTrailingSpace(ls);
    var short := Masked(t, false) + [""];
    if FindFrom(short, 0, section).Some? {
      var p := FindFrom(short, 0, section).value;
      var q := NameLine(short, p, section).value;
      NotInTrimmedLast(ls, p, q, section);
      TrimmedRoles(ls, section);
      CarriedBack(Masked(ls, false), short, |t|, p, q, section);
      RealSection(ls, p, section);
    }
  }

  lemma CarriedBack(masked: seq<string>, short: seq<string>, n: nat, p: nat, q: nat, section: string)
    requires n <= |masked| && n <= |short|
    requires forall m :: 0 <= m < n ==> SameRole(masked[m], short[m], section)
    requires p < |short| && NameLine(short, p, section) == Some(q) && q < n - 1
    ensures p < |masked| && NameLine(masked, p, section).Some?
  {
    forall m | 0 <= m < n ensures SameRole(short[m], masked[m], section) {
      assert SameRole(masked[m], short[m], section);
    }
    HeadCarries(short, masked, n, section, p, q);
  }

  lemma RealSection(ls: seq<string>, p: nat, section: string)
    requires Plain(section) && !IsFence(section) && p < |ls| && NameLine(Masked(ls, false), p, section).Some?
    ensures FindSection(ls, section).Some?
  {
    var first := FindFrom(Masked(ls, false), 0, section).value;
    MaskedReads(ls);
    MaskedHeadingIsReal(ls, Masked(ls, false), first, section);
  }

  lemma NotInTrimmedLast(ls: seq<string>, p: nat, q: nat, section: string)
    requires ls != [] && Plain(section) && !IsFence(section) && LeavesOpen(ls)
    requires var t := WithoutTrailingSpace(ls);
             && !(IsFence(t[|t| - 1]) && EndsInHeader(t[|t| - 1], section))
             && p <= |t| && NameLine(Masked(t, false) + [""], p, section) == Some(q)
    ensures q < |WithoutTrailingSpace(ls)| - 1
  {
    var t := WithoutTrailingSpace(ls);
    var short := Masked(t, false) + [""];
    TrimmedFences(ls);
    MaskedReads(t);
    assert short[..|t|] == Masked(t, false);
    NotInLastLine(t, short, p, q, section);
  }

  lemma NotInLastLine(t: seq<string>, short: seq<string>, p: nat, q: nat, section: string)
    requires t != [] && Plain(section) && !IsFence(section) && LeavesOpen(t) && |short| == |t| + 1
    requires Reads(t, short[..|t|]) && short[|t|] == ""
    requires !(IsFence(t[|t| - 1]) && EndsInHeader(t[|t| - 1], section))
    requires p <= |t| && NameLine(short, p, section) == Some(q)
    ensures q < |t| - 1
  {
    var n := |t|;
    HeadingLineNotBlank(short, p, section);
    FencesUpTo(t, n);
    assert short[n - 1] == short[..n][n - 1];
    assert Shown(t, n - 1) ==> IsFence(t[n - 1]);
    if IsFence(t[n - 1]) {
      FenceIsNoName(t[n - 1], section);
    }
  }
}
