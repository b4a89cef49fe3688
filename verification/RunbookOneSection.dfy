/** Patches of one section: when exactly patching twice is patching once. Nothing is asked of the
    text but that it holds no code fence. */
module RunbookOneSection {
  import opened Wrappers
  import opened BoundedText
  import opened Validator
  import opened RunbookPatcher
  import opened RunbookIdempotence

  ghost predicate FenceFree(ls: seq<string>) {
    ls != [] && forall m :: 0 <= m < |ls| ==> !IsFence(ls[m])
  }

  ghost predicate Insertable(e: Edit, expand: string -> Option<string>) {
    '=' !in e.name && BulletFor(e.line, e.name) && '\n' !in e.line && expand(e.line) == Some(e.line)
  }

  /** The text ends inside the section, in a line `##` that a line end would make a heading. */
  predicate Unfinished(ls: seq<string>, s: Section) {
    s.end == |ls| && 0 <= s.start < |ls| - 1 && ls[|ls| - 1] == "##"
  }

  predicate Safe(ls: seq<string>, s: Section, name: string)
    requires s.start <= s.end <= |ls|
  {
    !Unfinished(ls, s) || HasBullet(ls[s.start..s.end], name)
  }

  // ----- The heading above the edits ------------------------------------------------------

  /** Whatever changes below a heading's name, the heading stays the first. */
  lemma HeadStays(a: seq<string>, b: seq<string>, section: string, p: nat, q: nat)
    requires FirstAt(a, section, p, q) && q + 1 < |b| && q < |a| && forall m :: 0 <= m <= q ==> b[m] == a[m]
    ensures FirstAt(b, section, p, q)
  {
    forall m | 0 <= m <= p ensures NameLine(b, m, section) == NameLine(a, m, section) {
      HeadLineStays(a, b, section, p, q, m);
    }
  }

  lemma HeadLineStays(a: seq<string>, b: seq<string>, section: string, p: nat, q: nat, m: nat)
    requires FirstAt(a, section, p, q) && q + 1 < |b| && q < |a| && forall i :: 0 <= i <= q ==> b[i] == a[i]
    requires m <= p
    ensures NameLine(b, m, section) == NameLine(a, m, section)
  {
    BlankIsNoHeader(a[p], section);
    if m < p || p < q {
      var r, r' := NextText(a, m + 1), NextText(b, m + 1);
      assert m < p ==> r <= p;
      assert m == p < q ==> r == q;
      assert r <= q && !Blank(b[r]);
      assert r' == r;
    }
  }

  lemma BulletNotBlank(line: string, name: string)
    requires BulletFor(line, name)
    ensures !Blank(line) && !MarksAt(line, 0) && !IsFence(line) && line != ""
  {
    assert !IsSpace(line[0]);
  }

  lemma ReplacedStands(a: seq<string>, b: seq<string>, section: string, p: nat, s: Section, name: string, line: string)
    requires Stands(a, section, p, s) && Rebulleted(a, b, s.start, s.end, name, line) && BulletFor(line, name)
    ensures Stands(b, section, p, s)
  {
    HeadStays(a, b, section, p, s.name);
    BulletNotBlank(line, name);
    forall m | 0 <= m < |a| ensures Blank(b[m]) == Blank(a[m]) && IsHeading(b, m) == IsHeading(a, m) {
      if BulletFor(a[m], name) {
        BulletNotBlank(a[m], name);
      }
    }
  }

  lemma AddedHeadings(a: seq<string>, b: seq<string>, s: Section, k: nat, n: nat, line: string, name: string)
    requires Inserted(a, b, k, n, line) && BulletFor(line, name)
    ensures forall m :: 0 <= m < k && (m < |a| - 1 || a[m] != "##") ==> IsHeading(b, m) == IsHeading(a, m)
    ensures forall m :: k <= m < |a| ==> IsHeading(b, m + n) == IsHeading(a, m)
    ensures forall m :: k <= m < k + n ==> !IsHeading(b, m)
  {
    BulletNotBlank(line, name);
  }

  /** The section after a bullet was added at its end. */
  function Grown(a: seq<string>, s: Section, k: nat, n: nat): Section
    requires s.start < |a|
  {
    Section(s.name, if Blank(a[s.start]) then k else s.start, s.end + n)
  }

  lemma AddedStands(a: seq<string>, b: seq<string>, section: string, p: nat, s: Section, k: nat, n: nat, e: Edit)
    requires Stands(a, section, p, s) && Added(a, b, s, k, n, e) && BulletFor(e.line, e.name) && !Unfinished(a, s)
    ensures Stands(b, section, p, Grown(a, s, k, n)) && !Unfinished(b, Grown(a, s, k, n))
  {
    HeadStays(a, b, section, p, s.name);
    AddedHeadings(a, b, s, k, n, e.line, e.name);
    BulletNotBlank(e.line, e.name);
    var s' := Grown(a, s, k, n);
    forall m | s'.start < m < s'.end ensures !IsHeading(b, m) {
      if m >= k + n {
        assert IsHeading(b, m - n + n) == IsHeading(a, m - n);
      }
    }
    if s'.end < |b| {
      assert IsHeading(b, s.end + n) == IsHeading(a, s.end);
    } else if k < |a| {
      assert b[|a| - 1 + n] == a[|a| - 1];
    }
  }

  /** In an unfinished section the added line end ends the section above the added bullet. */
  lemma AstrayStands(a: seq<string>, b: seq<string>, section: string, p: nat, s: Section, k: nat, n: nat, e: Edit)
    requires Stands(a, section, p, s) && Added(a, b, s, k, n, e) && BulletFor(e.line, e.name) && Unfinished(a, s)
    requires k == |a|
    ensures Stands(b, section, p, Section(s.name, s.start, |a| - 1))
  {
    HeadStays(a, b, section, p, s.name);
    AddedHeadings(a, b, s, k, n, e.line, e.name);
    assert b[|a| - 1] == "##" && IsHeading(b, |a| - 1);
  }

  // ----- One edit --------------------------------------------------------------------------

  /** What an edit does to a section that is not unfinished, or that has a bullet to replace. */
  ghost predicate Edited(a: seq<string>, b: seq<string>, s: Section, s': Section, e: Edit) {
    && s.start < s.end <= |a| && s'.start < s'.end <= |b|
    && if HasBullet(a[s.start..s.end], e.name)
       then s' == s && Rebulleted(a, b, s.start, s.end, e.name, e.line)
       else exists k: nat, n: nat :: Added(a, b, s, k, n, e) && s' == Grown(a, s, k, n)
  }

  lemma FenceFreeWithAdded(a: seq<string>, b: seq<string>, k: nat, n: nat, line: string, name: string)
    requires FenceFree(a) && Inserted(a, b, k, n, line) && BulletFor(line, name)
    ensures FenceFree(b) && |b| > |a|
  {
    BulletNotBlank(line, name);
    forall m | 0 <= m < |b| ensures !IsFence(b[m]) {
      assert m >= k + n ==> b[m - n + n] == a[m - n];
    }
  }

  lemma FenceFreeAfter(a: seq<string>, b: seq<string>, s: Section, s': Section, e: Edit)
    requires FenceFree(a) && Edited(a, b, s, s', e) && BulletFor(e.line, e.name)
    ensures FenceFree(b) && |b| >= |a|
    ensures !HasBullet(a[s.start..s.end], e.name) ==> |b| > |a|
  {
    BulletNotBlank(e.line, e.name);
    if !HasBullet(a[s.start..s.end], e.name) {
      var k: nat, n: nat :| Added(a, b, s, k, n, e) && s' == Grown(a, s, k, n);
      FenceFreeWithAdded(a, b, k, n, e.line, e.name);
    }
  }

  lemma PatchReplaces(a: seq<string>, e: Edit, p: nat, s: Section, expand: string -> Option<string>)
    requires FenceFree(a) && Stands(a, e.section, p, s) && expand(e.line) == Some(e.line)
    requires HasBullet(a[s.start..s.end], e.name)
    ensures PatchOne(a, e, expand) == Ok(a[..s.start] + Replaced(a[s.start..s.end], e.name, e.line) + a[s.end..])
  {
    PatchWhereItStands(a, e, p, s, expand);
  }

  lemma ReplacedKeepsUnfinished(a: seq<string>, b: seq<string>, s: Section, e: Edit)
    requires Rebulleted(a, b, s.start, s.end, e.name, e.line) && BulletFor(e.line, e.name)
    ensures Unfinished(b, s) <==> Unfinished(a, s)
  {
    assert e.line[0] == '-' && "##"[0] == '#';
    assert !BulletFor("##", e.name);
  }

  lemma SafeReplace(a: seq<string>, e: Edit, p: nat, s: Section, expand: string -> Option<string>)
    returns (b: seq<string>)
    requires FenceFree(a) && Insertable(e, expand) && Stands(a, e.section, p, s)
    requires HasBullet(a[s.start..s.end], e.name)
    ensures PatchOne(a, e, expand) == Ok(b) && Rebulleted(a, b, s.start, s.end, e.name, e.line)
    ensures Stands(b, e.section, p, s) && (Unfinished(b, s) <==> Unfinished(a, s))
  {
    PatchReplaces(a, e, p, s, expand);
    b := a[..s.start] + Replaced(a[s.start..s.end], e.name, e.line) + a[s.end..];
    ReplacingRebullets(a, s, e);
    ReplacedStands(a, b, e.section, p, s, e.name, e.line);
    ReplacedKeepsUnfinished(a, b, s, e);
  }

  lemma SafeAppend(a: seq<string>, e: Edit, p: nat, s: Section, expand: string -> Option<string>)
    returns (b: seq<string>, k: nat, n: nat)
    requires FenceFree(a) && Insertable(e, expand) && Stands(a, e.section, p, s)
    requires !HasBullet(a[s.start..s.end], e.name) && !Unfinished(a, s)
    ensures PatchOne(a, e, expand) == Ok(b) && Added(a, b, s, k, n, e)
    ensures Stands(b, e.section, p, Grown(a, s, k, n)) && !Unfinished(b, Grown(a, s, k, n))
  {
    PatchAppends(a, e, p, s, expand);
    b := a[..s.start] + Appended(a[s.start..s.end], e.line) + a[s.end..];
    AppendingAdds(a, e.section, p, s, e);
    k, n :| Added(a, b, s, k, n, e);
    AddedStands(a, b, e.section, p, s, k, n, e);
  }

  lemma SafeStep(a: seq<string>, e: Edit, p: nat, s: Section, expand: string -> Option<string>)
    returns (b: seq<string>, s': Section)
    requires FenceFree(a) && Insertable(e, expand) && Stands(a, e.section, p, s) && Safe(a, s, e.name)
    ensures PatchOne(a, e, expand) == Ok(b) && Edited(a, b, s, s', e)
    ensures Stands(b, e.section, p, s') && (Unfinished(b, s') ==> Unfinished(a, s))
  {
    if HasBullet(a[s.start..s.end], e.name) {
      s' := s;
      b := SafeReplace(a, e, p, s, expand);
    } else {
      var k, n;
      b, k, n := SafeAppend(a, e, p, s, expand);
      s' := Grown(a, s, k, n);
    }
  }

  lemma BulletAt(ls: seq<string>, from: nat, to: nat, m: nat, name: string)
    requires from <= m < to <= |ls| && BulletFor(ls[m], name)
    ensures HasBullet(ls[from..to], name)
  {
    assert ls[from..to][m - from] == ls[m];
  }

  /** Every old line of the section is still in it. */
  lemma StillInside(a: seq<string>, b: seq<string>, s: Section, k: nat, n: nat, e: Edit, m: nat, name: string)
    requires Added(a, b, s, k, n, e) && s.start < s.end <= |a| && s.start <= m < s.end
    requires Blank(a[s.start]) ==> s.start == |a| - 1
    requires BulletFor(a[m], name)
    ensures var s' := Grown(a, s, k, n); var i := if m < k then m else m + n;
            s'.start <= i < s'.end && b[i] == a[m]
  {
    BulletNotBlank(a[m], name);
  }

  /** The section's bullets of another variable are the same before and after. */
  lemma OthersBullets(a: seq<string>, b: seq<string>, p: nat, s: Section, s': Section, e: Edit, f: Edit,
                      expand: string -> Option<string>)
    requires Edited(a, b, s, s', e) && Stands(a, e.section, p, s)
    requires Insertable(e, expand) && '=' !in f.name && e.name != f.name
    ensures HasBullet(b[s'.start..s'.end], f.name) <==> HasBullet(a[s.start..s.end], f.name)
    ensures BulletFor(f.line, f.name) && Shows(a, f, s.start, s.end) ==> Shows(b, f, s'.start, s'.end)
  {
    if HasBullet(a[s.start..s.end], e.name) {
      OthersAfterReplacing(a, b, s, e, f, expand);
    } else {
      var k: nat, n: nat :| Added(a, b, s, k, n, e) && s' == Grown(a, s, k, n);
      OthersAfterAdding(a, b, s, k, n, e, f, expand);
    }
  }

  lemma OthersAfterReplacing(a: seq<string>, b: seq<string>, s: Section, e: Edit, f: Edit,
                             expand: string -> Option<string>)
    requires Rebulleted(a, b, s.start, s.end, e.name, e.line)
    requires Insertable(e, expand) && '=' !in f.name && e.name != f.name
    ensures HasBullet(b[s.start..s.end], f.name) <==> HasBullet(a[s.start..s.end], f.name)
    ensures BulletFor(f.line, f.name) && Shows(a, f, s.start, s.end) ==> Shows(b, f, s.start, s.end)
  {
    forall m | 0 <= m < |a|
      ensures BulletFor(b[m], f.name) <==> BulletFor(a[m], f.name)
      ensures BulletFor(a[m], f.name) ==> b[m] == a[m]
    {
      if BulletFor(a[m], e.name) && BulletFor(a[m], f.name) { OneNamePerBullet(a[m], e.name, f.name); }
      if BulletFor(e.line, f.name) { OneNamePerBullet(e.line, e.name, f.name); }
    }
    if HasBullet(a[s.start..s.end], f.name) {
      var m := BulletIn(a, s.start, s.end, f.name);
      BulletAt(b, s.start, s.end, m, f.name);
    }
    if HasBullet(b[s.start..s.end], f.name) {
      var m := BulletIn(b, s.start, s.end, f.name);
      BulletAt(a, s.start, s.end, m, f.name);
    }
  }

  lemma OthersAfterAdding(a: seq<string>, b: seq<string>, s: Section, k: nat, n: nat, e: Edit, f: Edit,
                          expand: string -> Option<string>)
    requires Added(a, b, s, k, n, e) && s.start < s.end <= |a|
    requires Blank(a[s.start]) ==> s.start == |a| - 1
    requires Insertable(e, expand) && '=' !in f.name && e.name != f.name
    ensures var s' := Grown(a, s, k, n);
            && (HasBullet(b[s'.start..s'.end], f.name) <==> HasBullet(a[s.start..s.end], f.name))
            && (BulletFor(f.line, f.name) && Shows(a, f, s.start, s.end) ==> Shows(b, f, s'.start, s'.end))
  {
    var s' := Grown(a, s, k, n);
    if BulletFor(e.line, f.name) { OneNamePerBullet(e.line, e.name, f.name); }
    forall i | s'.start <= i < s'.end && BulletFor(b[i], f.name)
      ensures var m := if i < k then i else i - n; s.start <= m < s.end && a[m] == b[i]
    {
      assert i >= k + n ==> b[i - n + n] == a[i - n];
    }
    if HasBullet(a[s.start..s.end], f.name) {
      var m := BulletIn(a, s.start, s.end, f.name);
      StillInside(a, b, s, k, n, e, m, f.name);
      BulletAt(b, s'.start, s'.end, if m < k then m else m + n, f.name);
    }
    if HasBullet(b[s'.start..s'.end], f.name) {
      var i := BulletIn(b, s'.start, s'.end, f.name);
      BulletAt(a, s.start, s.end, if i < k then i else i - n, f.name);
    }
    if BulletFor(f.line, f.name) && Shows(a, f, s.start, s.end) {
      var m :| s.start <= m < s.end && a[m] == f.line;
      StillInside(a, b, s, k, n, e, m, f.name);
    }
  }

  lemma ShowsEdited(a: seq<string>, b: seq<string>, s: Section, s': Section, e: Edit)
    requires Edited(a, b, s, s', e) && BulletFor(e.line, e.name)
    ensures Shows(b, e, s'.start, s'.end)
  {
    if HasBullet(a[s.start..s.end], e.name) {
      var m := BulletIn(a, s.start, s.end, e.name);
      assert b[m] == e.line;
    } else {
      var k: nat, n: nat :| Added(a, b, s, k, n, e) && s' == Grown(a, s, k, n);
      ShownAdded(a, b, s'.start, k, n, s, e);
    }
  }

  // ----- All edits of one section ----------------------------------------------------------

  ghost predicate InSection(edits: seq<Edit>, section: string, expand: string -> Option<string>) {
    Distinct(edits) && forall e :: e in edits ==> e.section == section && Insertable(e, expand)
  }

  /** The section stands, and is either not unfinished or has a bullet of the variable. */
  ghost predicate SafeFor(ls: seq<string>, section: string, name: string) {
    var found := SectionFrom(ls, 0, section);
    found.Some? && Safe(ls, found.value, name)
  }

  ghost predicate ShownIn(ls: seq<string>, section: string, e: Edit) {
    var found := SectionFrom(ls, 0, section);
    found.Some? && Shows(ls, e, found.value.start, found.value.end)
  }

  lemma StepShows(a: seq<string>, e: Edit, expand: string -> Option<string>)
    requires FenceFree(a) && Insertable(e, expand) && SafeFor(a, e.section, e.name)
    ensures var r := PatchOne(a, e, expand);
            r.Ok? && FenceFree(r.value) && |r.value| >= |a| && ShownIn(r.value, e.section, e)
  {
    var p, s := Found(a, e.section);
    var b, s' := SafeStep(a, e, p, s, expand);
    FenceFreeAfter(a, b, s, s', e);
    Standing(b, e.section, p, s');
    ShowsEdited(a, b, s, s', e);
  }

  lemma StepKeepsOthers(a: seq<string>, e: Edit, f: Edit, expand: string -> Option<string>)
    requires FenceFree(a) && Insertable(e, expand) && SafeFor(a, e.section, e.name)
    requires Insertable(f, expand) && f.section == e.section && f.name != e.name
    ensures var r := PatchOne(a, e, expand);
            && r.Ok?
            && (SafeFor(a, e.section, f.name) ==> SafeFor(r.value, e.section, f.name))
            && (ShownIn(a, e.section, f) ==> ShownIn(r.value, e.section, f))
  {
    var p, s := Found(a, e.section);
    var b, s' := SafeStep(a, e, p, s, expand);
    Standing(b, e.section, p, s');
    OthersBullets(a, b, p, s, s', e, f, expand);
  }

  lemma RestIsSafe(a: seq<string>, section: string, edits: seq<Edit>, expand: string -> Option<string>)
    requires FenceFree(a) && edits != [] && InSection(edits, section, expand)
    requires forall e :: e in edits ==> SafeFor(a, section, e.name)
    ensures var r := PatchOne(a, edits[0], expand);
            r.Ok? && FenceFree(r.value) && forall f :: f in edits[1..] ==> SafeFor(r.value, section, f.name)
    ensures InSection(edits[1..], section, expand)
  {
    var e := edits[0];
    assert e in edits;
    StepShows(a, e, expand);
    FirstIsDistinct(edits);
    forall f | f in edits[1..] ensures SafeFor(PatchOne(a, e, expand).value, section, f.name) {
      assert f in edits;
      StepKeepsOthers(a, e, f, expand);
    }
  }

  lemma {:induction false} RunKeepsShown(a: seq<string>, section: string, edits: seq<Edit>, f: Edit,
                                         expand: string -> Option<string>)
    requires FenceFree(a) && InSection(edits, section, expand)
    requires forall e :: e in edits ==> SafeFor(a, section, e.name) && e.name != f.name
    requires Insertable(f, expand) && f.section == section && ShownIn(a, section, f)
    ensures var r := PatchAll(a, edits, expand); r.Ok? && FenceFree(r.value) && ShownIn(r.value, section, f)
    decreases |edits|
  {
    if edits != [] {
      var e := edits[0];
      assert e in edits;
      RestIsSafe(a, section, edits, expand);
      StepKeepsOthers(a, e, f, expand);
      RunKeepsShown(PatchOne(a, e, expand).value, section, edits[1..], f, expand);
    }
  }

  lemma {:induction false} RunShowsAll(a: seq<string>, section: string, edits: seq<Edit>, expand: string -> Option<string>)
    requires FenceFree(a) && InSection(edits, section, expand)
    requires forall e :: e in edits ==> SafeFor(a, section, e.name)
    ensures var r := PatchAll(a, edits, expand);
            r.Ok? && FenceFree(r.value) && forall e :: e in edits ==> ShownIn(r.value, section, e)
    decreases |edits|
  {
    if edits != [] {
      var e := edits[0];
      assert e in edits;
      RestIsSafe(a, section, edits, expand);
      StepShows(a, e, expand);
      FirstIsDistinct(edits);
      var b := PatchOne(a, e, expand).value;
      RunShowsAll(b, section, edits[1..], expand);
      RunKeepsShown(b, section, edits[1..], e, expand);
      assert forall f :: f in edits ==> f == e || f in edits[1..];
    }
  }

  lemma ShownStaysPut(a: seq<string>, e: Edit, p: nat, s: Section, expand: string -> Option<string>)
    requires FenceFree(a) && Insertable(e, expand) && Stands(a, e.section, p, s) && Shows(a, e, s.start, s.end)
    ensures PatchOne(a, e, expand) == Ok(a)
  {
    PatchWhereItStands(a, e, p, s, expand);
    ShownIsFixed(a, s, e, expand);
  }

  lemma {:induction false} ShownAreFixed(a: seq<string>, section: string, edits: seq<Edit>, expand: string -> Option<string>)
    requires FenceFree(a) && InSection(edits, section, expand)
    requires forall e :: e in edits ==> ShownIn(a, section, e)
    ensures PatchAll(a, edits, expand) == Ok(a)
    decreases |edits|
  {
    if edits != [] {
      var e := edits[0];
      assert e in edits;
      var p, s := Found(a, section);
      ShownStaysPut(a, e, p, s, expand);
      FirstIsDistinct(edits);
      ShownAreFixed(a, section, edits[1..], expand);
    }
  }

  // ----- An unfinished section -------------------------------------------------------------

  /** The section ends properly and holds no bullet of the variable. */
  ghost predicate Lacks(ls: seq<string>, section: string, name: string) {
    var found := SectionFrom(ls, 0, section);
    && found.Some? && !Unfinished(ls, found.value)
    && !HasBullet(ls[found.value.start..found.value.end], name)
  }

  lemma StraySplice(a: seq<string>, start: nat, line: string)
    requires start < |a| - 1 && a[|a| - 1] != ""
    ensures a[..start] + Appended(a[start..|a|], line) + a[|a|..] == a + [line, ""]
  {
    AppendedAfterText(a, start, |a|, line);
    assert a[..|a|] == a && a[|a|..] == [];
  }

  lemma StrayText(a: seq<string>, e: Edit, p: nat, s: Section, expand: string -> Option<string>)
    requires FenceFree(a) && Stands(a, e.section, p, s) && Unfinished(a, s)
    requires !HasBullet(a[s.start..s.end], e.name)
    ensures PatchOne(a, e, expand) == Ok(a + [e.line, ""])
  {
    PatchAppends(a, e, p, s, expand);
    StraySplice(a, s.start, e.line);
  }

  lemma StrayStands(a: seq<string>, e: Edit, p: nat, s: Section)
    requires Stands(a, e.section, p, s) && Unfinished(a, s) && BulletFor(e.line, e.name)
    ensures Stands(a + [e.line, ""], e.section, p, Section(s.name, s.start, |a| - 1))
    ensures Inserted(a, a + [e.line, ""], |a|, 2, e.line)
  {
    var b := a + [e.line, ""];
    EndIsBetween(a, e.section, p, s);
    assert Added(a, b, s, |a|, 2, e);
    AstrayStands(a, b, e.section, p, s, |a|, 2, e);
  }

  lemma StrayIsOutside(a: seq<string>, b: seq<string>, s: Section, name: string)
    requires s.start < |a| - 1 && s.end == |a| && |a| <= |b| && forall m :: 0 <= m < |a| ==> b[m] == a[m]
    requires !HasBullet(a[s.start..s.end], name)
    ensures !HasBullet(b[s.start..|a| - 1], name)
  {
    if HasBullet(b[s.start..|a| - 1], name) {
      var m := BulletIn(b, s.start, |a| - 1, name);
      BulletAt(a, s.start, s.end, m, name);
    }
  }

  lemma StrayLacks(a: seq<string>, e: Edit, p: nat, s: Section)
    requires Stands(a, e.section, p, s) && BulletFor(e.line, e.name) && !Safe(a, s, e.name)
    ensures Lacks(a + [e.line, ""], e.section, e.name)
  {
    var b := a + [e.line, ""];
    StrayStands(a, e, p, s);
    Standing(b, e.section, p, Section(s.name, s.start, |a| - 1));
    StrayIsOutside(a, b, s, e.name);
  }

  /** The bullet of an unsafe edit lands below the section. */
  lemma StrayBullet(a: seq<string>, e: Edit, p: nat, s: Section, expand: string -> Option<string>)
    requires FenceFree(a) && Insertable(e, expand) && Stands(a, e.section, p, s) && !Safe(a, s, e.name)
    ensures var r := PatchOne(a, e, expand);
            && r == Ok(a + [e.line, ""]) && FenceFree(r.value) && Lacks(r.value, e.section, e.name)
  {
    StrayText(a, e, p, s, expand);
    StrayLacks(a, e, p, s);
    StrayStands(a, e, p, s);
    FenceFreeWithAdded(a, a + [e.line, ""], |a|, 2, e.line, e.name);
  }

  lemma LacksAfterStep(a: seq<string>, e: Edit, f: Edit, expand: string -> Option<string>)
    requires FenceFree(a) && Insertable(e, expand) && Insertable(f, expand)
    requires f.section == e.section && f.name != e.name && Lacks(a, e.section, f.name)
    ensures var r := PatchOne(a, e, expand);
            r.Ok? && FenceFree(r.value) && |r.value| >= |a| && Lacks(r.value, e.section, f.name)
  {
    var p, s := Found(a, e.section);
    var b, s' := SafeStep(a, e, p, s, expand);
    FenceFreeAfter(a, b, s, s', e);
    Standing(b, e.section, p, s');
    OthersBullets(a, b, p, s, s', e, f, expand);
  }

  lemma LacksGrows(a: seq<string>, e: Edit, expand: string -> Option<string>)
    requires FenceFree(a) && Insertable(e, expand) && Lacks(a, e.section, e.name)
    ensures var r := PatchOne(a, e, expand);
            && r.Ok? && FenceFree(r.value) && |r.value| > |a|
            && var found := SectionFrom(r.value, 0, e.section);
               found.Some? && !Unfinished(r.value, found.value)
  {
    var p, s := Found(a, e.section);
    var b, s' := SafeStep(a, e, p, s, expand);
    FenceFreeAfter(a, b, s, s', e);
    Standing(b, e.section, p, s');
  }

  lemma StepNeverShrinks(a: seq<string>, e: Edit, expand: string -> Option<string>)
    requires FenceFree(a) && Insertable(e, expand)
    requires var found := SectionFrom(a, 0, e.section); found.Some? && !Unfinished(a, found.value)
    ensures var r := PatchOne(a, e, expand);
            && r.Ok? && FenceFree(r.value) && |r.value| >= |a|
            && var found := SectionFrom(r.value, 0, e.section);
               found.Some? && !Unfinished(r.value, found.value)
  {
    var p, s := Found(a, e.section);
    var b, s' := SafeStep(a, e, p, s, expand);
    FenceFreeAfter(a, b, s, s', e);
    Standing(b, e.section, p, s');
  }

  lemma {:induction false} NeverShrinks(a: seq<string>, section: string, edits: seq<Edit>, expand: string -> Option<string>)
    requires FenceFree(a) && InSection(edits, section, expand)
    requires var found := SectionFrom(a, 0, section); found.Some? && !Unfinished(a, found.value)
    ensures var r := PatchAll(a, edits, expand); r.Ok? && |r.value| >= |a|
    decreases |edits|
  {
    if edits != [] {
      var e := edits[0];
      assert e in edits;
      StepNeverShrinks(a, e, expand);
      FirstIsDistinct(edits);
      NeverShrinks(PatchOne(a, e, expand).value, section, edits[1..], expand);
    }
  }

  lemma {:induction false} LacksAfterRun(a: seq<string>, section: string, edits: seq<Edit>, f: Edit,
                                         expand: string -> Option<string>)
    requires FenceFree(a) && InSection(edits, section, expand) && Insertable(f, expand) && f.section == section
    requires (forall e :: e in edits ==> e.name != f.name) && Lacks(a, section, f.name)
    ensures var r := PatchAll(a, edits, expand); r.Ok? && FenceFree(r.value) && Lacks(r.value, section, f.name)
    decreases |edits|
  {
    if edits != [] {
      var e := edits[0];
      assert e in edits;
      LacksAfterStep(a, e, f, expand);
      FirstIsDistinct(edits);
      LacksAfterRun(PatchOne(a, e, expand).value, section, edits[1..], f, expand);
    }
  }

  /** A run over a text that lacks one of its bullets leaves it longer. */
  lemma {:induction false} LackingGrows(a: seq<string>, section: string, edits: seq<Edit>, f: Edit,
                                        expand: string -> Option<string>)
    requires FenceFree(a) && InSection(edits, section, expand) && f in edits && Lacks(a, section, f.name)
    ensures var r := PatchAll(a, edits, expand); r.Ok? && |r.value| > |a|
    decreases |edits|
  {
    var e := edits[0];
    assert e in edits;
    FirstIsDistinct(edits);
    if f == e {
      LacksGrows(a, e, expand);
      NeverShrinks(PatchOne(a, e, expand).value, section, edits[1..], expand);
    } else {
      LacksAfterStep(a, e, f, expand);
      LackingGrows(PatchOne(a, e, expand).value, section, edits[1..], f, expand);
    }
  }

  lemma UnsafeStays(a: seq<string>, e: Edit, g: Edit, p: nat, s: Section, expand: string -> Option<string>)
    requires FenceFree(a) && Insertable(e, expand) && Insertable(g, expand) && e.name != g.name
    requires Stands(a, e.section, p, s) && Unfinished(a, s)
    requires Safe(a, s, e.name) && !Safe(a, s, g.name)
    ensures var r := PatchOne(a, e, expand);
            && r.Ok? && FenceFree(r.value)
            && SectionFrom(r.value, 0, e.section) == Some(s) && Unfinished(r.value, s) && !Safe(r.value, s, g.name)
  {
    var b := SafeReplace(a, e, p, s, expand);
    FenceFreeAfter(a, b, s, s, e);
    Standing(b, e.section, p, s);
    OthersAfterReplacing(a, b, s, e, g, expand);
  }

  /** After a patch with an unsafe edit, some edit's bullet is missing from the section. */
  lemma {:induction false} UnsafeRunLacks(a: seq<string>, section: string, edits: seq<Edit>, g: Edit,
                                          expand: string -> Option<string>) returns (f: Edit)
    requires FenceFree(a) && InSection(edits, section, expand) && g in edits
    requires var found := SectionFrom(a, 0, section);
             found.Some? && Unfinished(a, found.value) && !Safe(a, found.value, g.name)
    ensures f in edits
    ensures var r := PatchAll(a, edits, expand); r.Ok? && FenceFree(r.value) && Lacks(r.value, section, f.name)
    decreases |edits|
  {
    var e := edits[0];
    assert e in edits;
    FirstIsDistinct(edits);
    var p, s := Found(a, section);
    if Safe(a, s, e.name) {
      UnsafeStays(a, e, g, p, s, expand);
      f := UnsafeRunLacks(PatchOne(a, e, expand).value, section, edits[1..], g, expand);
    } else {
      f := e;
      StrayBullet(a, e, p, s, expand);
      LacksAfterRun(PatchOne(a, e, expand).value, section, edits[1..], e, expand);
    }
  }

  // ----- Exactly when twice is once --------------------------------------------------------

  /** The section of the text cannot take a bullet of the variable: it runs to the end of the
      text, the text's last line is `##` and not the section's only one, and no bullet of the
      variable is there to be replaced. */
  ghost predicate Astray(ls: seq<string>, section: string, name: string) {
    var found := SectionFrom(ls, 0, section);
    && found.Some?
    && found.value.end == |ls| && found.value.start < |ls| - 1 && ls[|ls| - 1] == "##"
    && !HasBullet(ls[found.value.start..found.value.end], name)
  }

  /** The text with the section, added when it is missing: what the first edit works on. */
  function Base(ls: seq<string>, section: string): seq<string>
    requires ls != []
  {
    if SectionFrom(ls, 0, section).Some? then ls else Stubbed(ls, section)
  }

  lemma StubHasSection(ls: seq<string>, section: string)
    requires FenceFree(ls)
    ensures var base := Stubbed(ls, section);
            && FenceFree(base) && SectionFrom(base, 0, section).Some? && base[|base| - 1] == ""
  {
    var base := Stubbed(ls, section);
    var n := |WithoutTrailingSpace(ls)|;
    StubExtends(ls, section);
    assert base[n + 1][3..3 + |section|] == section && base[n + 1][3 + |section|..] == "";
    assert HeaderCut(base[n + 1], section, 0, 3);
    assert NameLine(base, n + 1, section).Some?;
    forall m | 0 <= m < |base| ensures !IsFence(base[m]) {
      if m < n && base[m] != ls[m] {
        StrippedBullet(ls[m], base[m], "");
      } else if m == n + 1 {
        assert base[m][0] == '#';
      }
    }
  }

  lemma BaseStands(ls: seq<string>, e: Edit, expand: string -> Option<string>)
    requires FenceFree(ls)
    ensures var base := Base(ls, e.section);
            && FenceFree(base) && SectionFrom(base, 0, e.section).Some?
            && (base != ls ==> base[|base| - 1] == "")
            && PatchOne(ls, e, expand) == PatchOne(base, e, expand)
  {
    MaskedFenceFree(ls);
    FindAgain(ls, e.section);
    if SectionFrom(ls, 0, e.section).None? {
      StubHasSection(ls, e.section);
      MaskedFenceFree(Stubbed(ls, e.section));
      FindAgain(Stubbed(ls, e.section), e.section);
    }
  }

  /** For edits of one section, on any text without code fences: patching twice is patching once
      if and only if the section takes every bullet. */
  lemma OneSectionExactly(ls: seq<string>, section: string, edits: seq<Edit>, expand: string -> Option<string>)
    requires FenceFree(ls) && InSection(edits, section, expand)
    ensures var once := PatchAll(ls, edits, expand);
            && once.Ok?
            && (PatchAll(once.value, edits, expand) == once <==> forall e :: e in edits ==> !Astray(ls, section, e.name))
  {
    if edits != [] {
      var e := edits[0];
      assert e in edits;
      BaseStands(ls, e, expand);
      var base := Base(ls, section);
      assert PatchAll(ls, edits, expand) == PatchAll(base, edits, expand);
      var found := SectionFrom(base, 0, section).value;
      if f :| f in edits && Astray(ls, section, f.name) {
        var g := UnsafeRunLacks(base, section, edits, f, expand);
        LackingGrows(PatchAll(base, edits, expand).value, section, edits, g, expand);
      } else {
        forall f | f in edits ensures SafeFor(base, section, f.name) {
          assert !Astray(ls, section, f.name);
        }
        RunShowsAll(base, section, edits, expand);
        ShownAreFixed(PatchAll(base, edits, expand).value, section, edits, expand);
      }
    }
  }

  /** The same of the patcher's own result, for one edit. */
  lemma OneEditExactly(ls: seq<string>, e: Edit, expand: string -> Option<string>)
    requires FenceFree(ls) && Insertable(e, expand)
    ensures var once := PatchOne(ls, e, expand);
            && once.Ok? && FenceFree(once.value)
            && (PatchOne(once.value, e, expand) == once <==> !Astray(ls, e.section, e.name))
  {
    OneSectionExactly(ls, e.section, [e], expand);
    PatchAllOfCons(ls, e, [], expand);
    assert [e] + [] == [e];
    OneEditStaysFenceFree(ls, e, expand);
    PatchAllOfCons(PatchOne(ls, e, expand).value, e, [], expand);
  }

  lemma OneEditStaysFenceFree(ls: seq<string>, e: Edit, expand: string -> Option<string>)
    requires FenceFree(ls) && Insertable(e, expand)
    ensures var once := PatchOne(ls, e, expand); once.Ok? && FenceFree(once.value)
  {
    BaseStands(ls, e, expand);
    var base := Base(ls, e.section);
    var p, s := Found(base, e.section);
    if Safe(base, s, e.name) {
      StepShows(base, e, expand);
    } else {
      StrayBullet(base, e, p, s, expand);
    }
  }

  /** A bullet goes astray at most once: patching three times is patching twice. */
  lemma ThirdPatchChangesNothing(ls: seq<string>, e: Edit, expand: string -> Option<string>)
    requires FenceFree(ls) && Insertable(e, expand)
    ensures var once := PatchOne(ls, e, expand);
            && once.Ok?
            && var twice := PatchOne(once.value, e, expand);
               twice.Ok? && PatchOne(twice.value, e, expand) == twice
  {
    OneEditStaysFenceFree(ls, e, expand);
    var once := PatchOne(ls, e, expand).value;
    OneEditExactly(once, e, expand);
    BaseStands(ls, e, expand);
    var base := Base(ls, e.section);
    var p, s := Found(base, e.section);
    if Safe(base, s, e.name) {
      StepShows(base, e, expand);
      var q, t := Found(once, e.section);
      ShownStaysPut(once, e, q, t, expand);
    } else {
      StrayBullet(base, e, p, s, expand);
      assert !Astray(once, e.section, e.name);
    }
  }

  // ----- From lines to text ----------------------------------------------------------------

  lemma SectionPatchIsLines(a: seq<string>, s: Section, e: Edit, expand: string -> Option<string>)
    requires OneLiners(a) && s.start < s.end <= |a| && '\n' !in e.line && expand(e.line) == Some(e.line)
    ensures var r := PatchSection(a, Some(s), e, expand); r.Ok? && OneLiners(r.value)
  {
    var body := UpdateVarLine(a[s.start..s.end], e, expand).value;
    forall m | 0 <= m < |body| ensures '\n' !in body[m] {
      assert body[m] == e.line || body[m] == "" || body[m] in a[s.start..s.end];
    }
  }

  lemma StubIsLines(a: seq<string>, section: string)
    requires OneLiners(a) && '\n' !in section
    ensures OneLiners(Stubbed(a, section))
  {
    var b := Stubbed(a, section);
    var n := |WithoutTrailingSpace(a)|;
    StubExtends(a, section);
    forall m | 0 <= m < n ensures '\n' !in b[m] {
      assert forall i :: 0 <= i < |b[m]| ==> b[m][i] == a[m][i] && a[m][i] in a[m];
    }
    assert '\n' !in b[n + 1];
  }

  lemma PatchOneIsLines(a: seq<string>, e: Edit, expand: string -> Option<string>)
    requires OneLiners(a) && '\n' !in e.section && '\n' !in e.line && expand(e.line) == Some(e.line)
    ensures var r := PatchOne(a, e, expand); r.Ok? ==> OneLiners(r.value)
  {
    StubIsLines(a, e.section);
    var base := if FindSection(a, e.section).None? then Stubbed(a, e.section) else a;
    var s := FindSection(base, e.section);
    if s.Some? {
      SectionPatchIsLines(base, s.value, e, expand);
    }
  }

  lemma {:induction false} PatchAllIsLines(a: seq<string>, edits: seq<Edit>, expand: string -> Option<string>)
    requires OneLiners(a)
    requires forall e :: e in edits ==> '\n' !in e.section && '\n' !in e.line && expand(e.line) == Some(e.line)
    ensures var r := PatchAll(a, edits, expand); r.Ok? ==> OneLiners(r.value)
    decreases |edits|
  {
    if edits != [] {
      assert edits[0] in edits;
      PatchOneIsLines(a, edits[0], expand);
      var r := PatchOne(a, edits[0], expand);
      if r.Ok? {
        PatchAllIsLines(r.value, edits[1..], expand);
      }
    }
  }

  /** What holds of the lines holds of the text. */
  lemma TwiceAsText(content: string, edits: seq<Edit>, isSecret: string -> bool, expand: string -> Option<string>)
    requires forall e :: e in edits ==>
               '\n' !in e.section && '\n' !in e.line && expand(e.line) == Some(e.line) && !isSecret(e.name)
    requires PatchAll(Lines(content), edits, expand).Ok?
    ensures var lines := PatchAll(Lines(content), edits, expand);
            var once := Patched(content, edits, isSecret, expand);
            && once == Ok(Text(lines.value)) && Lines(once.value) == lines.value
            && (Patched(once.value, edits, isSecret, expand) == once <==> PatchAll(lines.value, edits, expand) == lines)
  {
    TextOfLines(content);
    PatchAllIsLines(Lines(content), edits, expand);
    var once := PatchAll(Lines(content), edits, expand).value;
    LinesOfText(once);
    PatchAllIsLines(once, edits, expand);
    var twice := PatchAll(once, edits, expand);
    if twice.Ok? {
      LinesOfText(twice.value);
    }
  }

  /** The patcher's promise for edits of one section, on every text without code fences. */
  lemma PatchingOneSectionTwice(content: string, section: string, edits: seq<Edit>,
                                isSecret: string -> bool, expand: string -> Option<string>)
    requires FenceFree(Lines(content)) && InSection(edits, section, expand) && '\n' !in section
    requires forall e :: e in edits ==> !isSecret(e.name)
    ensures var once := Patched(content, edits, isSecret, expand);
            && once.Ok?
            && (Patched(once.value, edits, isSecret, expand) == once
                <==> forall e :: e in edits ==> !Astray(Lines(content), section, e.name))
  {
    OneSectionExactly(Lines(content), section, edits, expand);
    TwiceAsText(content, edits, isSecret, expand);
  }

  // ----- From reports to edits -------------------------------------------------------------

  /** A report whose edit is one line: nothing else is asked of name, value and note. */
  ghost predicate SingleLine(d: EnvDiff, rules: map<string, RunbookRule>) {
    && '=' !in d.name && '\n' !in d.name && '\\' !in d.name
    && (d.live.Some? ==> '\n' !in d.live.value && '\\' !in d.live.value)
    && (var note := NoteOf(d.name, rules);
        Given(note) ==> '\n' !in Strip(note.value, IsSpace) && '\\' !in Strip(note.value, IsSpace))
  }

  lemma BulletIsBullet(name: string, value: string, rest: string)
    requires '\n' !in name && '\\' !in name && '\n' !in value && '\\' !in value
    requires '\n' !in rest && '\\' !in rest
    ensures var line := Bullet(name, value) + rest; BulletFor(line, name) && '\n' !in line && '\\' !in line
  {
    var bullet := Bullet(name, value);
    var line := bullet + rest;
    assert line[|bullet| - 1] == '`' && line[3..3 + |name|] == name && line[3 + |name|] == '=';
  }

  lemma LabelledLine(note: string)
    requires '\n' !in note && '\\' !in note
    ensures '\n' !in NOTE_LABEL + note && '\\' !in NOTE_LABEL + note
  {
    assert '\n' !in NOTE_LABEL && '\\' !in NOTE_LABEL;
  }

  lemma NewLineIsBullet(name: string, value: string, note: Option<string>)
    requires '\n' !in name && '\\' !in name && '\n' !in value && '\\' !in value
    requires Given(note) ==> '\n' !in Strip(note.value, IsSpace) && '\\' !in Strip(note.value, IsSpace)
    ensures var line := NewLine(name, value, note); BulletFor(line, name) && '\n' !in line && '\\' !in line
  {
    if Given(note) {
      var text := Strip(note.value, IsSpace);
      LabelledLine(text);
      BulletIsBullet(name, value, NOTE_LABEL + text);
      assert Bullet(name, value) + NOTE_LABEL + text == Bullet(name, value) + (NOTE_LABEL + text);
    } else {
      BulletIsBullet(name, value, "");
      assert Bullet(name, value) + "" == Bullet(name, value);
    }
  }

  lemma ReportIsInsertable(d: EnvDiff, rules: map<string, RunbookRule>, expand: string -> Option<string>)
    requires SingleLine(d, rules) && forall line :: '\\' !in line ==> expand(line) == Some(line)
    ensures Insertable(EditOf(d, rules), expand)
  {
    NewLineIsBullet(d.name, if d.live.Some? then d.live.value else "", NoteOf(d.name, rules));
  }

  /** The patcher's promise for reports of one section, on every text without code fences: patching
      twice is patching once if and only if no reported bullet goes astray. */
  lemma PatchRunbookOneSectionExactly(content: string, section: string, diffs: seq<EnvDiff>, rules: map<string, RunbookRule>,
                                      isSecret: string -> bool, expand: string -> Option<string>)
    requires forall line :: '\\' !in line ==> expand(line) == Some(line)
    requires forall i, j :: 0 <= i < j < |diffs| ==> diffs[i].name != diffs[j].name
    requires forall d :: Written(d, diffs) ==> SingleLine(d, rules) && SectionOf(d.name, rules) == section && !isSecret(d.name)
    requires FenceFree(Lines(content)) && '\n' !in section
    ensures var once := Patched(content, Edits(diffs, rules), isSecret, expand);
            && once.Ok?
            && (Patched(once.value, Edits(diffs, rules), isSecret, expand) == once
                <==> forall d :: Written(d, diffs) ==> !Astray(Lines(content), section, d.name))
  {
    EditsComeFromReports(diffs, rules);
    DistinctReportsDistinctEdits(diffs, rules);
    forall d | Written(d, diffs)
      ensures Insertable(EditOf(d, rules), expand) && EditOf(d, rules) in Edits(diffs, rules)
    {
      ReportIsInsertable(d, rules, expand);
    }
    PatchingOneSectionTwice(content, section, Edits(diffs, rules), isSecret, expand);
  }
}
