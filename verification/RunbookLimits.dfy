/** Where the patcher's promise ends: texts on which patching twice is not patching once, and the
    texts on which it cannot find the section it has just added. */
module RunbookLimits {
  import opened Wrappers
  import opened BoundedText
  import opened Validator
  import opened RunbookPatcher
  import opened RunbookIdempotence
  import opened RunbookOneSection

  /** Patching the text twice is not patching it once. */
  ghost predicate TwiceDiffers(ls: seq<string>, edits: seq<Edit>, expand: string -> Option<string>) {
    var nothingSecret := (name: string) => false;
    var once := Patched(Text(ls), edits, nothingSecret, expand);
    once.Ok? && Patched(once.value, edits, nothingSecret, expand) != once
  }

  lemma DiffersByLines(ls: seq<string>, edits: seq<Edit>, once: seq<string>, expand: string -> Option<string>)
    requires OneLiners(ls)
    requires forall e :: e in edits ==> '\n' !in e.section && '\n' !in e.line && expand(e.line) == Some(e.line)
    requires PatchAll(ls, edits, expand) == Ok(once) && PatchAll(once, edits, expand) != Ok(once)
    ensures TwiceDiffers(ls, edits, expand)
  {
    LinesOfText(ls);
    TwiceAsText(Text(ls), edits, (name: string) => false, expand);
  }

  lemma PatchTwo(ls: seq<string>, e: Edit, f: Edit, b: seq<string>, c: seq<string>, expand: string -> Option<string>)
    requires ls != [] && b != [] && c != []
    requires PatchOne(ls, e, expand) == Ok(b) && PatchOne(b, f, expand) == Ok(c)
    ensures PatchAll(ls, [e, f], expand) == Ok(c)
  {
    PatchAllOfCons(ls, e, [f], expand);
    PatchAllOfCons(b, f, [], expand);
    assert [e] + [f] == [e, f] && [f] + [] == [f];
  }

  lemma DiffersInSteps(ls: seq<string>, e: Edit, f: Edit, b: seq<string>, once: seq<string>, c: seq<string>,
                       d: seq<string>, expand: string -> Option<string>)
    requires OneLiners(ls) && b != [] && once != [] && c != [] && d != [] && d != once
    requires '\n' !in e.section && '\n' !in e.line && expand(e.line) == Some(e.line)
    requires '\n' !in f.section && '\n' !in f.line && expand(f.line) == Some(f.line)
    requires PatchOne(ls, e, expand) == Ok(b) && PatchOne(b, f, expand) == Ok(once)
    requires PatchOne(once, e, expand) == Ok(c) && PatchOne(c, f, expand) == Ok(d)
    ensures TwiceDiffers(ls, [e, f], expand)
  {
    PatchTwo(ls, e, f, b, once, expand);
    PatchTwo(once, e, f, c, d, expand);
    DiffersByLines(ls, [e, f], once, expand);
  }

  // ----- No final line end ----------------------------------------------------------------

  /** A text that ends in the middle of a line `##`: the added line end makes it a heading, and the
      bullet lands outside its section. The next patch puts a second one inside, and from then on
      nothing changes. */
  lemma MissingLineEndBreaksIt(e: Edit, expand: string -> Option<string>)
    requires WellFormed(e, expand)
    ensures var ls := ["## " + e.section, "x", "##"];
            var once := ["## " + e.section, "x", "##", e.line, ""];
            var twice := ["## " + e.section, "x", e.line, "", "##", e.line, ""];
            && PatchOne(ls, e, expand) == Ok(once)
            && PatchOne(once, e, expand) == Ok(twice)
            && PatchOne(twice, e, expand) == Ok(twice)
            && TwiceDiffers(ls, [e], expand)
  {
    var ls := ["## " + e.section, "x", "##"];
    var once := ["## " + e.section, "x", "##", e.line, ""];
    UnfinishedHeading(ls, e, expand);
    FinishedHeading(once, e, expand);
    ThirdPatchChangesNothing(ls, e, expand);
    PatchAllOfCons(ls, e, [], expand);
    PatchAllOfCons(once, e, [], expand);
    assert [e] + [] == [e];
    DiffersByLines(ls, [e], once, expand);
  }

  lemma UnfinishedHeading(ls: seq<string>, e: Edit, expand: string -> Option<string>)
    requires WellFormed(e, expand) && ls == ["## " + e.section, "x", "##"]
    ensures OneLiners(ls) && FenceFree(ls)
    ensures PatchOne(ls, e, expand) == Ok(["## " + e.section, "x", "##", e.line, ""])
  {
    HeadingAlone(ls, 0, e.section, e.section);
    assert !IsSpace(ls[1][0]) && !IsFence(ls[1]) && !IsFence(ls[2]);
    assert ls[1..3] == ["x", "##"] && "##" != "";
    assert Appended(ls[1..3], e.line) == ["x", "##", e.line, ""];
    PatchAppends(ls, e, 0, Section(0, 1, 3), expand);
    assert ls[..1] + ["x", "##", e.line, ""] + ls[3..] == ["## " + e.section, "x", "##", e.line, ""];
  }

  lemma FinishedHeadingStands(ls: seq<string>, e: Edit, expand: string -> Option<string>)
    requires WellFormed(e, expand) && ls == ["## " + e.section, "x", "##", e.line, ""]
    ensures Stands(ls, e.section, 0, Section(0, 1, 2))
    ensures OneLiners(ls) && forall m :: 0 <= m < |ls| ==> !IsFence(ls[m])
  {
    HeadingAlone(ls, 0, e.section, e.section);
    BulletAlone(ls, 3, e.section, e, expand);
    assert !IsSpace(ls[1][0]) && IsHeading(ls, 2);
  }

  lemma FinishedHeading(ls: seq<string>, e: Edit, expand: string -> Option<string>)
    requires WellFormed(e, expand) && ls == ["## " + e.section, "x", "##", e.line, ""]
    ensures PatchOne(ls, e, expand) == Ok(["## " + e.section, "x", e.line, "", "##", e.line, ""])
  {
    FinishedHeadingStands(ls, e, expand);
    assert ls[1..2] == ["x"];
    assert Appended(ls[1..2], e.line) == ["x", e.line, ""];
    PatchAppends(ls, e, 0, Section(0, 1, 2), expand);
    assert ls[..1] + ["x", e.line, ""] + ls[2..] == ["## " + e.section, "x", e.line, "", "##", e.line, ""];
  }

  // ----- A heading in an old bullet -------------------------------------------------------

  /** An old bullet with another section's heading at its end: replacing the bullet takes the
      section away, so the next patch adds it anew. */
  lemma HeadingInBulletIsLost(e: Edit, f: Edit, was: string, expand: string -> Option<string>)
    requires WellFormed(e, expand) && WellFormed(f, expand) && e.section != f.section && e.name != f.name
    requires was == f.line + " ## " + e.section
    ensures var ls, once := ["## " + f.section, was, e.line, ""], ["## " + f.section, f.line, e.line, ""];
            && SectionFrom(ls, 0, e.section).Some? && SectionFrom(once, 0, e.section).None?
            && PatchAll(ls, [e, f], expand) == Ok(once)
            && TwiceDiffers(ls, [e, f], expand)
  {
    var ls, once := ["## " + f.section, was, e.line, ""], ["## " + f.section, f.line, e.line, ""];
    HeadingInBulletOnce(ls, e, f, was, expand);
    SectionIsGone(once, e, f, expand);
    SectionComesBack(once, e, f, expand);
    DiffersByLines(ls, [e, f], once, expand);
  }

  lemma HeadingInBulletOnce(ls: seq<string>, e: Edit, f: Edit, was: string, expand: string -> Option<string>)
    requires WellFormed(e, expand) && WellFormed(f, expand) && e.section != f.section && e.name != f.name
    requires was == f.line + " ## " + e.section && ls == ["## " + f.section, was, e.line, ""]
    ensures Sound(ls) && SectionFrom(ls, 0, e.section).Some?
    ensures PatchAll(ls, [e, f], expand) == Ok(["## " + f.section, f.line, e.line, ""])
  {
    OldBulletStands(ls, e, f, was, expand);
    DoneIsFixed(ls, e, expand);
    OldBulletGoes(ls, e, f, was, expand);
    PatchTwo(ls, e, f, ls, ["## " + f.section, f.line, e.line, ""], expand);
  }

  /** The second patch adds the lost section, and the other edit does not take it away again. */
  lemma SectionComesBack(once: seq<string>, e: Edit, f: Edit, expand: string -> Option<string>)
    requires WellFormed(e, expand) && WellFormed(f, expand) && e.section != f.section && e.name != f.name
    requires once == ["## " + f.section, f.line, e.line, ""] && SectionFrom(once, 0, e.section).None?
    ensures PatchAll(once, [e, f], expand) != Ok(once)
  {
    OtherSectionIsDone(once, e, f, expand);
    PatchOneDoes(once, e, false, expand);
    PatchOneKeepsDone(once, e, f, false, expand);
    var b := PatchOne(once, e, expand).value;
    DoneIsFixed(b, f, expand);
    PatchTwo(once, e, f, b, b, expand);
    assert b != once;
  }

  lemma OtherSectionStands(once: seq<string>, e: Edit, f: Edit, expand: string -> Option<string>)
    requires WellFormed(e, expand) && WellFormed(f, expand) && e.section != f.section
    requires once == ["## " + f.section, f.line, e.line, ""]
    ensures Sound(once) && Stands(once, f.section, 0, Section(0, 1, 4)) && !Blank(once[1]) && !IsHeading(once, 1)
  {
    HeadingAlone(once, 0, f.section, f.section);
    BulletAlone(once, 1, f.section, f, expand);
    BulletAlone(once, 2, f.section, e, expand);
    BlankAlone(once, 3, f.section);
  }

  lemma OtherSectionIsDone(once: seq<string>, e: Edit, f: Edit, expand: string -> Option<string>)
    requires WellFormed(e, expand) && WellFormed(f, expand) && e.section != f.section && e.name != f.name
    requires once == ["## " + f.section, f.line, e.line, ""] && SectionFrom(once, 0, e.section).None?
    ensures Sound(once) && Done(once, f) && BulletsInert(once, e.name) && Ready(once, e, false)
  {
    OtherSectionStands(once, e, f, expand);
    Standing(once, f.section, 0, Section(0, 1, 4));
    EndedByLineEnd(once, f.section);
    EndedByLineEnd(once, e.section);
    if BulletFor(e.line, f.name) { OneNamePerBullet(e.line, e.name, f.name); }
    assert once[1] == f.line && Shows(once, f, 1, 4);
    DoneFrom(once, f, Section(0, 1, 4));
  }

  lemma SectionIsGone(ls: seq<string>, e: Edit, f: Edit, expand: string -> Option<string>)
    requires WellFormed(e, expand) && WellFormed(f, expand) && e.section != f.section
    requires ls == ["## " + f.section, f.line, e.line, ""]
    ensures SectionFrom(ls, 0, e.section).None?
  {
    HeadingAlone(ls, 0, f.section, e.section);
    BulletAlone(ls, 1, e.section, f, expand);
    BulletAlone(ls, 2, e.section, e, expand);
    BlankAlone(ls, 3, e.section);
    NotFound(ls, e.section);
  }

  lemma OldBulletHeads(was: string, e: Edit, f: Edit, expand: string -> Option<string>)
    requires WellFormed(e, expand) && was == f.line + " ## " + e.section
    ensures EndsInHeader(was, e.section)
  {
    var o := |f.line| + 1;
    assert was[o] == '#' && was[o + 1] == '#' && was[o + 2] == ' ';
    assert was[o + 2..o + 3] == " " && was[o + 3..] == e.section && was[o + 3 + |e.section|..] == "";
    assert was[o + 3..o + 3 + |e.section|] == e.section;
    assert HeaderCut(was, e.section, o, o + 3);
  }

  lemma OldBullet(was: string, e: Edit, f: Edit, expand: string -> Option<string>)
    requires WellFormed(e, expand) && WellFormed(f, expand) && was == f.line + " ## " + e.section
    ensures EndsInHeader(was, e.section) && BulletFor(was, f.name) && !Blank(was) && '\n' !in was
    ensures !IsFence(was) && !MarksAt(was, 0)
  {
    OldBulletHeads(was, e, f, expand);
    assert was[3..3 + |f.name|] == f.line[3..3 + |f.name|];
    var t :| 4 + |f.name| <= t < |f.line| && f.line[t] == '`';
    assert was[t] == '`' && !IsSpace(was[0]);
  }

  lemma OldBulletHeading(ls: seq<string>, e: Edit, f: Edit, was: string, expand: string -> Option<string>)
    requires WellFormed(e, expand) && WellFormed(f, expand) && e.section != f.section
    requires was == f.line + " ## " + e.section && ls == ["## " + f.section, was, e.line, ""]
    ensures Sound(ls) && Stands(ls, e.section, 1, Section(1, 2, 4)) && !Blank(ls[2]) && !IsHeading(ls, 2)
  {
    OldBullet(was, e, f, expand);
    HeadingAlone(ls, 0, f.section, e.section);
    BulletAlone(ls, 2, e.section, e, expand);
    BlankAlone(ls, 3, e.section);
  }

  lemma OldBulletStands(ls: seq<string>, e: Edit, f: Edit, was: string, expand: string -> Option<string>)
    requires WellFormed(e, expand) && WellFormed(f, expand) && e.section != f.section
    requires was == f.line + " ## " + e.section && ls == ["## " + f.section, was, e.line, ""]
    ensures Sound(ls) && Done(ls, e)
  {
    OldBulletHeading(ls, e, f, was, expand);
    Standing(ls, e.section, 1, Section(1, 2, 4));
    EndedByLineEnd(ls, e.section);
    assert ls[2] == e.line;
    DoneFrom(ls, e, Section(1, 2, 4));
  }

  lemma OldBulletBelow(ls: seq<string>, e: Edit, f: Edit, was: string, expand: string -> Option<string>)
    requires WellFormed(e, expand) && WellFormed(f, expand) && e.section != f.section
    requires was == f.line + " ## " + e.section && ls == ["## " + f.section, was, e.line, ""]
    ensures Stands(ls, f.section, 0, Section(0, 1, 4))
  {
    OldBullet(was, e, f, expand);
    HeadingAlone(ls, 0, f.section, f.section);
    BulletAlone(ls, 2, f.section, e, expand);
    BlankAlone(ls, 3, f.section);
  }

  lemma OldBulletReplaced(ls: seq<string>, was: string, e: Edit, f: Edit, expand: string -> Option<string>)
    requires |ls| == 4 && ls[1..] == [was, e.line, ""] && BulletFor(was, f.name) && !BulletFor(e.line, f.name)
    requires expand(f.line) == Some(f.line)
    ensures PatchSection(ls, Some(Section(0, 1, 4)), f, expand) == Ok([ls[0], f.line, e.line, ""])
  {
    var body := ls[1..4];
    assert body == ls[1..] && BulletFor(body[0], f.name);
    assert Replaced(body, f.name, f.line) == [f.line, e.line, ""];
    assert ls[..1] + [f.line, e.line, ""] + ls[4..] == [ls[0], f.line, e.line, ""];
  }

  lemma OldBulletGoes(ls: seq<string>, e: Edit, f: Edit, was: string, expand: string -> Option<string>)
    requires WellFormed(e, expand) && WellFormed(f, expand) && e.section != f.section && e.name != f.name
    requires was == f.line + " ## " + e.section && ls == ["## " + f.section, was, e.line, ""] && Sound(ls)
    ensures PatchOne(ls, f, expand) == Ok(["## " + f.section, f.line, e.line, ""])
  {
    OldBullet(was, e, f, expand);
    OldBulletBelow(ls, e, f, was, expand);
    PatchWhereItStands(ls, f, 0, Section(0, 1, 4), expand);
    if BulletFor(e.line, f.name) {
      OneNamePerBullet(e.line, e.name, f.name);
    }
    OldBulletReplaced(ls, was, e, f, expand);
  }

  // ----- Empty sections -------------------------------------------------------------------

  /** Three empty sections in a row, and edits of the second and then the first. A blank line still
      belongs to a heading, so an empty section's body starts with the next heading; the first
      bullet lands under the third heading, the second under the second one, and from there the
      first is no longer seen: the next patch writes it again. */
  lemma EmptySectionsBreakIt(e: Edit, f: Edit, third: string, expand: string -> Option<string>)
    requires WellFormed(e, expand) && WellFormed(f, expand) && Plain(third) && e.name != f.name
    requires e.section != f.section && third != e.section && third != f.section
    ensures TwiceDiffers(["## " + f.section, "", "## " + e.section, "", "## " + third, ""], [e, f], expand)
  {
    var ls := ["## " + f.section, "", "## " + e.section, "", "## " + third, ""];
    var once := ["## " + f.section, "", "## " + e.section, f.line, "", "## " + third, e.line, ""];
    ThirdSectionStands(ls, f, e, third);
    EmptySectionsOnce(ls, e, f, third, expand);
    EmptySectionsTwice(once, e, f, third, expand);
    DiffersByLines(ls, [e, f], once, expand);
  }

  lemma EmptySectionsOnce(ls: seq<string>, e: Edit, f: Edit, third: string, expand: string -> Option<string>)
    requires WellFormed(e, expand) && WellFormed(f, expand) && Plain(third)
    requires e.section != f.section && third != e.section
    requires ls == ["## " + f.section, "", "## " + e.section, "", "## " + third, ""]
    ensures PatchAll(ls, [e, f], expand)
         == Ok(["## " + f.section, "", "## " + e.section, f.line, "", "## " + third, e.line, ""])
  {
    var half := ["## " + f.section, "", "## " + e.section, "", "## " + third, e.line, ""];
    FirstBulletAstray(ls, e, f, third, expand);
    SecondBulletAstray(half, e, f, third, expand);
    PatchTwo(ls, e, f, half, ["## " + f.section, "", "## " + e.section, f.line, "", "## " + third, e.line, ""], expand);
  }

  lemma EmptySectionsTwice(once: seq<string>, e: Edit, f: Edit, third: string, expand: string -> Option<string>)
    requires WellFormed(e, expand) && WellFormed(f, expand) && Plain(third) && e.name != f.name
    requires e.section != f.section
    requires once == ["## " + f.section, "", "## " + e.section, f.line, "", "## " + third, e.line, ""]
    ensures PatchAll(once, [e, f], expand) != Ok(once)
  {
    var twice := ["## " + f.section, "", "## " + e.section, f.line, e.line, "", "## " + third, e.line, ""];
    FirstBulletAgain(once, e, f, third, expand);
    SecondBulletAgain(twice, e, f, third, expand);
    PatchTwo(once, e, f, twice, PatchOne(twice, f, expand).value, expand);
  }

  lemma PatchInsertsAt(ls: seq<string>, e: Edit, p: nat, s: Section, expand: string -> Option<string>)
    requires (forall m :: 0 <= m < |ls| ==> !IsFence(ls[m])) && Stands(ls, e.section, p, s)
    requires !HasBullet(ls[s.start..s.end], e.name) && s.start + 1 < s.end && ls[s.end - 1] == ""
    ensures PatchOne(ls, e, expand) == Ok(ls[..s.end - 1] + [e.line] + ls[s.end - 1..])
  {
    PatchAppends(ls, e, p, s, expand);
    AppendedBeforeLineEnd(ls, s.start, s.end, e.line);
  }

  lemma PatchInserts(ls: seq<string>, e: Edit, p: nat, s: Section, out: seq<string>, expand: string -> Option<string>)
    requires (forall m :: 0 <= m < |ls| ==> !IsFence(ls[m])) && Stands(ls, e.section, p, s)
    requires !HasBullet(ls[s.start..s.end], e.name) && s.start + 1 < s.end && ls[s.end - 1] == ""
    requires out == ls[..s.end - 1] + [e.line] + ls[s.end - 1..]
    ensures PatchOne(ls, e, expand) == Ok(out)
  {
    PatchInsertsAt(ls, e, p, s, expand);
  }

  lemma ThirdSectionStands(ls: seq<string>, f: Edit, e: Edit, third: string)
    requires Plain(e.section) && Plain(f.section) && Plain(third) && e.section != f.section && third != e.section
    requires ls == ["## " + f.section, "", "## " + e.section, "", "## " + third, ""]
    ensures Stands(ls, e.section, 2, Section(2, 4, 6))
    ensures OneLiners(ls) && forall m :: 0 <= m < |ls| ==> !IsFence(ls[m])
  {
    HeadingAlone(ls, 0, f.section, e.section);
    BlankAlone(ls, 1, e.section);
    HeadingAlone(ls, 2, e.section, e.section);
    BlankAlone(ls, 3, e.section);
    HeadingAlone(ls, 4, third, e.section);
    BlankAlone(ls, 5, e.section);
  }

  lemma FirstBulletAstray(ls: seq<string>, e: Edit, f: Edit, third: string, expand: string -> Option<string>)
    requires WellFormed(e, expand) && WellFormed(f, expand) && Plain(third)
    requires e.section != f.section && third != e.section
    requires ls == ["## " + f.section, "", "## " + e.section, "", "## " + third, ""]
    ensures PatchOne(ls, e, expand) == Ok(["## " + f.section, "", "## " + e.section, "", "## " + third, e.line, ""])
  {
    ThirdSectionStands(ls, f, e, third);
    assert ls[4..6] == ["## " + third, ""];
    PatchInserts(ls, e, 2, Section(2, 4, 6),
                 ["## " + f.section, "", "## " + e.section, "", "## " + third, e.line, ""], expand);
  }

  lemma SecondSectionStands(ls: seq<string>, f: Edit, e: Edit, third: string, expand: string -> Option<string>)
    requires WellFormed(e, expand) && WellFormed(f, expand) && Plain(third)
    requires ls == ["## " + f.section, "", "## " + e.section, "", "## " + third, e.line, ""]
    ensures Stands(ls, f.section, 0, Section(0, 2, 4))
    ensures OneLiners(ls) && forall m :: 0 <= m < |ls| ==> !IsFence(ls[m])
  {
    HeadingAlone(ls, 0, f.section, f.section);
    BlankAlone(ls, 1, f.section);
    HeadingAlone(ls, 2, e.section, f.section);
    BlankAlone(ls, 3, f.section);
    HeadingAlone(ls, 4, third, f.section);
    BulletAlone(ls, 5, f.section, e, expand);
    BlankAlone(ls, 6, f.section);
  }

  lemma SecondBulletAstray(ls: seq<string>, e: Edit, f: Edit, third: string, expand: string -> Option<string>)
    requires WellFormed(e, expand) && WellFormed(f, expand) && Plain(third)
    requires ls == ["## " + f.section, "", "## " + e.section, "", "## " + third, e.line, ""]
    ensures PatchOne(ls, f, expand)
         == Ok(["## " + f.section, "", "## " + e.section, f.line, "", "## " + third, e.line, ""])
  {
    SecondSectionStands(ls, f, e, third, expand);
    assert ls[2..4] == ["## " + e.section, ""];
    PatchInserts(ls, f, 0, Section(0, 2, 4),
                 ["## " + f.section, "", "## " + e.section, f.line, "", "## " + third, e.line, ""], expand);
  }

  lemma CutOffSectionStands(ls: seq<string>, f: Edit, e: Edit, third: string, expand: string -> Option<string>)
    requires WellFormed(e, expand) && WellFormed(f, expand) && Plain(third) && e.section != f.section
    requires ls == ["## " + f.section, "", "## " + e.section, f.line, "", "## " + third, e.line, ""]
    ensures Stands(ls, e.section, 2, Section(2, 3, 5))
  {
    HeadingAlone(ls, 0, f.section, e.section);
    BlankAlone(ls, 1, e.section);
    HeadingAlone(ls, 2, e.section, e.section);
    BulletAlone(ls, 3, e.section, f, expand);
    BlankAlone(ls, 4, e.section);
    HeadingAlone(ls, 5, third, e.section);
    BulletAlone(ls, 6, e.section, e, expand);
    BlankAlone(ls, 7, e.section);
  }

  lemma CutOffIsTame(ls: seq<string>, f: Edit, e: Edit, third: string, expand: string -> Option<string>)
    requires WellFormed(e, expand) && WellFormed(f, expand) && Plain(third)
    requires ls == ["## " + f.section, "", "## " + e.section, f.line, "", "## " + third, e.line, ""]
    ensures OneLiners(ls) && forall m :: 0 <= m < |ls| ==> !IsFence(ls[m])
  {
  }

  lemma FirstBulletAgain(ls: seq<string>, e: Edit, f: Edit, third: string, expand: string -> Option<string>)
    requires WellFormed(e, expand) && WellFormed(f, expand) && Plain(third) && e.name != f.name
    requires e.section != f.section
    requires ls == ["## " + f.section, "", "## " + e.section, f.line, "", "## " + third, e.line, ""]
    ensures PatchOne(ls, e, expand)
         == Ok(["## " + f.section, "", "## " + e.section, f.line, e.line, "", "## " + third, e.line, ""])
  {
    CutOffSectionStands(ls, f, e, third, expand);
    CutOffIsTame(ls, f, e, third, expand);
    assert ls[3..5] == [f.line, ""];
    if BulletFor(f.line, e.name) {
      OneNamePerBullet(f.line, f.name, e.name);
    }
    PatchInserts(ls, e, 2, Section(2, 3, 5),
                 ["## " + f.section, "", "## " + e.section, f.line, e.line, "", "## " + third, e.line, ""], expand);
  }

  /** The longer text stays the longer one: the other edit finds its bullet where it put it. */
  lemma SecondBulletAgain(twice: seq<string>, e: Edit, f: Edit, third: string, expand: string -> Option<string>)
    requires WellFormed(e, expand) && WellFormed(f, expand) && Plain(third)
    requires twice == ["## " + f.section, "", "## " + e.section, f.line, e.line, "", "## " + third, e.line, ""]
    ensures PatchOne(twice, f, expand).Ok? && |PatchOne(twice, f, expand).value| >= |twice|
  {
    HeadingAlone(twice, 0, f.section, f.section);
    assert NameLine(twice, 0, f.section).Some?;
    assert FindFrom(twice, 0, f.section) == Some(0);
    assert FenceFree(twice);
    StepNeverShrinks(twice, f, expand);
  }

  // ----- A blank operator note ------------------------------------------------------------

  /** A note of blanks leaves a bullet that ends in a space. */
  lemma BlankNoteEndsInSpace(name: string, value: string, note: string)
    requires note != "" && Strip(note, IsSpace) == ""
    ensures var line := NewLine(name, value, Some(note));
            line == Bullet(name, value) + NOTE_LABEL && IsSpace(line[|line| - 1])
  {
    assert NOTE_LABEL[|NOTE_LABEL| - 1] == ' ' && IsSpace(' ');
    assert Bullet(name, value) + NOTE_LABEL + "" == Bullet(name, value) + NOTE_LABEL;
  }

  lemma StrippedBulletStays(line: string, name: string)
    requires BulletFor(line, name)
    ensures var t := StripRight(line, IsSpace); Strips(line, t) && BulletFor(t, name)
  {
    var t := StripRight(line, IsSpace);
    StripRightIs(line);
    var k :| 4 + |name| <= k < |line| && line[k] == '`';
    assert !IsSpace(line[k]) && k < |t| && t[k] == '`';
    assert t[3..3 + |name|] == line[3..3 + |name|];
  }

  /** A bullet that ends in a space, in the last section of a text to which another section is
      still to be added: the stub strips the space, and the next patch puts it back. */
  lemma BlankNoteBreaksIt(e: Edit, f: Edit, expand: string -> Option<string>)
    requires Insertable(e, expand) && Plain(e.section) && IsSpace(e.line[|e.line| - 1]) && Inert(e.line)
    requires WellFormed(f, expand) && e.section != f.section && e.name != f.name
    ensures TwiceDiffers(["## " + e.section, e.line, ""], [e, f], expand)
  {
    var h, g := "## " + e.section, "## " + f.section;
    var ls := [h, e.line, ""];
    var t := StrippedBulletLine(e, expand);
    var once, spaced := [h, t, "", g, "", "", f.line, ""], [h, e.line, "", g, "", "", f.line, ""];
    SpacedStays(ls, e, f, expand);
    SpaceIsStripped(ls, e, f, t, once, expand);
    SpaceComesBack(once, e, f, t, spaced, expand);
    OtherStaysFixed(spaced, e, f, expand);
    DiffersInSteps(ls, e, f, ls, once, spaced, spaced, expand);
  }

  lemma StrippedBulletLine(e: Edit, expand: string -> Option<string>) returns (t: string)
    requires Insertable(e, expand) && IsSpace(e.line[|e.line| - 1]) && Inert(e.line)
    ensures t == StripRight(e.line, IsSpace) && t != e.line && BulletFor(t, e.name) && Inert(t)
  {
    t := StripRight(e.line, IsSpace);
    StrippedBulletStays(e.line, e.name);
    StrippedBullet(e.line, t, e.name);
    assert t != "" && !IsSpace(t[|t| - 1]);
  }

  lemma InertAlone(ls: seq<string>, p: nat, section: string)
    requires p < |ls| && Inert(ls[p]) && Plain(section)
    ensures NameLine(ls, p, section).None? && !IsHeading(ls, p) && !Blank(ls[p]) && !IsFence(ls[p])
  {
    InertIsNoHeader(ls[p], section);
  }

  lemma SpacedTextStands(ls: seq<string>, e: Edit, f: Edit, expand: string -> Option<string>)
    requires Plain(e.section) && Inert(e.line) && Plain(f.section) && e.section != f.section
    requires '\n' !in e.line && ls == ["## " + e.section, e.line, ""]
    ensures Sound(ls) && Stands(ls, e.section, 0, Section(0, 1, 3)) && SectionFrom(ls, 0, f.section).None?
  {
    HeadingAlone(ls, 0, e.section, e.section);
    HeadingAlone(ls, 0, e.section, f.section);
    InertAlone(ls, 1, e.section);
    InertAlone(ls, 1, f.section);
    BlankAlone(ls, 2, e.section);
    BlankAlone(ls, 2, f.section);
    NotFound(ls, f.section);
  }

  lemma SpacedStays(ls: seq<string>, e: Edit, f: Edit, expand: string -> Option<string>)
    requires Insertable(e, expand) && Plain(e.section) && Inert(e.line) && Plain(f.section)
    requires e.section != f.section && ls == ["## " + e.section, e.line, ""]
    ensures Sound(ls) && PatchOne(ls, e, expand) == Ok(ls)
  {
    SpacedTextStands(ls, e, f, expand);
    assert ls[1] == e.line;
    ShownStaysPut(ls, e, 0, Section(0, 1, 3), expand);
  }

  lemma SpaceIsStripped(ls: seq<string>, e: Edit, f: Edit, t: string, once: seq<string>, expand: string -> Option<string>)
    requires Plain(e.section) && Inert(e.line) && '\n' !in e.line && WellFormed(f, expand)
    requires e.section != f.section && ls == ["## " + e.section, e.line, ""]
    requires t == StripRight(e.line, IsSpace) && once == [ls[0], t, "", "## " + f.section, "", "", f.line, ""]
    ensures PatchOne(ls, f, expand) == Ok(once)
  {
    SpacedTextStands(ls, e, f, expand);
    InertIsNoHeader(e.line, f.section);
    StubInSpacedText(ls, f, once, expand);
  }

  lemma TrimmedText(ls: seq<string>)
    requires |ls| == 3 && !Blank(ls[1]) && ls[2] == ""
    ensures WithoutTrailingSpace(ls) == [ls[0], StripRight(ls[1], IsSpace)]
  {
    var t := WithoutTrailingSpace(ls);
    StripRightIs(ls[|t| - 1]);
    assert Blank(ls[2]) && |t| >= 2;
    assert WithoutTrailingSpace(ls) == WithoutTrailingSpace(ls[..2]);
  }

  lemma Glued(t: seq<string>, h: string, line: string)
    ensures t + ["", h, "", ""] + [line, ""] == t + ["", h, "", "", line, ""]
  {
  }

  lemma GluedTwo(t: seq<string>, once: seq<string>, a: string, b: string, h: string, line: string)
    requires t == [a, b] && once == [a, b, "", h, "", "", line, ""]
    ensures t + ["", h, "", "", line, ""] == once
  {
  }

  lemma StubInSpacedText(ls: seq<string>, f: Edit, once: seq<string>, expand: string -> Option<string>)
    requires Sound(ls) && WellFormed(f, expand) && SectionFrom(ls, 0, f.section).None?
    requires |ls| == 3 && !Blank(ls[1]) && ls[2] == ""
    requires once == [ls[0], StripRight(ls[1], IsSpace), "", "## " + f.section, "", "", f.line, ""]
    ensures PatchOne(ls, f, expand) == Ok(once)
  {
    EndedByLineEnd(ls, f.section);
    TrimmedText(ls);
    MissingIsAppended(ls, f, expand);
    GluedTwo(WithoutTrailingSpace(ls), once, ls[0], StripRight(ls[1], IsSpace), "## " + f.section, f.line);
  }

  lemma StubStands(ls: seq<string>, e: Edit)
    requires Sound(ls) && Ended(ls, e.section) && Plain(e.section) && SectionFrom(ls, 0, e.section).None?
    ensures var n := |WithoutTrailingSpace(ls)|;
            Stands(Stubbed(ls, e.section), e.section, n + 1, Section(n + 1, n + 3, n + 4))
  {
    StubExtends(ls, e.section);
    ExtendedHasNew(ls, Stubbed(ls, e.section), |WithoutTrailingSpace(ls)|, e.section);
  }

  /** What patching a missing section leaves. */
  lemma MissingIsAppended(ls: seq<string>, e: Edit, expand: string -> Option<string>)
    requires Sound(ls) && Ended(ls, e.section) && WellFormed(e, expand) && SectionFrom(ls, 0, e.section).None?
    ensures PatchOne(ls, e, expand) == Ok(WithoutTrailingSpace(ls) + ["", "## " + e.section, "", "", e.line, ""])
  {
    var t := WithoutTrailingSpace(ls);
    StubStands(ls, e);
    BaseStands(ls, e, expand);
    StubTakesBullet(Stubbed(ls, e.section), |t|, e, expand);
    Glued(t, "## " + e.section, e.line);
  }

  lemma StubGrows(base: seq<string>, n: nat, line: string)
    requires |base| == n + 4 && base[n + 3] == ""
    ensures base[..n + 3] + Appended(base[n + 3..n + 4], line) + base[n + 4..] == base + [line, ""]
  {
    AppendedAfterText(base, n + 3, n + 4, line);
    assert base[..n + 4] == base && base[n + 4..] == [];
  }

  lemma StubTakesBullet(base: seq<string>, n: nat, e: Edit, expand: string -> Option<string>)
    requires FenceFree(base) && |base| == n + 4 && base[n + 3] == ""
    requires Stands(base, e.section, n + 1, Section(n + 1, n + 3, n + 4))
    ensures PatchOne(base, e, expand) == Ok(base + [e.line, ""])
  {
    assert base[n + 3..n + 4] == [""];
    StubGrows(base, n, e.line);
    PatchAppends(base, e, n + 1, Section(n + 1, n + 3, n + 4), expand);
  }

  lemma StrippedTextStands(once: seq<string>, e: Edit, f: Edit, t: string, expand: string -> Option<string>)
    requires Plain(e.section) && Inert(t) && WellFormed(f, expand) && e.section != f.section
    requires once == ["## " + e.section, t, "", "## " + f.section, "", "", f.line, ""]
    ensures FenceFree(once)
    ensures Stands(once, e.section, 0, Section(0, 1, 3)) && Stands(once, f.section, 3, Section(3, 6, 8))
  {
    UpperStands(once, e, f, t);
    HeadingAlone(once, 0, e.section, f.section);
    InertAlone(once, 1, f.section);
    BlankAlone(once, 2, f.section);
    HeadingAlone(once, 3, f.section, f.section);
    BlankAlone(once, 5, f.section);
    BulletAlone(once, 6, f.section, f, expand);
    BlankAlone(once, 7, f.section);
  }

  lemma UpperStands(once: seq<string>, e: Edit, f: Edit, t: string)
    requires Plain(e.section) && Inert(t) && Plain(f.section) && |once| == 8
    requires once[..4] == ["## " + e.section, t, "", "## " + f.section]
    ensures Stands(once, e.section, 0, Section(0, 1, 3))
  {
    assert forall m :: 0 <= m < 4 ==> once[m] == once[..4][m];
    HeadingAlone(once, 0, e.section, e.section);
    InertAlone(once, 1, e.section);
    BlankAlone(once, 2, e.section);
    HeadingAlone(once, 3, f.section, e.section);
  }

  lemma SpaceComesBack(once: seq<string>, e: Edit, f: Edit, t: string, spaced: seq<string>,
                       expand: string -> Option<string>)
    requires Insertable(e, expand) && Plain(e.section) && WellFormed(f, expand) && e.section != f.section
    requires BulletFor(t, e.name) && Inert(t)
    requires once == ["## " + e.section, t, "", "## " + f.section, "", "", f.line, ""]
    requires spaced == ["## " + e.section, e.line, "", "## " + f.section, "", "", f.line, ""]
    ensures PatchOne(once, e, expand) == Ok(spaced)
  {
    StrippedTextStands(once, e, f, t, expand);
    SpacedReplace(once, e, spaced, expand);
  }

  lemma SpacedReplace(once: seq<string>, e: Edit, spaced: seq<string>, expand: string -> Option<string>)
    requires FenceFree(once) && Insertable(e, expand) && |once| == |spaced| == 8
    requires BulletFor(once[1], e.name) && once[2] == "" && Stands(once, e.section, 0, Section(0, 1, 3))
    requires spaced[1] == e.line && forall m :: 0 <= m < 8 && m != 1 ==> spaced[m] == once[m]
    ensures PatchOne(once, e, expand) == Ok(spaced)
  {
    BulletAt(once, 1, 3, 1, e.name);
    var b := SafeReplace(once, e, 0, Section(0, 1, 3), expand);
    assert b == spaced;
  }

  lemma OtherStaysFixed(spaced: seq<string>, e: Edit, f: Edit, expand: string -> Option<string>)
    requires Plain(e.section) && Inert(e.line) && WellFormed(f, expand) && e.section != f.section
    requires spaced == ["## " + e.section, e.line, "", "## " + f.section, "", "", f.line, ""]
    ensures PatchOne(spaced, f, expand) == Ok(spaced)
  {
    StrippedTextStands(spaced, e, f, e.line, expand);
    assert spaced[6] == f.line;
    ShownStaysPut(spaced, f, 3, Section(3, 6, 8), expand);
  }
}
