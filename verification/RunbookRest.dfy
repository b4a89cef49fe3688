/** What a patch leaves alone: every line but the reported variables' own, on any text, with code
    fences or without. */
module RunbookRest {
  import opened Wrappers
  import opened BoundedText
  import opened Validator
  import opened RunbookPatcher
  import opened RunbookIdempotence
  import opened RunbookOneSection

  /** The line lists one of the variables. */
  ghost predicate ListsOne(line: string, names: set<string>) {
    exists name :: name in names && BulletFor(line, name)
  }

  /** What a line says besides those variables, up to trailing whitespace. */
  ghost function Rest(line: string, names: set<string>): seq<string> {
    if Blank(line) || ListsOne(line, names) then [] else [StripRight(line, IsSpace)]
  }

  /** What a text says besides those variables, in order. */
  ghost function RestOf(ls: seq<string>, names: set<string>): seq<string> {
    if ls == [] then [] else Rest(ls[0], names) + RestOf(ls[1..], names)
  }

  lemma {:induction false} RestOfConcat(a: seq<string>, b: seq<string>, names: set<string>)
    ensures RestOf(a + b, names) == RestOf(a, names) + RestOf(b, names)
    decreases |a|
  {
    if a == [] {
      assert a + b == b;
    } else {
      assert (a + b)[0] == a[0] && (a + b)[1..] == a[1..] + b;
      RestOfConcat(a[1..], b, names);
    }
  }

  lemma RestOfOne(line: string, names: set<string>)
    ensures RestOf([line], names) == Rest(line, names)
  {
    assert [line][1..] == [];
  }

  lemma {:induction false} SameRest(a: seq<string>, b: seq<string>, names: set<string>)
    requires |a| == |b| && forall m :: 0 <= m < |a| ==> Rest(a[m], names) == Rest(b[m], names)
    ensures RestOf(a, names) == RestOf(b, names)
    decreases |a|
  {
    if a != [] {
      SameRest(a[1..], b[1..], names);
    }
  }

  // ----- Inside a section -----------------------------------------------------------------

  lemma ReplacedKeepsRest(body: seq<string>, name: string, line: string, names: set<string>)
    requires name in names && BulletFor(line, name)
    ensures RestOf(Replaced(body, name, line), names) == RestOf(body, names)
  {
    SameRest(Replaced(body, name, line), body, names);
  }

  lemma AddedLine(line: string, name: string, names: set<string>)
    requires name in names && BulletFor(line, name)
    ensures RestOf([line, ""], names) == []
  {
    RestOfOne("", names);
    RestOfConcat([line], [""], names);
    RestOfOne(line, names);
    assert [line] + [""] == [line, ""];
  }

  lemma AppendedKeepsRest(body: seq<string>, name: string, line: string, names: set<string>)
    requires body != [] && name in names && BulletFor(line, name)
    ensures RestOf(Appended(body, line), names) == RestOf(body, names)
  {
    AddedLine(line, name, names);
    if |body| >= 2 && body[|body| - 1] == "" {
      var front := body[..|body| - 1];
      assert body == front + [""];
      RestOfConcat(front, [""], names);
      RestOfOne("", names);
      RestOfConcat(front, [line, ""], names);
    } else {
      RestOfConcat(body, [line, ""], names);
    }
  }

  lemma BodyKeepsRest(body: seq<string>, e: Edit, names: set<string>, expand: string -> Option<string>)
    requires body != [] && e.name in names && BulletFor(e.line, e.name) && expand(e.line) == Some(e.line)
    ensures var r := UpdateVarLine(body, e, expand); r.Ok? && RestOf(r.value, names) == RestOf(body, names)
  {
    if HasBullet(body, e.name) {
      ReplacedKeepsRest(body, e.name, e.line, names);
    } else {
      AppendedKeepsRest(body, e.name, e.line, names);
    }
  }

  lemma SplicedRest(a: seq<string>, b: seq<string>, b': seq<string>, c: seq<string>, names: set<string>)
    requires RestOf(b, names) == RestOf(b', names)
    ensures RestOf(a + b + c, names) == RestOf(a + b' + c, names)
  {
    RestOfParts(a, b, c, names);
    RestOfParts(a, b', c, names);
  }

  lemma SectionKeepsRest(ls: seq<string>, s: Section, e: Edit, names: set<string>, expand: string -> Option<string>)
    requires s.start < s.end <= |ls|
    requires e.name in names && BulletFor(e.line, e.name) && expand(e.line) == Some(e.line)
    ensures var r := PatchSection(ls, Some(s), e, expand); r.Ok? && RestOf(r.value, names) == RestOf(ls, names)
  {
    var body := ls[s.start..s.end];
    BodyKeepsRest(body, e, names, expand);
    SplicedRest(ls[..s.start], body, UpdateVarLine(body, e, expand).value, ls[s.end..], names);
    ThreeParts(ls, s.start, s.end);
  }

  lemma ThreeParts(ls: seq<string>, i: nat, j: nat)
    requires i <= j <= |ls|
    ensures ls[..i] + ls[i..j] + ls[j..] == ls
  {
  }

  lemma RestOfParts(a: seq<string>, b: seq<string>, c: seq<string>, names: set<string>)
    ensures RestOf(a + b + c, names) == RestOf(a, names) + RestOf(b, names) + RestOf(c, names)
  {
    RestOfConcat(a + b, c, names);
    RestOfConcat(a, b, names);
  }

  // ----- Adding a section -----------------------------------------------------------------

  lemma {:induction false} StripTwice(s: string)
    ensures StripRight(StripRight(s, IsSpace), IsSpace) == StripRight(s, IsSpace)
  {
    if s != "" && IsSpace(s[|s| - 1]) {
      StripTwice(s[..|s| - 1]);
    }
  }

  lemma StripKeepsBullet(line: string, name: string)
    requires BulletFor(line, name)
    ensures BulletFor(StripRight(line, IsSpace), name)
  {
    StripRightIs(line);
    var t := StripRight(line, IsSpace);
    var k :| 4 + |name| <= k < |line| && line[k] == '`';
    assert !IsSpace(line[k]) && k < |t|;
    assert t[k] == '`' && t[3..3 + |name|] == line[3..3 + |name|];
  }

  lemma StrippedRest(line: string, names: set<string>)
    ensures Rest(StripRight(line, IsSpace), names) == Rest(line, names)
  {
    var t := StripRight(line, IsSpace);
    StripRightIs(line);
    StripTwice(line);
    forall name ensures BulletFor(t, name) <==> BulletFor(line, name) {
      if BulletFor(line, name) {
        StripKeepsBullet(line, name);
      }
      StrippedBullet(line, t, name);
    }
    assert ListsOne(t, names) <==> ListsOne(line, names);
  }

  lemma {:induction false} TrimmingKeepsRest(ls: seq<string>, names: set<string>)
    requires ls != []
    ensures RestOf(WithoutTrailingSpace(ls), names) == RestOf(ls, names)
    decreases |ls|
  {
    var last := |ls| - 1;
    var front := ls[..last];
    assert ls == front + [ls[last]];
    RestOfConcat(front, [ls[last]], names);
    RestOfOne(ls[last], names);
    if last > 0 && Blank(ls[last]) {
      TrimmingKeepsRest(front, names);
    } else {
      var stripped := StripRight(ls[last], IsSpace);
      StrippedRest(ls[last], names);
      RestOfConcat(front, [stripped], names);
      RestOfOne(stripped, names);
    }
  }

  /** The heading of an added section. */
  function Heading(section: string): string {
    StripRight("## " + section, IsSpace)
  }

  lemma HeadingRest(section: string, names: set<string>)
    ensures Rest("## " + section, names) == [Heading(section)]
  {
    var line := "## " + section;
    assert line[0] == '#' && !IsSpace(line[0]);
  }

  lemma StubRest(ls: seq<string>, section: string, names: set<string>)
    requires ls != []
    ensures RestOf(Stubbed(ls, section), names) == RestOf(ls, names) + [Heading(section)]
  {
    var trimmed := WithoutTrailingSpace(ls);
    TrimmingKeepsRest(ls, names);
    RestOfConcat(trimmed, ["", "## " + section, "", ""], names);
    StubLinesRest(section, names);
  }

  lemma StubLinesRest(section: string, names: set<string>)
    ensures RestOf(["", "## " + section, "", ""], names) == [Heading(section)]
  {
    var heading := "## " + section;
    RestOfOne("", names);
    RestOfOne(heading, names);
    HeadingRest(section, names);
    RestOfParts([""], [heading], [""], names);
    RestOfConcat([""] + [heading] + [""], [""], names);
    assert ["", heading, "", ""] == [""] + [heading] + [""] + [""];
  }

  // ----- A whole patch --------------------------------------------------------------------

  /** An edit, if it can be made, changes nothing else; a missing section's heading comes last. */
  lemma PatchOneKeepsRest(ls: seq<string>, e: Edit, names: set<string>, expand: string -> Option<string>)
    requires ls != [] && e.name in names && BulletFor(e.line, e.name) && expand(e.line) == Some(e.line)
    ensures var r := PatchOne(ls, e, expand);
            var added := if FindSection(ls, e.section).None? then [Heading(e.section)] else [];
            r.Ok? ==> RestOf(r.value, names) == RestOf(ls, names) + added
  {
    var base := if FindSection(ls, e.section).None? then Stubbed(ls, e.section) else ls;
    StubRest(ls, e.section, names);
    var s := FindSection(base, e.section);
    if s.Some? {
      SectionKeepsRest(base, s.value, e, names, expand);
    }
  }

  /** `after` says what `before` says, and then headings of the edits' sections. */
  ghost predicate OnlyHeadingsAdded(before: seq<string>, after: seq<string>, edits: seq<Edit>) {
    && before <= after
    && forall h :: h in after[|before|..] ==> exists e :: e in edits && h == Heading(e.section)
  }

  lemma AddedLater(a: seq<string>, b: seq<string>, c: seq<string>, edits: seq<Edit>)
    requires edits != [] && a <= b && OnlyHeadingsAdded(b, c, edits[1..])
    requires forall h :: h in b[|a|..] ==> h == Heading(edits[0].section)
    ensures OnlyHeadingsAdded(a, c, edits)
  {
    assert c[|a|..] == b[|a|..] + c[|b|..];
    forall h | h in c[|a|..] ensures exists e :: e in edits && h == Heading(e.section) {
      if h in b[|a|..] {
        assert edits[0] in edits;
      } else {
        var e :| e in edits[1..] && h == Heading(e.section);
        assert e in edits;
      }
    }
  }

  lemma {:induction false} PatchAllKeepsRest(ls: seq<string>, edits: seq<Edit>, names: set<string>,
                                             expand: string -> Option<string>)
    requires ls != []
    requires forall e :: e in edits ==> e.name in names && BulletFor(e.line, e.name) && expand(e.line) == Some(e.line)
    ensures var r := PatchAll(ls, edits, expand);
            r.Ok? ==> OnlyHeadingsAdded(RestOf(ls, names), RestOf(r.value, names), edits)
    decreases |edits|
  {
    if edits != [] {
      assert edits[0] in edits;
      PatchOneKeepsRest(ls, edits[0], names, expand);
      var next := PatchOne(ls, edits[0], expand);
      if next.Ok? {
        PatchAllKeepsRest(next.value, edits[1..], names, expand);
        var last := PatchAll(next.value, edits[1..], expand);
        if last.Ok? {
          AddedLater(RestOf(ls, names), RestOf(next.value, names), RestOf(last.value, names), edits);
        }
      }
    }
  }

  /** The variables a patch writes. */
  ghost function WrittenNames(diffs: seq<EnvDiff>): set<string> {
    set d | d in diffs && d.contractStatus != Match :: d.name
  }

  /** The heading of a section that some report belongs in. */
  ghost predicate HeadsAReport(h: string, diffs: seq<EnvDiff>, rules: map<string, RunbookRule>) {
    exists d :: Written(d, diffs) && h == Heading(SectionOf(d.name, rules))
  }

  /** A patch that succeeds, on any text, keeps everything that is not a reported variable's line,
      in order and up to trailing whitespace, and adds nothing but the headings of reported
      sections, at the end. */
  lemma PatchKeepsTheRest(content: string, diffs: seq<EnvDiff>, rules: map<string, RunbookRule>,
                          isSecret: string -> bool, expand: string -> Option<string>)
    requires forall line :: '\\' !in line ==> expand(line) == Some(line)
    requires forall d :: Written(d, diffs) ==> SingleLine(d, rules) && '\n' !in SectionOf(d.name, rules)
    ensures var r := Patched(content, Edits(diffs, rules), isSecret, expand);
            var names := WrittenNames(diffs);
            r.Ok? ==>
              var before, after := RestOf(Lines(content), names), RestOf(Lines(r.value), names);
              && before <= after
              && (forall h :: h in after[|before|..] ==> HeadsAReport(h, diffs, rules))
  {
    var edits, names := Edits(diffs, rules), WrittenNames(diffs);
    EditsComeFromReports(diffs, rules);
    forall e | e in edits
      ensures Insertable(e, expand) && e.name in names && '\n' !in e.section
    {
      var d :| Written(d, diffs) && e == EditOf(d, rules);
      ReportIsInsertable(d, rules, expand);
    }
    TextOfLines(content);
    var r := PatchAll(Lines(content), edits, expand);
    if r.Ok? {
      PatchAllIsLines(Lines(content), edits, expand);
      LinesOfText(r.value);
      PatchAllKeepsRest(Lines(content), edits, names, expand);
      HeadingsOfReports(RestOf(Lines(content), names), RestOf(r.value, names), diffs, rules);
    }
  }

  lemma HeadingsOfReports(before: seq<string>, after: seq<string>, diffs: seq<EnvDiff>, rules: map<string, RunbookRule>)
    requires OnlyHeadingsAdded(before, after, Edits(diffs, rules))
    ensures forall h :: h in after[|before|..] ==> HeadsAReport(h, diffs, rules)
  {
    EditsComeFromReports(diffs, rules);
    forall h | h in after[|before|..] ensures HeadsAReport(h, diffs, rules) {
      var e :| e in Edits(diffs, rules) && h == Heading(e.section);
      var d :| Written(d, diffs) && e == EditOf(d, rules);
    }
  }
}
