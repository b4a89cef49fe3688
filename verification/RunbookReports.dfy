/** What a patched runbook says: every report in its section, on a line spelled out here, and every
    other line as it was. */
module RunbookReports {
  import opened Wrappers
  import opened BoundedText
  import opened Validator
  import opened RunbookPatcher
  import opened RunbookIdempotence
  import opened RunbookOneSection

  // ----- The reported lines ---------------------------------------------------------------

  /** A list item that opens with the variable's name and some value as code. */
  ghost predicate ListsVariable(line: string, name: string) {
    exists value, rest :: line == "- `" + name + "=" + value + "`" + rest
  }

  lemma BulletExactly(line: string, name: string)
    ensures BulletFor(line, name) <==> ListsVariable(line, name)
  {
    if BulletFor(line, name) {
      var n := 4 + |name|;
      var t :| n <= t < |line| && line[t] == '`';
      BulletSplit(line, name, t);
    }
    if ListsVariable(line, name) {
      var value, rest :| line == "- `" + name + "=" + value + "`" + rest;
      BulletJoined(line, name, value, rest);
    }
  }

  lemma BulletSplit(line: string, name: string, t: nat)
    requires BulletFor(line, name) && 4 + |name| <= t < |line| && line[t] == '`'
    ensures line == "- `" + name + "=" + line[4 + |name|..t] + "`" + line[t + 1..]
  {
    var n := 3 + |name|;
    assert line[..3] == "- `" && line[3..n] == name && line[n..n + 1] == "=" && line[t..t + 1] == "`";
    assert line == line[..3] + line[3..n] + line[n..n + 1] + line[n + 1..t] + line[t..t + 1] + line[t + 1..];
  }

  lemma BulletJoined(line: string, name: string, value: string, rest: string)
    requires line == "- `" + name + "=" + value + "`" + rest
    ensures BulletFor(line, name)
  {
    var n := 3 + |name|;
    assert line[3..n] == name && line[n] == '=' && line[n + 1 + |value|] == '`';
  }

  /** In its section, and only there is looked, the variable stands on the given line and on no
      other. */
  ghost predicate Holds(ls: seq<string>, section: string, name: string, line: string) {
    var found := SectionFrom(ls, 0, section);
    && found.Some?
    && (exists m :: found.value.start <= m < found.value.end && ls[m] == line)
    && (forall m :: found.value.start <= m < found.value.end && ListsVariable(ls[m], name) ==> ls[m] == line)
  }

  /** The line that says what was observed of the variable, and the operator's note if there is one. */
  ghost predicate Tells(line: string, name: string, value: string, note: Option<string>) {
    var told := if note.Some? && note.value != "" then " — **Operator note:** " + Strip(note.value, IsSpace) else "";
    line == "- `" + name + "=" + value + "`" + told
  }

  /** The section the contract names for the variable, or the default one, holds that line. */
  ghost predicate ShowsReport(ls: seq<string>, d: EnvDiff, rules: map<string, RunbookRule>) {
    var section := if d.name in rules then rules[d.name].section else "Runtime Configuration";
    var note := if d.name in rules then rules[d.name].operatorNote else None;
    var value := if d.live.Some? then d.live.value else "";
    exists line :: Tells(line, d.name, value, note) && Holds(ls, section, d.name, line)
  }

  lemma EditHolds(ls: seq<string>, e: Edit)
    ensures ShownIn(ls, e.section, e) <==> Holds(ls, e.section, e.name, e.line)
  {
    forall m | 0 <= m < |ls| ensures BulletFor(ls[m], e.name) <==> ListsVariable(ls[m], e.name) {
      BulletExactly(ls[m], e.name);
    }
  }

  lemma NewLineTells(name: string, value: string, note: Option<string>)
    ensures Tells(NewLine(name, value, note), name, value, note)
  {
    var bullet := "- `" + name + "=" + value + "`";
    assert bullet + "" == bullet;
  }

  lemma EditReports(ls: seq<string>, d: EnvDiff, rules: map<string, RunbookRule>)
    ensures ShownIn(ls, EditOf(d, rules).section, EditOf(d, rules)) <==> ShowsReport(ls, d, rules)
  {
    EditHolds(ls, EditOf(d, rules));
    NewLineTells(d.name, if d.live.Some? then d.live.value else "", NoteOf(d.name, rules));
  }

  /** After a patch of any number of sections, each report stands where and as it should. */
  lemma PatchShowsReports(content: string, diffs: seq<EnvDiff>, rules: map<string, RunbookRule>,
                          isSecret: string -> bool, expand: string -> Option<string>)
    requires forall line :: '\\' !in line ==> expand(line) == Some(line)
    requires forall i, j :: 0 <= i < j < |diffs| ==> diffs[i].name != diffs[j].name
    requires forall d :: Written(d, diffs) ==> Writable(d, rules)
    requires Fit(Lines(content), diffs, rules)
    ensures var once := Patched(content, Edits(diffs, rules), isSecret, expand);
            once.Ok? ==> forall d :: Written(d, diffs) ==> ShowsReport(Lines(once.value), d, rules)
  {
    PatchRunbookIsIdempotent(content, diffs, rules, isSecret, expand);
    var once := Patched(content, Edits(diffs, rules), isSecret, expand);
    if once.Ok? {
      forall d | Written(d, diffs) ensures ShowsReport(Lines(once.value), d, rules) {
        EditReports(Lines(once.value), d, rules);
      }
    }
  }

  lemma SectionShowsEdits(ls: seq<string>, section: string, edits: seq<Edit>, expand: string -> Option<string>)
    requires FenceFree(ls) && InSection(edits, section, expand)
    ensures var once := PatchAll(ls, edits, expand);
            && once.Ok?
            && ((forall e :: e in edits ==> ShownIn(once.value, section, e))
                <==> forall e :: e in edits ==> !Astray(ls, section, e.name))
  {
    OneSectionExactly(ls, section, edits, expand);
    if edits != [] {
      assert edits[0] in edits;
      BaseStands(ls, edits[0], expand);
      var base := Base(ls, section);
      assert PatchAll(ls, edits, expand) == PatchAll(base, edits, expand);
      if f :| f in edits && Astray(ls, section, f.name) {
        var g := UnsafeRunLacks(base, section, edits, f, expand);
        LacksIsNotShown(PatchAll(base, edits, expand).value, section, g);
      } else {
        forall f | f in edits ensures SafeFor(base, section, f.name) {
          assert !Astray(ls, section, f.name);
        }
        RunShowsAll(base, section, edits, expand);
      }
    }
  }

  lemma LacksIsNotShown(ls: seq<string>, section: string, e: Edit)
    requires Lacks(ls, section, e.name) && BulletFor(e.line, e.name)
    ensures !ShownIn(ls, section, e)
  {
    var s := SectionFrom(ls, 0, section).value;
    var body := ls[s.start..s.end];
    forall m | s.start <= m < s.end ensures ls[m] != e.line {
      assert body[m - s.start] == ls[m];
    }
  }

  /** After a patch of one section of any text without code fences, all reports stand as they should
      if and only if none goes astray. */
  lemma OneSectionShowsReportsExactly(content: string, section: string, diffs: seq<EnvDiff>, rules: map<string, RunbookRule>,
                                      isSecret: string -> bool, expand: string -> Option<string>)
    requires forall line :: '\\' !in line ==> expand(line) == Some(line)
    requires forall i, j :: 0 <= i < j < |diffs| ==> diffs[i].name != diffs[j].name
    requires forall d :: Written(d, diffs) ==> SingleLine(d, rules) && SectionOf(d.name, rules) == section && !isSecret(d.name)
    requires FenceFree(Lines(content)) && '\n' !in section
    ensures var once := Patched(content, Edits(diffs, rules), isSecret, expand);
            && once.Ok?
            && ((forall d :: Written(d, diffs) ==> ShowsReport(Lines(once.value), d, rules))
                <==> forall d :: Written(d, diffs) ==> !Astray(Lines(content), section, d.name))
  {
    EditsComeFromReports(diffs, rules);
    DistinctReportsDistinctEdits(diffs, rules);
    forall d | Written(d, diffs)
      ensures Insertable(EditOf(d, rules), expand) && EditOf(d, rules) in Edits(diffs, rules)
    {
      ReportIsInsertable(d, rules, expand);
    }
    SectionShowsEdits(Lines(content), section, Edits(diffs, rules), expand);
    TwiceAsText(content, Edits(diffs, rules), isSecret, expand);
    ReportsAreEdits(PatchAll(Lines(content), Edits(diffs, rules), expand).value, section, diffs, rules);
  }

  lemma ReportsAreEdits(ls: seq<string>, section: string, diffs: seq<EnvDiff>, rules: map<string, RunbookRule>)
    requires forall d :: Written(d, diffs) ==> SectionOf(d.name, rules) == section
    ensures (forall d :: Written(d, diffs) ==> ShowsReport(ls, d, rules))
            <==> forall e :: e in Edits(diffs, rules) ==> ShownIn(ls, section, e)
  {
    EditsComeFromReports(diffs, rules);
    forall d | Written(d, diffs)
      ensures EditOf(d, rules) in Edits(diffs, rules)
      ensures ShowsReport(ls, d, rules) <==> ShownIn(ls, section, EditOf(d, rules))
    {
      EditReports(ls, d, rules);
    }
  }
}
