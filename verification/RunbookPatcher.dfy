/** The section-targeted runbook patcher. A runbook is its lines; whitespace in a heading pattern
    may run over line ends, as it does in the source's expressions. */
module RunbookPatcher {
  import opened Wrappers
  import opened BoundedText
  import opened Validator

  // ----- Lines ----------------------------------------------------------------------------

  function Lines(s: string): (ls: seq<string>)
    ensures ls != []
  {
    if s == "" then [""]
    else if s[0] == '\n' then [""] + Lines(s[1..])
    else var rest := Lines(s[1..]); [[s[0]] + rest[0]] + rest[1..]
  }

  function Text(ls: seq<string>): string {
    if ls == [] then "" else if |ls| == 1 then ls[0] else ls[0] + "\n" + Text(ls[1..])
  }

  predicate OneLiners(ls: seq<string>) {
    ls != [] && forall m :: 0 <= m < |ls| ==> '\n' !in ls[m]
  }

  lemma TextOfCons(l: string, rest: seq<string>)
    requires rest != []
    ensures Text([l] + rest) == l + "\n" + Text(rest)
  {
    assert ([l] + rest)[1..] == rest;
  }

  lemma TextOfLonger(c: char, ls: seq<string>)
    requires ls != []
    ensures Text([[c] + ls[0]] + ls[1..]) == [c] + Text(ls)
  {
    assert ([[c] + ls[0]] + ls[1..])[1..] == ls[1..];
  }

  lemma {:induction false} TextOfLines(s: string)
    ensures Text(Lines(s)) == s && OneLiners(Lines(s))
  {
    if s != "" {
      var rest := Lines(s[1..]);
      TextOfLines(s[1..]);
      TextOfCons("", rest);
      TextOfLonger(s[0], rest);
      assert s == [s[0]] + s[1..];
    }
  }

  lemma {:induction false} LinesOfText(ls: seq<string>)
    requires OneLiners(ls)
    ensures Lines(Text(ls)) == ls
    decreases |Text(ls)|
  {
    var s := Text(ls);
    if ls[0] == "" {
      if |ls| > 1 {
        assert s[1..] == Text(ls[1..]);
        LinesOfText(ls[1..]);
      }
    } else {
      var shorter := [ls[0][1..]] + ls[1..];
      assert s == [s[0]] + Text(shorter);
      assert s[0] == ls[0][0] && s[0] in ls[0];
      assert forall c :: c in ls[0][1..] ==> c in ls[0];
      LinesOfText(shorter);
      assert [s[0]] + shorter[0] == ls[0];
    }
  }

  predicate Blank(s: string) {
    forall i :: 0 <= i < |s| ==> IsSpace(s[i])
  }

  // ----- Finding a section ----------------------------------------------------------------

  predicate MarksAt(line: string, o: int) {
    0 <= o < |line| - 1 && line[o] == '#' && line[o + 1] == '#'
  }

  /** `##` at `o`, whitespace up to `a`, the section's name there, and nothing but whitespace. */
  predicate HeaderCut(line: string, section: string, o: int, a: int) {
    && MarksAt(line, o) && o + 2 < a && a + |section| <= |line|
    && Blank(line[o + 2..a]) && line[a..a + |section|] == section && Blank(line[a + |section|..])
  }

  predicate EndsInHeader(line: string, section: string) {
    exists o, a :: 0 <= o <= |line| && 0 <= a <= |line| && HeaderCut(line, section, o, a)
  }

  predicate EndsInMarks(line: string) {
    exists o :: 0 <= o < |line| && MarksAt(line, o) && Blank(line[o + 2..])
  }

  predicate NameCut(line: string, section: string, a: int) {
    0 <= a && a + |section| <= |line|
    && Blank(line[..a]) && line[a..a + |section|] == section && Blank(line[a + |section|..])
  }

  predicate IsNameLine(line: string, section: string) {
    exists a :: 0 <= a <= |line| && NameCut(line, section, a)
  }

  /** The first line from `i` on that is not blank, or the number of lines. */
  function NextText(ls: seq<string>, i: nat): (r: nat)
    requires i <= |ls|
    ensures i <= r <= |ls| && (r < |ls| ==> !Blank(ls[r]))
    ensures forall m :: i <= m < r ==> Blank(ls[m])
    decreases |ls| - i
  {
    if i < |ls| && Blank(ls[i]) then NextText(ls, i + 1) else i
  }

  /** A heading of the section starts in line `p`; the answer is the line its name is in. The name
      may stand lines below its `##`, with only whitespace between, and a line end must follow. */
  function NameLine(ls: seq<string>, p: nat, section: string): (q: Option<nat>)
    requires p < |ls|
    ensures q.Some? ==> p <= q.value < |ls| - 1
  {
    if EndsInHeader(ls[p], section) && p + 1 < |ls| then Some(p)
    else if EndsInMarks(ls[p]) then
      var q := NextText(ls, p + 1);
      if q + 1 < |ls| && IsNameLine(ls[q], section) then Some(q) else None
    else None
  }

  /** The first line from `from` on in which a heading of the section starts. */
  function FindFrom(ls: seq<string>, from: nat, section: string): (p: Option<nat>)
    requires from <= |ls|
    ensures p.Some? ==> && from <= p.value < |ls| && NameLine(ls, p.value, section).Some?
                        && forall m :: from <= m < p.value ==> NameLine(ls, m, section).None?
    ensures p.None? ==> forall m :: from <= m < |ls| ==> NameLine(ls, m, section).None?
    decreases |ls| - from
  {
    if from == |ls| then None
    else if NameLine(ls, from, section).Some? then Some(from)
    else FindFrom(ls, from + 1, section)
  }

  /** A line that ends the section above it: `##` and whitespace, which a line end counts as. */
  predicate IsHeading(ls: seq<string>, m: nat)
    requires m < |ls|
  {
    MarksAt(ls[m], 0) && if |ls[m]| > 2 then IsSpace(ls[m][2]) else m + 1 < |ls|
  }

  /** The body's first line: blank lines still belong to the heading, unless the text ends. */
  function BodyStart(ls: seq<string>, q: nat): (b: nat)
    requires q + 1 < |ls|
    ensures q < b < |ls|
  {
    var r := NextText(ls, q + 1);
    if r == |ls| then |ls| - 1 else r
  }

  /** One past the body's last line. */
  function BodyEnd(ls: seq<string>, b: nat, m: nat): (x: nat)
    requires b < m <= |ls|
    ensures m <= x <= |ls| && (x < |ls| ==> IsHeading(ls, x))
    ensures forall i :: m <= i < x ==> !IsHeading(ls, i)
    decreases |ls| - m
  {
    if m < |ls| && !IsHeading(ls, m) then BodyEnd(ls, b, m + 1) else m
  }

  datatype Section = Section(name: nat, start: nat, end: nat)

  function SectionFrom(ls: seq<string>, from: nat, section: string): (s: Option<Section>)
    requires from <= |ls|
    ensures s.Some? ==> s.value.name < s.value.start < s.value.end <= |ls|
  {
    var p := FindFrom(ls, from, section);
    if p.None? then None
    else
      var q := NameLine(ls, p.value, section).value;
      var b := BodyStart(ls, q);
      Some(Section(q, b, BodyEnd(ls, b, b + 1)))
  }

  predicate IsFence(line: string) {
    |line| >= 3 && (line[..3] == "```" || line[..3] == "~~~")
  }

  function Spaces(n: nat): string {
    seq(n, _ => ' ')
  }

  /** Lines inside a fence read as blanks of the same length. */
  function Masked(ls: seq<string>, inFence: bool): (r: seq<string>)
    ensures |r| == |ls|
  {
    if ls == [] then []
    else if IsFence(ls[0]) then [ls[0]] + Masked(ls[1..], !inFence)
    else [if inFence then Spaces(|ls[0]|) else ls[0]] + Masked(ls[1..], inFence)
  }

  lemma MaskedNext(out: seq<string>, ls: seq<string>, i: nat, inFence: bool)
    requires i < |ls|
    ensures out + Masked(ls[i..], inFence)
         == if IsFence(ls[i]) then out + [ls[i]] + Masked(ls[i + 1..], !inFence)
            else out + [if inFence then Spaces(|ls[i]|) else ls[i]] + Masked(ls[i + 1..], inFence)
  {
    assert ls[i..][1..] == ls[i + 1..];
  }

  method MaskCodeFences(ls: seq<string>) returns (out: seq<string>)
    ensures out == Masked(ls, false)
  {
    out := [];
    var inFence := false;
    assert ls[0..] == ls;
    for i := 0 to |ls|
      invariant Masked(ls, false) == out + Masked(ls[i..], inFence)
    {
      var line := ls[i];
      MaskedNext(out, ls, i, inFence);
      if IsFence(line) {
        inFence := !inFence;
        out := out + [line];
      } else if inFence {
        out := out + [Spaces(|line|)];
      } else {
        out := out + [line];
      }
    }
  }

  /** Searched for with code fences masked, then taken from the text itself. */
  function FindSection(ls: seq<string>, section: string): (s: Option<Section>)
    ensures s.Some? ==> s.value.name < s.value.start < s.value.end <= |ls|
  {
    var p := FindFrom(Masked(ls, false), 0, section);
    if p.None? then None else SectionFrom(ls, p.value, section)
  }

  // ----- Updating a variable's line -------------------------------------------------------

  /** A bullet of the variable: its name, `=`, and a closing backtick somewhere after. */
  predicate BulletFor(line: string, name: string) {
    && 4 + |name| <= |line|
    && line[0] == '-' && line[1] == ' ' && line[2] == '`'
    && line[3..3 + |name|] == name && line[3 + |name|] == '='
    && exists t :: 4 + |name| <= t < |line| && line[t] == '`'
  }

  datatype Edit = Edit(name: string, section: string, line: string)

  datatype PatchError = SecretName(name: string) | SectionNotFound | BadTemplate

  predicate HasBullet(body: seq<string>, name: string) {
    exists m :: 0 <= m < |body| && BulletFor(body[m], name)
  }

  function Replaced(body: seq<string>, name: string, line: string): (r: seq<string>)
    ensures |r| == |body|
    ensures forall m :: 0 <= m < |body| ==> r[m] == if BulletFor(body[m], name) then line else body[m]
  {
    seq(|body|, m requires 0 <= m < |body| => if BulletFor(body[m], name) then line else body[m])
  }

  /** A new last line: before the final line end when there is one, after a new one otherwise. */
  function Appended(body: seq<string>, line: string): seq<string>
    requires body != []
  {
    if |body| >= 2 && body[|body| - 1] == "" then body[..|body| - 1] + [line, ""]
    else body + [line, ""]
  }

  /** `expand` reads a replacement text as a template; without a backslash it stands for itself. */
  function UpdateVarLine(body: seq<string>, e: Edit, expand: string -> Option<string>)
    : (r: Result<seq<string>, PatchError>)
    requires body != []
    ensures r.Ok? ==> r.value != []
  {
    if HasBullet(body, e.name) then
      if expand(e.line).None? then Err(BadTemplate) else Ok(Replaced(body, e.name, expand(e.line).value))
    else Ok(Appended(body, e.line))
  }

  /** Trailing whitespace gone, line ends included. */
  function WithoutTrailingSpace(ls: seq<string>): (r: seq<string>)
    requires ls != []
    ensures 1 <= |r| <= |ls|
    ensures forall m :: 0 <= m < |r| - 1 ==> r[m] == ls[m]
    ensures r[|r| - 1] == StripRight(ls[|r| - 1], IsSpace)
    ensures forall m :: |r| <= m < |ls| ==> Blank(ls[m])
  {
    var last := |ls| - 1;
    if last > 0 && Blank(ls[last]) then WithoutTrailingSpace(ls[..last])
    else ls[..last] + [StripRight(ls[last], IsSpace)]
  }

  function Stubbed(ls: seq<string>, section: string): seq<string>
    requires ls != []
  {
    WithoutTrailingSpace(ls) + ["", "## " + section, "", ""]
  }

  function PatchSection(ls: seq<string>, s: Option<Section>, e: Edit, expand: string -> Option<string>)
    : (r: Result<seq<string>, PatchError>)
    requires s.Some? ==> s.value.start < s.value.end <= |ls|
    ensures r.Ok? ==> r.value != []
  {
    if s.None? then Err(SectionNotFound)
    else
      var body := UpdateVarLine(ls[s.value.start..s.value.end], e, expand);
      if body.Err? then body else Ok(ls[..s.value.start] + body.value + ls[s.value.end..])
  }

  function PatchOne(ls: seq<string>, e: Edit, expand: string -> Option<string>): (r: Result<seq<string>, PatchError>)
    requires ls != []
    ensures r.Ok? ==> r.value != []
  {
    var base := if FindSection(ls, e.section).None? then Stubbed(ls, e.section) else ls;
    PatchSection(base, FindSection(base, e.section), e, expand)
  }

  // ----- The patcher ----------------------------------------------------------------------

  datatype RunbookRule = RunbookRule(section: string, operatorNote: Option<string>)

  const DEFAULT_SECTION := "Runtime Configuration"
  const NOTE_LABEL := " — **Operator note:** "

  function Bullet(name: string, value: string): string {
    "- `" + name + "=" + value + "`"
  }

  /** The variable's new line: its value, and the operator's note when there is one. */
  function NewLine(name: string, value: string, note: Option<string>): string {
    if Given(note) then Bullet(name, value) + NOTE_LABEL + Strip(note.value, IsSpace) else Bullet(name, value)
  }

  function SectionOf(name: string, rules: map<string, RunbookRule>): string {
    if name in rules then rules[name].section else DEFAULT_SECTION
  }

  function NoteOf(name: string, rules: map<string, RunbookRule>): Option<string> {
    if name in rules then rules[name].operatorNote else None
  }

  function EditOf(d: EnvDiff, rules: map<string, RunbookRule>): Edit {
    var value := if d.live.Some? then d.live.value else "";
    Edit(d.name, SectionOf(d.name, rules), NewLine(d.name, value, NoteOf(d.name, rules)))
  }

  function Edits(diffs: seq<EnvDiff>, rules: map<string, RunbookRule>): seq<Edit> {
    if diffs == [] then []
    else (if diffs[0].contractStatus == Match then [] else [EditOf(diffs[0], rules)]) + Edits(diffs[1..], rules)
  }

  function PatchAll(ls: seq<string>, edits: seq<Edit>, expand: string -> Option<string>): (r: Result<seq<string>, PatchError>)
    requires ls != []
    ensures r.Ok? ==> r.value != []
    decreases |edits|
  {
    if edits == [] then Ok(ls)
    else
      var r := PatchOne(ls, edits[0], expand);
      if r.Err? then r else PatchAll(r.value, edits[1..], expand)
  }

  /** The first secret-like name that would be written, if any: nothing is patched then. */
  function FirstSecret(edits: seq<Edit>, isSecret: string -> bool): (name: Option<string>)
    ensures name.None? <==> forall e :: e in edits ==> !isSecret(e.name)
    ensures name.Some? ==> isSecret(name.value)
  {
    if edits == [] then None
    else if isSecret(edits[0].name) then Some(edits[0].name)
    else FirstSecret(edits[1..], isSecret)
  }

  /** The whole patch as a function of the text. */
  function Patched(content: string, edits: seq<Edit>, isSecret: string -> bool, expand: string -> Option<string>)
    : Result<string, PatchError>
  {
    var secret := FirstSecret(edits, isSecret);
    if secret.Some? then Err(SecretName(secret.value))
    else
      var r := PatchAll(Lines(content), edits, expand);
      if r.Err? then Err(r.error) else Ok(Text(r.value))
  }

  lemma EditsOfTail(diffs: seq<EnvDiff>, i: nat, rules: map<string, RunbookRule>)
    requires i < |diffs|
    ensures Edits(diffs[i..], rules)
         == if diffs[i].contractStatus == Match then Edits(diffs[i + 1..], rules)
            else [EditOf(diffs[i], rules)] + Edits(diffs[i + 1..], rules)
  {
    assert diffs[i..][1..] == diffs[i + 1..];
  }

  lemma FirstSecretOfCons(e: Edit, rest: seq<Edit>, isSecret: string -> bool)
    ensures FirstSecret([e] + rest, isSecret) == if isSecret(e.name) then Some(e.name) else FirstSecret(rest, isSecret)
  {
    assert ([e] + rest)[1..] == rest;
  }

  lemma PatchAllOfCons(ls: seq<string>, e: Edit, rest: seq<Edit>, expand: string -> Option<string>)
    requires ls != []
    ensures PatchAll(ls, [e] + rest, expand)
         == (var r := PatchOne(ls, e, expand); if r.Err? then r else PatchAll(r.value, rest, expand))
  {
    assert ([e] + rest)[1..] == rest;
  }

  method CheckSecrets(diffs: seq<EnvDiff>, rules: map<string, RunbookRule>, isSecret: string -> bool)
    returns (name: Option<string>)
    ensures name == FirstSecret(Edits(diffs, rules), isSecret)
  {
    ghost var rest := Edits(diffs, rules);
    assert diffs[0..] == diffs;
    for i := 0 to |diffs|
      invariant rest == Edits(diffs[i..], rules)
      invariant FirstSecret(Edits(diffs, rules), isSecret) == FirstSecret(rest, isSecret)
    {
      EditsOfTail(diffs, i, rules);
      rest := Edits(diffs[i + 1..], rules);
      if diffs[i].contractStatus == Match { continue; }
      FirstSecretOfCons(EditOf(diffs[i], rules), rest, isSecret);
      if isSecret(diffs[i].name) {
        return Some(diffs[i].name);
      }
    }
    return None;
  }

  /** Every reported difference but a match, one after the other, each on the text the last one
      left; or none of them when one would write a secret-like name. */
  method PatchRunbook(content: string, diffs: seq<EnvDiff>, rules: map<string, RunbookRule>,
                      isSecret: string -> bool, expand: string -> Option<string>)
    returns (r: Result<string, PatchError>)
    ensures r == Patched(content, Edits(diffs, rules), isSecret, expand)
  {
    var secret := CheckSecrets(diffs, rules, isSecret);
    if secret.Some? {
      return Err(SecretName(secret.value));
    }
    var lines := Lines(content);
    ghost var rest := Edits(diffs, rules);
    assert diffs[0..] == diffs;
    for i := 0 to |diffs|
      invariant lines != [] && rest == Edits(diffs[i..], rules)
      invariant PatchAll(Lines(content), Edits(diffs, rules), expand) == PatchAll(lines, rest, expand)
    {
      EditsOfTail(diffs, i, rules);
      rest := Edits(diffs[i + 1..], rules);
      if diffs[i].contractStatus == Match { continue; }
      var e := EditOf(diffs[i], rules);
      PatchAllOfCons(lines, e, rest, expand);
      var step := PatchOne(lines, e, expand);
      if step.Err? {
        return Err(step.error);
      }
      lines := step.value;
    }
    return Ok(Text(lines));
  }
}
