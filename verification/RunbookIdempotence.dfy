/** Patching a runbook twice is patching it once: what each edit establishes, and what every other
    edit keeps. */
module RunbookIdempotence {
  import opened Wrappers
  import opened BoundedText
  import opened Validator
  import opened RunbookPatcher

  // ----- What a section name and a new line look like --------------------------------------

  /** One line of heading text that no bullet and no heading mark can be part of. */
  ghost predicate Plain(section: string) {
    && section != "" && !IsSpace(section[0]) && !IsSpace(section[|section| - 1])
    && '`' !in section && '\n' !in section
    && forall o :: !MarksAt(section, o)
  }

  /** A bullet with no `##` after its last backtick: no heading can start in it or end in it. */
  ghost predicate Inert(line: string) {
    && |line| >= 3 && line[0] == '-' && line[1] == ' ' && line[2] == '`'
    && exists t :: ClosedAt(line, t)
  }

  ghost predicate ClosedAt(line: string, t: int) {
    2 <= t < |line| && line[t] == '`' && forall o :: t < o ==> !MarksAt(line, o)
  }

  ghost predicate WellFormed(e: Edit, expand: string -> Option<string>) {
    && Plain(e.section)
    && '=' !in e.name
    && BulletFor(e.line, e.name) && Inert(e.line) && !IsSpace(e.line[|e.line| - 1])
    && '\n' !in e.line
    && expand(e.line) == Some(e.line)
  }

  lemma InertHasNoCut(line: string, t: int, section: string, o: int, a: int)
    requires ClosedAt(line, t) && '`' !in section
    ensures !HeaderCut(line, section, o, a)
  {
    if MarksAt(line, o) && o + 2 < a && a + |section| <= |line| {
      assert t < a ==> line[o + 2..a][t - o - 2] == '`';
      assert a <= t < a + |section| ==> line[a..a + |section|][t - a] == '`';
      assert a + |section| <= t ==> line[a + |section|..][t - a - |section|] == '`';
    }
  }

  lemma InertHasNoName(line: string, section: string, a: int)
    requires |line| >= 3 && line[0] == '-' && line[1] == ' ' && line[2] == '`' && Plain(section)
    ensures !NameCut(line, section, a)
  {
    assert 0 < a <= |line| ==> line[..a][0] == '-';
    if a == 0 && |section| <= |line| {
      assert |section| == 1 ==> line[|section|..][1] == '`';
      assert |section| == 2 ==> line[0..2][1] == ' ';
      assert |section| > 2 ==> line[0..|section|][2] == '`';
    }
  }

  lemma InertIsNoHeader(line: string, section: string)
    requires Inert(line) && Plain(section)
    ensures !Blank(line) && !EndsInMarks(line) && !EndsInHeader(line, section) && !IsNameLine(line, section)
  {
    var t :| ClosedAt(line, t);
    assert !IsSpace(line[0]);
    forall o | MarksAt(line, o) ensures !Blank(line[o + 2..]) {
      assert line[o + 2..][t - o - 2] == '`';
    }
    forall o, a ensures !HeaderCut(line, section, o, a) {
      InertHasNoCut(line, t, section, o, a);
    }
    forall a ensures !NameCut(line, section, a) {
      InertHasNoName(line, section, a);
    }
  }

  lemma BlankIsNoHeader(line: string, section: string)
    ensures Blank(line) ==> !EndsInHeader(line, section) && !EndsInMarks(line) && !MarksAt(line, 0)
    ensures Blank(line) && Plain(section) ==> !IsNameLine(line, section)
  {
    if Blank(line) {
      forall o ensures !MarksAt(line, o) {
        assert 0 <= o < |line| ==> IsSpace(line[o]);
      }
      if Plain(section) {
        forall a ensures !NameCut(line, section, a) {
          assert 0 <= a < |line| ==> IsSpace(line[a]);
          assert 0 <= a && a + |section| <= |line| ==> line[a..a + |section|][0] == line[a];
        }
      }
    }
  }

  /** A line that starts with `##` is not the name of a plain section. */
  lemma MarksAreNoName(line: string, section: string)
    requires MarksAt(line, 0) && Plain(section)
    ensures !IsNameLine(line, section)
  {
    forall a ensures !NameCut(line, section, a) {
      if 0 < a && a + |section| <= |line| {
        assert line[..a][0] == '#';
      } else if a == 0 && |section| <= |line| {
        assert |section| == 1 ==> line[|section|..][0] == '#';
        assert |section| > 1 ==> line[..|section|][0] == '#' && line[..|section|][1] == '#';
        assert !MarksAt(section, 0);
      }
    }
  }

  /** Two variables never share a bullet. */
  lemma OneNamePerBullet(line: string, m: string, n: string)
    requires BulletFor(line, m) && BulletFor(line, n) && '=' !in m && '=' !in n
    ensures m == n
  {
    assert forall k :: 0 <= k < |m| ==> line[3 + k] == m[k] && m[k] in m;
    assert forall k :: 0 <= k < |n| ==> line[3 + k] == n[k] && n[k] in n;
  }

  lemma BulletIsNotHeading(ls: seq<string>, m: nat)
    requires m < |ls| && |ls[m]| > 0 && ls[m][0] == '-'
    ensures !IsHeading(ls, m)
  {
  }

  // ----- Where a section stands ------------------------------------------------------------

  ghost predicate FirstAt(ls: seq<string>, section: string, p: nat, q: nat) {
    && p < |ls| && NameLine(ls, p, section) == Some(q)
    && forall m :: 0 <= m < p ==> NameLine(ls, m, section).None?
  }

  /** Where a section stands, in plain terms. */
  ghost predicate Stands(ls: seq<string>, section: string, p: nat, s: Section) {
    && FirstAt(ls, section, p, s.name)
    && s.name < s.start < s.end <= |ls|
    && (forall m :: s.name < m < s.start ==> Blank(ls[m]))
    && (Blank(ls[s.start]) ==> s.start == |ls| - 1)
    && (forall m :: s.start < m < s.end ==> !IsHeading(ls, m))
    && (s.end < |ls| ==> IsHeading(ls, s.end))
  }

  lemma StartsAt(ls: seq<string>, q: nat, b: nat)
    requires q < b < |ls| && (forall m :: q < m < b ==> Blank(ls[m])) && (Blank(ls[b]) ==> b == |ls| - 1)
    ensures BodyStart(ls, q) == b
  {
    var r := NextText(ls, q + 1);
    assert r == |ls| || !Blank(ls[r]);
  }

  lemma EndsAt(ls: seq<string>, b: nat, x: nat)
    requires b < x <= |ls| && (forall m :: b < m < x ==> !IsHeading(ls, m)) && (x < |ls| ==> IsHeading(ls, x))
    ensures BodyEnd(ls, b, b + 1) == x
  {
  }

  lemma FirstIs(ls: seq<string>, section: string, p: nat, q: nat)
    requires FirstAt(ls, section, p, q)
    ensures FindFrom(ls, 0, section) == Some(p)
  {
  }

  lemma Standing(ls: seq<string>, section: string, p: nat, s: Section)
    requires Stands(ls, section, p, s)
    ensures SectionFrom(ls, 0, section) == Some(s)
  {
    FirstIs(ls, section, p, s.name);
    StartsAt(ls, s.name, s.start);
    EndsAt(ls, s.start, s.end);
  }

  lemma Found(ls: seq<string>, section: string) returns (p: nat, s: Section)
    requires FindFrom(ls, 0, section).Some?
    ensures Stands(ls, section, p, s) && SectionFrom(ls, 0, section) == Some(s)
  {
    p := FindFrom(ls, 0, section).value;
    s := SectionFrom(ls, 0, section).value;
  }

  lemma NotFound(ls: seq<string>, section: string)
    requires forall m :: 0 <= m < |ls| ==> NameLine(ls, m, section).None?
    ensures SectionFrom(ls, 0, section).None? && FindFrom(ls, 0, section).None?
  {
  }

  // ----- The state of one edit in a text ---------------------------------------------------

  /** The edit is done: its section stands, starts with text that is no heading, shows the new
      line, and shows no other bullet of the variable. */
  ghost predicate Done(ls: seq<string>, e: Edit) {
    var found := SectionFrom(ls, 0, e.section);
    && found.Some? && Ended(ls, e.section)
    && !Blank(ls[found.value.start]) && !IsHeading(ls, found.value.start)
    && Shows(ls, e, found.value.start, found.value.end)
  }

  ghost predicate Shows(ls: seq<string>, e: Edit, from: nat, to: nat)
    requires to <= |ls|
  {
    && (exists m :: from <= m < to && ls[m] == e.line)
    && (forall m :: from <= m < to && BulletFor(ls[m], e.name) ==> ls[m] == e.line)
  }

  /** The edit can be made safely: if its section stands, its body does not start with a heading,
      and starts with text unless no section is missing. */
  ghost predicate Ready(ls: seq<string>, e: Edit, noneMissing: bool) {
    var found := SectionFrom(ls, 0, e.section);
    && Ended(ls, e.section)
    && (noneMissing ==> found.Some?)
    && (found.Some? ==> !IsHeading(ls, found.value.start) && (noneMissing || !Blank(ls[found.value.start])))
  }

  /** What every text between two edits satisfies. */
  ghost predicate Sound(ls: seq<string>) {
    OneLiners(ls) && forall m :: 0 <= m < |ls| ==> !IsFence(ls[m])
  }

  /** The last line is nothing that a line end after it would turn into a heading, or complete to
      one of the section's. A text with a final line end always is. */
  ghost predicate Ended(ls: seq<string>, section: string) {
    && ls != []
    && var last := ls[|ls| - 1];
       last != "##" && !EndsInHeader(last, section) && !IsNameLine(last, section)
  }

  lemma EndedByInert(ls: seq<string>, section: string)
    requires ls != [] && Inert(ls[|ls| - 1]) && Plain(section)
    ensures Ended(ls, section)
  {
    InertIsNoHeader(ls[|ls| - 1], section);
  }

  lemma EndedByLineEnd(ls: seq<string>, section: string)
    requires ls != [] && Blank(ls[|ls| - 1]) && Plain(section)
    ensures Ended(ls, section)
  {
    BlankIsNoHeader(ls[|ls| - 1], section);
    assert Blank("##") ==> IsSpace("##"[0]);
  }

  ghost predicate BulletsInert(ls: seq<string>, name: string) {
    forall m :: 0 <= m < |ls| && BulletFor(ls[m], name) ==> Inert(ls[m])
  }

  lemma {:induction false} MaskedFenceFree(ls: seq<string>)
    requires forall m :: 0 <= m < |ls| ==> !IsFence(ls[m])
    ensures Masked(ls, false) == ls
  {
    if ls != [] {
      MaskedFenceFree(ls[1..]);
    }
  }

  lemma FindAgain(ls: seq<string>, section: string)
    ensures var p := FindFrom(ls, 0, section);
            p.Some? ==> SectionFrom(ls, p.value, section) == SectionFrom(ls, 0, section)
  {
  }

  lemma FindInSound(ls: seq<string>, section: string)
    requires Sound(ls)
    ensures FindSection(ls, section) == SectionFrom(ls, 0, section)
  {
    MaskedFenceFree(ls);
    FindAgain(ls, section);
  }

  // ----- Texts that agree up to a line -----------------------------------------------------

  /** Two lines a heading search cannot tell apart. */
  ghost predicate SameRole(x: string, y: string, section: string) {
    && EndsInHeader(x, section) == EndsInHeader(y, section)
    && EndsInMarks(x) == EndsInMarks(y)
    && IsNameLine(x, section) == IsNameLine(y, section)
    && Blank(x) == Blank(y)
  }

  /** No heading that starts above line `n` is completed at or below it. */
  ghost predicate Closed(ls: seq<string>, n: nat, section: string) {
    && 0 < n <= |ls|
    && (n == |ls| ==> Ended(ls, section))
    && var r := NextText(ls, n); r == |ls| || !IsNameLine(ls[r], section)
  }

  lemma SameNextText(a: seq<string>, b: seq<string>, n: nat, i: nat)
    requires i <= n <= |a| && n <= |b| && forall m :: 0 <= m < n ==> Blank(a[m]) == Blank(b[m])
    ensures NextText(a, i) < n ==> NextText(b, i) == NextText(a, i)
    ensures NextText(a, i) >= n ==> NextText(a, i) == NextText(a, n)
  {
    var r, r' := NextText(a, i), NextText(b, i);
    assert r < n && r' < n ==> r == r';
  }

  ghost predicate NamedAt(ls: seq<string>, q: nat, section: string) {
    q + 1 < |ls| && IsNameLine(ls[q], section)
  }

  lemma SameNameBelow(a: seq<string>, b: seq<string>, n: nat, i: nat, section: string)
    requires Closed(a, n, section) && Closed(b, n, section) && i <= n
    requires forall m :: 0 <= m < n ==> SameRole(a[m], b[m], section)
    ensures NamedAt(a, NextText(a, i), section) == NamedAt(b, NextText(b, i), section)
    ensures NamedAt(a, NextText(a, i), section) ==> NextText(a, i) == NextText(b, i) < n
  {
    SameNextText(a, b, n, i);
    SameNextText(b, a, n, i);
    var q := NextText(a, i);
    if q < n {
      assert SameRole(a[q], b[q], section);
      assert q == n - 1 && (n == |a| || n == |b|) ==> !IsNameLine(a[q], section);
    }
  }

  lemma SameNameLine(a: seq<string>, b: seq<string>, n: nat, p: nat, section: string)
    requires Closed(a, n, section) && Closed(b, n, section) && p < n && Plain(section)
    requires forall m :: 0 <= m < n ==> SameRole(a[m], b[m], section)
    ensures NameLine(a, p, section) == NameLine(b, p, section)
    ensures NameLine(a, p, section).Some? ==> NameLine(a, p, section).value < n
  {
    SameNameBelow(a, b, n, p + 1, section);
    assert SameRole(a[p], b[p], section);
    assert p + 1 == |a| || p + 1 == |b| ==> p == n - 1;
  }

  /** The first heading is the same in both texts, when it starts above the line. */
  lemma SameFirst(a: seq<string>, b: seq<string>, n: nat, section: string, p: nat, q: nat)
    requires Closed(a, n, section) && Closed(b, n, section)
    requires forall m :: 0 <= m < n ==> SameRole(a[m], b[m], section)
    requires FirstAt(a, section, p, q) && p < n && Plain(section)
    ensures FirstAt(b, section, p, q) && q < n
  {
    forall m | 0 <= m <= p ensures NameLine(b, m, section) == NameLine(a, m, section) {
      SameNameLine(a, b, n, m, section);
    }
    SameNameLine(a, b, n, p, section);
  }

  lemma NoneAbove(a: seq<string>, b: seq<string>, n: nat, section: string)
    requires Closed(a, n, section) && Closed(b, n, section) && Plain(section)
    requires forall m :: 0 <= m < n ==> SameRole(a[m], b[m], section)
    requires forall m :: 0 <= m < n ==> NameLine(a, m, section).None?
    ensures forall m :: 0 <= m < n ==> NameLine(b, m, section).None?
  {
    forall m | 0 <= m < n ensures NameLine(b, m, section).None? {
      SameNameLine(a, b, n, m, section);
    }
  }

  // ----- Replacing bullets -----------------------------------------------------------------

  /** The same text, except that some inert bullets stand for others. */
  ghost predicate Rewritten(a: seq<string>, b: seq<string>) {
    |a| == |b| && forall m :: 0 <= m < |a| ==> a[m] == b[m] || (Inert(a[m]) && Inert(b[m]))
  }

  lemma RewrittenRoles(a: seq<string>, b: seq<string>, section: string)
    requires Rewritten(a, b) && Plain(section)
    ensures forall m :: 0 <= m < |a| ==> SameRole(a[m], b[m], section) && IsHeading(a, m) == IsHeading(b, m)
  {
    forall m | 0 <= m < |a| ensures SameRole(a[m], b[m], section) && IsHeading(a, m) == IsHeading(b, m) {
      if a[m] != b[m] {
        InertIsNoHeader(a[m], section);
        InertIsNoHeader(b[m], section);
      }
    }
  }

  lemma RewrittenStands(a: seq<string>, b: seq<string>, section: string)
    requires Ended(a, section) && Rewritten(a, b) && Plain(section)
    ensures Ended(b, section) && SectionFrom(b, 0, section) == SectionFrom(a, 0, section)
  {
    RewrittenRoles(a, b, section);
    if Inert(b[|b| - 1]) {
      EndedByInert(b, section);
    }
    if FindFrom(a, 0, section).Some? {
      var p, s := Found(a, section);
      SameFirst(a, b, |a|, section, p, s.name);
      Standing(b, section, p, s);
    } else {
      NoneAbove(a, b, |a|, section);
      NotFound(b, section);
    }
  }

  /** Every bullet of one variable between `s` and `x` replaced. */
  ghost predicate Rebulleted(a: seq<string>, b: seq<string>, from: nat, to: nat, name: string, line: string) {
    && from <= to <= |a| == |b|
    && forall m :: 0 <= m < |a| ==> b[m] == if from <= m < to && BulletFor(a[m], name) then line else a[m]
  }

  /** Another variable's bullets, and its new line, stay where they are. */
  ghost predicate KeepsBullets(x: string, y: string, f: Edit) {
    && (BulletFor(y, f.name) ==> y == x)
    && (x == f.line ==> y == x)
  }

  lemma ReplacementKeepsBullets(x: string, e: Edit, f: Edit, expand: string -> Option<string>)
    requires WellFormed(e, expand) && WellFormed(f, expand) && e.name != f.name
    ensures KeepsBullets(x, if BulletFor(x, e.name) then e.line else x, f)
  {
    if BulletFor(e.line, f.name) {
      OneNamePerBullet(e.line, e.name, f.name);
    }
    if BulletFor(f.line, e.name) {
      OneNamePerBullet(f.line, e.name, f.name);
    }
  }

  lemma DoneStays(a: seq<string>, b: seq<string>, f: Edit)
    requires |a| == |b| && Done(a, f) && Ended(b, f.section) && SectionFrom(b, 0, f.section) == SectionFrom(a, 0, f.section)
    requires forall m :: 0 <= m < |a| ==> KeepsBullets(a[m], b[m], f) && Blank(a[m]) == Blank(b[m]) && IsHeading(a, m) == IsHeading(b, m)
    ensures Done(b, f)
  {
    var s := SectionFrom(a, 0, f.section).value;
    var m :| s.start <= m < s.end && a[m] == f.line;
    assert KeepsBullets(a[m], b[m], f);
    assert b[m] == f.line;
  }

  lemma ReplacingKeeps(a: seq<string>, b: seq<string>, from: nat, to: nat, e: Edit, f: Edit, noneMissing: bool,
                       expand: string -> Option<string>)
    requires Sound(a) && WellFormed(e, expand) && WellFormed(f, expand) && e.name != f.name
    requires BulletsInert(a, e.name) && Rebulleted(a, b, from, to, e.name, e.line)
    ensures Done(a, f) ==> Done(b, f)
    ensures Ready(a, f, noneMissing) ==> Ready(b, f, noneMissing)
    ensures BulletsInert(a, f.name) ==> BulletsInert(b, f.name)
  {
    RebulletedIsRewritten(a, b, from, to, e.name, e.line);
    if Ended(a, f.section) {
      RewrittenStands(a, b, f.section);
    }
    RewrittenRoles(a, b, f.section);
    forall m | 0 <= m < |a| ensures KeepsBullets(a[m], b[m], f) {
      ReplacementKeepsBullets(a[m], e, f, expand);
    }
    if Done(a, f) {
      DoneStays(a, b, f);
    }
  }

  lemma ReplacingStaysSound(a: seq<string>, b: seq<string>, from: nat, to: nat, e: Edit, expand: string -> Option<string>)
    requires Sound(a) && WellFormed(e, expand) && Rebulleted(a, b, from, to, e.name, e.line)
    ensures Sound(b)
  {
    forall m | 0 <= m < |b| ensures '\n' !in b[m] && !IsFence(b[m]) {
      assert b[m] == a[m] || b[m] == e.line;
    }
  }

  lemma BulletIn(a: seq<string>, from: nat, to: nat, name: string) returns (m: nat)
    requires from <= to <= |a| && HasBullet(a[from..to], name)
    ensures from <= m < to && BulletFor(a[m], name)
  {
    var k :| 0 <= k < to - from && BulletFor(a[from..to][k], name);
    assert a[from..to][k] == a[from + k];
    m := from + k;
  }

  lemma BodyWithBulletIsNotBlank(a: seq<string>, section: string, m: nat, name: string)
    requires var found := SectionFrom(a, 0, section);
             found.Some? && found.value.start <= m < found.value.end && BulletFor(a[m], name)
    ensures !Blank(a[SectionFrom(a, 0, section).value.start])
  {
    var p, s := Found(a, section);
  }

  lemma RewrittenBullets(a: seq<string>, b: seq<string>, from: nat, to: nat, name: string, line: string)
    requires Rebulleted(a, b, from, to, name, line)
    ensures forall m :: from <= m < to && BulletFor(b[m], name) ==> b[m] == line
  {
    forall m | from <= m < to ensures BulletFor(b[m], name) ==> b[m] == line {
      assert b[m] == line || (b[m] == a[m] && !BulletFor(a[m], name));
    }
  }

  lemma RewrittenIsDone(a: seq<string>, b: seq<string>, s: Section, m: nat, e: Edit)
    requires Ended(a, e.section) && Rewritten(a, b) && Plain(e.section)
    requires SectionFrom(a, 0, e.section) == Some(s) && !Blank(a[s.start]) && !IsHeading(a, s.start)
    requires s.start <= m < s.end && b[m] == e.line
    requires forall i :: s.start <= i < s.end && BulletFor(b[i], e.name) ==> b[i] == e.line
    ensures Done(b, e)
  {
    RewrittenStands(a, b, e.section);
    RewrittenRoles(a, b, e.section);
    assert SameRole(a[s.start], b[s.start], e.section);
  }

  lemma RebulletedIsRewritten(a: seq<string>, b: seq<string>, from: nat, to: nat, name: string, line: string)
    requires BulletsInert(a, name) && Inert(line) && Rebulleted(a, b, from, to, name, line)
    ensures Rewritten(a, b)
  {
  }

  lemma ReplacingDoes(a: seq<string>, b: seq<string>, s: Section, e: Edit)
    requires Ended(a, e.section) && BulletsInert(a, e.name) && Inert(e.line) && Plain(e.section)
    requires SectionFrom(a, 0, e.section) == Some(s) && !IsHeading(a, s.start)
    requires HasBullet(a[s.start..s.end], e.name)
    requires Rebulleted(a, b, s.start, s.end, e.name, e.line)
    ensures Done(b, e)
  {
    RebulletedIsRewritten(a, b, s.start, s.end, e.name, e.line);
    var m := BulletIn(a, s.start, s.end, e.name);
    BodyWithBulletIsNotBlank(a, e.section, m, e.name);
    RewrittenBullets(a, b, s.start, s.end, e.name, e.line);
    RewrittenIsDone(a, b, s, m, e);
  }

  // ----- Adding a line ---------------------------------------------------------------------

  /** `b` is `a` with a bullet put in before line `k`, and a line end after it unless one is there. */
  ghost predicate Inserted(a: seq<string>, b: seq<string>, k: nat, n: nat, line: string) {
    && 0 < k <= |a| && |b| == |a| + n
    && ((n == 1 && k < |a|) || (n == 2 && b[k + 1] == ""))
    && b[k] == line
    && (forall m :: 0 <= m < k ==> b[m] == a[m])
    && (forall m :: k <= m < |a| ==> b[m + n] == a[m])
  }

  /** Between two sections: the next text from here on is a heading, or there is none. */
  ghost predicate AtSectionEnd(ls: seq<string>, k: nat) {
    && k <= |ls|
    && var r := NextText(ls, k); r < |ls| ==> IsHeading(ls, r)
  }

  lemma ShiftedNextText(a: seq<string>, b: seq<string>, k: nat, n: nat, i: nat)
    requires k <= i <= |a| && |b| == |a| + n && forall m :: k <= m < |a| ==> b[m + n] == a[m]
    ensures NextText(b, i + n) == NextText(a, i) + n
  {
    var r, r' := NextText(a, i), NextText(b, i + n);
    forall j | i + n <= j < r + n ensures Blank(b[j]) {
      assert b[j - n + n] == a[j - n];
    }
    assert r < |a| ==> b[r + n] == a[r];
  }

  lemma ShiftedNameLine(a: seq<string>, b: seq<string>, k: nat, n: nat, p: nat, section: string)
    requires k <= p < |a| && |b| == |a| + n && forall m :: k <= m < |a| ==> b[m + n] == a[m]
    ensures var q := NameLine(a, p, section);
            NameLine(b, p + n, section) == if q.None? then None else Some(q.value + n)
  {
    ShiftedNextText(a, b, k, n, p + 1);
  }

  lemma InsertedClosed(a: seq<string>, b: seq<string>, k: nat, n: nat, line: string, section: string)
    requires Ended(a, section) && Inserted(a, b, k, n, line) && AtSectionEnd(a, k) && Inert(line) && Plain(section)
    ensures Closed(a, k, section) && Closed(b, k, section)
    ensures forall m :: 0 <= m < k ==> SameRole(a[m], b[m], section)
  {
    InertIsNoHeader(line, section);
    assert NextText(b, k) == k;
    var r := NextText(a, k);
    if r < |a| {
      MarksAreNoName(a[r], section);
    }
  }

  /** Nothing new is found in the added lines. */
  lemma InsertedIsNoHeading(b: seq<string>, k: nat, n: nat, line: string, section: string)
    requires (n == 1 || n == 2) && k + n <= |b| && b[k] == line && (n == 2 ==> b[k + 1] == "")
    requires Inert(line) && Plain(section)
    ensures forall m :: k <= m < k + n ==> NameLine(b, m, section).None? && !IsHeading(b, m)
  {
    InertIsNoHeader(line, section);
    if n == 2 {
      BlankIsNoHeader(b[k + 1], section);
    }
  }

  lemma InsertedFirst(a: seq<string>, b: seq<string>, k: nat, n: nat, line: string, section: string, p: nat, q: nat)
    requires Ended(a, section) && Inserted(a, b, k, n, line) && AtSectionEnd(a, k) && Inert(line) && Plain(section)
    requires FirstAt(a, section, p, q)
    ensures if p < k then q < k && FirstAt(b, section, p, q) else FirstAt(b, section, p + n, q + n)
  {
    InsertedClosed(a, b, k, n, line, section);
    if p < k {
      SameFirst(a, b, k, section, p, q);
    } else {
      NoneAbove(a, b, k, section);
      InsertedIsNoHeading(b, k, n, line, section);
      ShiftedNameLine(a, b, k, n, p, section);
      forall m | k + n <= m < p + n ensures NameLine(b, m, section).None? {
        ShiftedNameLine(a, b, k, n, m - n, section);
      }
    }
  }

  lemma InsertedNone(a: seq<string>, b: seq<string>, k: nat, n: nat, line: string, section: string)
    requires Ended(a, section) && Inserted(a, b, k, n, line) && AtSectionEnd(a, k) && Inert(line) && Plain(section)
    requires FindFrom(a, 0, section).None?
    ensures SectionFrom(b, 0, section).None?
  {
    InsertedClosed(a, b, k, n, line, section);
    NoneAbove(a, b, k, section);
    InsertedIsNoHeading(b, k, n, line, section);
    forall m | k + n <= m < |b| ensures NameLine(b, m, section).None? {
      ShiftedNameLine(a, b, k, n, m - n, section);
    }
    NotFound(b, section);
  }

  lemma InsertedHeadings(a: seq<string>, b: seq<string>, k: nat, n: nat, line: string, section: string)
    requires Ended(a, section) && Inserted(a, b, k, n, line) && Inert(line) && Plain(section)
    ensures forall m :: 0 <= m < k ==> IsHeading(b, m) == IsHeading(a, m)
    ensures forall m :: k <= m < |a| ==> IsHeading(b, m + n) == IsHeading(a, m)
    ensures forall m :: k <= m < k + n ==> !IsHeading(b, m)
  {
    BlankIsNoHeader(a[|a| - 1], section);
    InsertedIsNoHeading(b, k, n, line, section);
  }

  lemma BodyMovedDown(a: seq<string>, b: seq<string>, k: nat, n: nat, line: string, section: string, p: nat, s: Section)
    requires Ended(a, section) && Inserted(a, b, k, n, line) && Inert(line) && Plain(section)
    requires Stands(a, section, p, s) && k <= p && FirstAt(b, section, p + n, s.name + n)
    ensures Stands(b, section, p + n, Section(s.name + n, s.start + n, s.end + n))
    ensures IsHeading(b, s.start + n) == IsHeading(a, s.start)
  {
    InsertedHeadings(a, b, k, n, line, section);
    forall m | s.name + n < m < s.start + n ensures Blank(b[m]) {
      assert b[m - n + n] == a[m - n];
    }
    forall m | s.start + n < m < s.end + n ensures !IsHeading(b, m) {
      assert IsHeading(b, m - n + n) == IsHeading(a, m - n);
    }
  }

  lemma MovedDown(a: seq<string>, b: seq<string>, k: nat, n: nat, line: string, section: string, p: nat, s: Section)
    requires Ended(a, section) && Inserted(a, b, k, n, line) && AtSectionEnd(a, k) && Inert(line) && Plain(section)
    requires Stands(a, section, p, s) && k <= p
    ensures SectionFrom(b, 0, section) == Some(Section(s.name + n, s.start + n, s.end + n))
    ensures b[s.start + n] == a[s.start] && IsHeading(b, s.start + n) == IsHeading(a, s.start)
  {
    InsertedFirst(a, b, k, n, line, section, p, s.name);
    BodyMovedDown(a, b, k, n, line, section, p, s);
    Standing(b, section, p + n, Section(s.name + n, s.start + n, s.end + n));
  }

  lemma EndMoved(a: seq<string>, b: seq<string>, k: nat, n: nat, line: string, section: string, from: nat, end: nat)
    requires Ended(a, section) && Inserted(a, b, k, n, line) && Inert(line) && Plain(section)
    requires from < end <= |a| && from < k
    requires forall m :: from < m < end ==> !IsHeading(a, m)
    requires end < |a| ==> IsHeading(a, end)
    ensures var end' := if k <= end then end + n else end;
            && (forall m :: from < m < end' ==> !IsHeading(b, m))
            && (end' < |b| ==> IsHeading(b, end'))
  {
    InsertedHeadings(a, b, k, n, line, section);
    var end' := if k <= end then end + n else end;
    forall m | from < m < end' ensures !IsHeading(b, m) {
      if m >= k + n {
        assert IsHeading(b, m - n + n) == IsHeading(a, m - n);
      }
    }
  }

  lemma EndsBelow(a: seq<string>, b: seq<string>, k: nat, n: nat, line: string, section: string, p: nat, s: Section)
    requires Ended(a, section) && Inserted(a, b, k, n, line) && AtSectionEnd(a, k) && Inert(line) && Plain(section)
    requires Stands(a, section, p, s) && !IsHeading(a, s.start) && p < k && !Blank(a[s.start])
    ensures s.name < k && s.start < k
    ensures SectionFrom(b, 0, section) == Some(Section(s.name, s.start, if k <= s.end then s.end + n else s.end))
    ensures b[s.start] == a[s.start] && !IsHeading(b, s.start)
  {
    InsertedFirst(a, b, k, n, line, section, p, s.name);
    TextBeforeSectionEnd(a, k, s);
    EndMoved(a, b, k, n, line, section, s.start, s.end);
    Standing(b, section, p, Section(s.name, s.start, if k <= s.end then s.end + n else s.end));
  }

  /** A body that is one blank last line. */
  lemma StartsWithAdded(a: seq<string>, b: seq<string>, k: nat, n: nat, line: string, section: string, p: nat, s: Section)
    requires Ended(a, section) && Inserted(a, b, k, n, line) && AtSectionEnd(a, k) && Inert(line) && Plain(section)
    requires Stands(a, section, p, s) && p < k && Blank(a[s.start])
    ensures s.name < k
    ensures SectionFrom(b, 0, section) == Some(Section(s.name, k, s.end + n))
    ensures !Blank(b[k]) && !IsHeading(b, k)
  {
    InsertedFirst(a, b, k, n, line, section, p, s.name);
    InsertedHeadings(a, b, k, n, line, section);
    InertIsNoHeader(line, section);
    BlankIsNoHeader(a[|a| - 1], section);
    forall m | k < m < |b| ensures !IsHeading(b, m) {
      if m >= k + n {
        assert IsHeading(b, m - n + n) == IsHeading(a, m - n);
        assert m - n >= s.start ==> !IsHeading(a, m - n);
      }
    }
    Standing(b, section, p, Section(s.name, k, s.end + n));
  }

  lemma TextBeforeSectionEnd(a: seq<string>, k: nat, s: Section)
    requires AtSectionEnd(a, k) && s.name < k && s.name < s.start < s.end <= |a|
    requires forall m :: s.name < m < s.start ==> Blank(a[m])
    requires Blank(a[s.start]) ==> s.start == |a| - 1
    requires !IsHeading(a, s.start)
    ensures !Blank(a[s.start]) ==> s.start < k
  {
    var r := NextText(a, k);
    assert k <= s.start && !Blank(a[s.start]) ==> r == s.start;
  }

  lemma ShownBelow(a: seq<string>, b: seq<string>, k: nat, n: nat, line: string, s: Section, f: Edit)
    requires Inserted(a, b, k, n, line) && !BulletFor(line, f.name)
    requires s.start < s.end <= |a| && s.start < k && Shows(a, f, s.start, s.end)
    ensures Shows(b, f, s.start, if k <= s.end then s.end + n else s.end)
  {
    var end := if k <= s.end then s.end + n else s.end;
    var m :| s.start <= m < s.end && a[m] == f.line;
    assert m >= k ==> b[m + n] == a[m];
    assert b[if m < k then m else m + n] == f.line;
    forall i | s.start <= i < end && BulletFor(b[i], f.name) ensures b[i] == f.line {
      if i >= k + n {
        assert b[i - n + n] == a[i - n];
      }
    }
  }

  lemma ShownDown(a: seq<string>, b: seq<string>, k: nat, n: nat, s: Section, f: Edit)
    requires |b| == |a| + n && forall m :: k <= m < |a| ==> b[m + n] == a[m]
    requires k <= s.start < s.end <= |a| && Shows(a, f, s.start, s.end)
    ensures Shows(b, f, s.start + n, s.end + n)
  {
    var m :| s.start <= m < s.end && a[m] == f.line;
    assert b[m + n] == f.line;
    forall i | s.start + n <= i < s.end + n && BulletFor(b[i], f.name) ensures b[i] == f.line {
      assert b[i - n + n] == a[i - n];
    }
  }

  lemma InsertedEnds(a: seq<string>, b: seq<string>, k: nat, n: nat, line: string, section: string)
    requires Ended(a, section) && Inserted(a, b, k, n, line) && Plain(section)
    ensures Ended(b, section)
  {
    if k < |a| {
      assert b[|a| - 1 + n] == a[|a| - 1];
    } else {
      EndedByLineEnd(b, section);
    }
  }

  lemma DoneFrom(ls: seq<string>, f: Edit, s: Section)
    requires Ended(ls, f.section)
    requires SectionFrom(ls, 0, f.section) == Some(s)
    requires !Blank(ls[s.start]) && !IsHeading(ls, s.start) && Shows(ls, f, s.start, s.end)
    ensures Done(ls, f)
  {
  }

  lemma DoneMovesDown(a: seq<string>, b: seq<string>, k: nat, n: nat, line: string, f: Edit, p: nat, s: Section)
    requires Ended(a, f.section) && Inserted(a, b, k, n, line) && AtSectionEnd(a, k) && Inert(line) && Plain(f.section)
    requires Stands(a, f.section, p, s) && k <= p
    requires !Blank(a[s.start]) && !IsHeading(a, s.start) && Shows(a, f, s.start, s.end)
    ensures Done(b, f)
  {
    MovedDown(a, b, k, n, line, f.section, p, s);
    ShownDown(a, b, k, n, s, f);
    InsertedEnds(a, b, k, n, line, f.section);
    DoneFrom(b, f, Section(s.name + n, s.start + n, s.end + n));
  }

  lemma DoneStaysAbove(a: seq<string>, b: seq<string>, k: nat, n: nat, line: string, f: Edit, p: nat, s: Section)
    requires Ended(a, f.section) && Inserted(a, b, k, n, line) && AtSectionEnd(a, k) && Inert(line) && Plain(f.section)
    requires !BulletFor(line, f.name) && Stands(a, f.section, p, s) && p < k
    requires !Blank(a[s.start]) && !IsHeading(a, s.start) && Shows(a, f, s.start, s.end)
    ensures Done(b, f)
  {
    EndsBelow(a, b, k, n, line, f.section, p, s);
    ShownBelow(a, b, k, n, line, s, f);
    InsertedEnds(a, b, k, n, line, f.section);
    DoneFrom(b, f, Section(s.name, s.start, if k <= s.end then s.end + n else s.end));
  }

  lemma InsertingKeepsDone(a: seq<string>, b: seq<string>, k: nat, n: nat, line: string, f: Edit)
    requires Ended(a, f.section) && Inserted(a, b, k, n, line) && AtSectionEnd(a, k) && Inert(line) && Plain(f.section)
    requires !BulletFor(line, f.name) && Done(a, f)
    ensures Done(b, f)
  {
    var p, s := Found(a, f.section);
    if k <= p {
      DoneMovesDown(a, b, k, n, line, f, p, s);
    } else {
      DoneStaysAbove(a, b, k, n, line, f, p, s);
    }
  }

  /** Wherever the line goes, a section that did not start with a heading does not start with one
      now, and still starts with text if it did. */
  lemma InsertingKeepsStart(a: seq<string>, b: seq<string>, k: nat, n: nat, line: string, section: string, p: nat, s: Section)
    requires Ended(a, section) && Inserted(a, b, k, n, line) && AtSectionEnd(a, k) && Inert(line) && Plain(section)
    requires Stands(a, section, p, s) && !IsHeading(a, s.start)
    ensures var found := SectionFrom(b, 0, section);
            && found.Some? && !IsHeading(b, found.value.start)
            && (Blank(b[found.value.start]) ==> Blank(a[s.start]))
  {
    if k <= p {
      MovedDown(a, b, k, n, line, section, p, s);
    } else if Blank(a[s.start]) {
      StartsWithAdded(a, b, k, n, line, section, p, s);
    } else {
      EndsBelow(a, b, k, n, line, section, p, s);
    }
  }

  lemma InsertingKeepsReady(a: seq<string>, b: seq<string>, k: nat, n: nat, line: string, f: Edit, noneMissing: bool)
    requires Ended(a, f.section) && Inserted(a, b, k, n, line) && AtSectionEnd(a, k) && Inert(line) && Plain(f.section)
    requires Ready(a, f, noneMissing)
    ensures Ready(b, f, noneMissing)
  {
    InsertedEnds(a, b, k, n, line, f.section);
    if FindFrom(a, 0, f.section).None? {
      InsertedNone(a, b, k, n, line, f.section);
    } else {
      var p, s := Found(a, f.section);
      InsertingKeepsStart(a, b, k, n, line, f.section, p, s);
    }
  }

  lemma ShownAdded(a: seq<string>, b: seq<string>, from: nat, k: nat, n: nat, s: Section, e: Edit)
    requires Inserted(a, b, k, n, e.line) && s.start < s.end <= |a| && k <= s.end
    requires !HasBullet(a[s.start..s.end], e.name)
    requires s.start < k && (from == s.start || from == k)
    ensures Shows(b, e, from, s.end + n)
  {
    assert b[k] == e.line;
    forall j | s.start <= j < s.end ensures !BulletFor(a[j], e.name) {
      assert a[j] == a[s.start..s.end][j - s.start];
    }
    forall i | from <= i < s.end + n && i != k ensures !BulletFor(b[i], e.name) {
      assert i >= k + n ==> b[i - n + n] == a[i - n];
    }
  }

  lemma InsertingDoes(a: seq<string>, b: seq<string>, p: nat, s: Section, k: nat, n: nat, e: Edit)
    requires Ended(a, e.section) && Inserted(a, b, k, n, e.line) && AtSectionEnd(a, k) && Inert(e.line) && Plain(e.section)
    requires Stands(a, e.section, p, s) && !IsHeading(a, s.start) && s.start < k <= s.end
    requires !HasBullet(a[s.start..s.end], e.name)
    ensures Done(b, e)
  {
    InsertedEnds(a, b, k, n, e.line, e.section);
    if Blank(a[s.start]) {
      StartsWithAdded(a, b, k, n, e.line, e.section, p, s);
      ShownAdded(a, b, k, k, n, s, e);
    } else {
      EndsBelow(a, b, k, n, e.line, e.section, p, s);
      ShownAdded(a, b, s.start, k, n, s, e);
    }
  }

  // ----- Adding a section ------------------------------------------------------------------

  lemma {:induction false} StripRightIs(x: string)
    ensures var t := StripRight(x, IsSpace);
            && |t| <= |x| && t == x[..|t|]
            && (forall i :: |t| <= i < |x| ==> IsSpace(x[i]))
            && (t != "" ==> !IsSpace(t[|t| - 1]))
  {
    if x != "" && IsSpace(x[|x| - 1]) {
      StripRightIs(x[..|x| - 1]);
    }
  }

  ghost predicate Strips(x: string, t: string) {
    && |t| <= |x| && t == x[..|t|]
    && (forall i :: |t| <= i < |x| ==> IsSpace(x[i]))
    && (t != "" ==> !IsSpace(t[|t| - 1]))
  }

  lemma BlankAt(s: string, i: nat, j: nat)
    requires i <= j <= |s|
    ensures Blank(s[i..j]) <==> forall k :: i <= k < j ==> IsSpace(s[k])
  {
    assert forall k :: i <= k < j ==> s[k] == s[i..j][k - i];
  }

  lemma StrippedCut(x: string, t: string, section: string, o: int, a: int)
    requires Strips(x, t) && Plain(section)
    ensures HeaderCut(x, section, o, a) == HeaderCut(t, section, o, a)
  {
    if 0 <= o && o + 2 < a && a + |section| <= |x| {
      assert x[a..a + |section|] == section ==> x[a + |section| - 1] == section[|section| - 1];
      if a + |section| <= |t| {
        assert t[o + 2..a] == x[o + 2..a] && t[a..a + |section|] == x[a..a + |section|];
        BlankAt(x, a + |section|, |x|);
        BlankAt(t, a + |section|, |t|);
        assert x[a + |section|..|x|] == x[a + |section|..] && t[a + |section|..|t|] == t[a + |section|..];
      }
    }
  }

  lemma StrippedName(x: string, t: string, section: string, a: int)
    requires Strips(x, t) && Plain(section)
    ensures NameCut(x, section, a) == NameCut(t, section, a)
  {
    if 0 <= a && a + |section| <= |x| {
      assert x[a..a + |section|] == section ==> x[a + |section| - 1] == section[|section| - 1];
      if a + |section| <= |t| {
        assert t[..a] == x[..a] && t[a..a + |section|] == x[a..a + |section|];
        BlankAt(x, a + |section|, |x|);
        BlankAt(t, a + |section|, |t|);
        assert x[a + |section|..|x|] == x[a + |section|..] && t[a + |section|..|t|] == t[a + |section|..];
      }
    }
  }

  lemma StrippedMarks(x: string, t: string)
    requires Strips(x, t)
    ensures forall o :: MarksAt(x, o) == MarksAt(t, o)
    ensures EndsInMarks(x) == EndsInMarks(t) && Blank(x) == Blank(t)
  {
    forall o | MarksAt(x, o) ensures MarksAt(t, o) && Blank(x[o + 2..]) == Blank(t[o + 2..]) {
      assert !IsSpace(x[o + 1]) && o + 1 < |t|;
      BlankAt(x, o + 2, |x|);
      BlankAt(t, o + 2, |t|);
      assert x[o + 2..|x|] == x[o + 2..] && t[o + 2..|t|] == t[o + 2..];
    }
  }

  lemma StrippedRole(x: string, t: string, section: string)
    requires Strips(x, t) && Plain(section)
    ensures SameRole(x, t, section)
  {
    StrippedMarks(x, t);
    forall o, a ensures HeaderCut(x, section, o, a) == HeaderCut(t, section, o, a) {
      StrippedCut(x, t, section, o, a);
    }
    forall a ensures NameCut(x, section, a) == NameCut(t, section, a) {
      StrippedName(x, t, section, a);
    }
    SameCuts(x, t, section);
  }

  lemma SameCuts(x: string, t: string, section: string)
    requires forall o, a :: HeaderCut(x, section, o, a) == HeaderCut(t, section, o, a)
    requires forall a :: NameCut(x, section, a) == NameCut(t, section, a)
    ensures EndsInHeader(x, section) == EndsInHeader(t, section)
    ensures IsNameLine(x, section) == IsNameLine(t, section)
  {
  }

  lemma StrippedBullet(x: string, t: string, name: string)
    requires Strips(x, t)
    ensures BulletFor(t, name) ==> BulletFor(x, name)
    ensures Inert(x) ==> Inert(t)
    ensures IsFence(t) ==> IsFence(x)
  {
    assert forall i :: 0 <= i < |t| ==> t[i] == x[i];
    if BulletFor(t, name) {
      assert t[3..3 + |name|] == x[3..3 + |name|];
      var k :| 4 + |name| <= k < |t| && t[k] == '`';
      assert x[k] == '`';
    }
    if Inert(x) {
      var k :| ClosedAt(x, k);
      StrippedMarks(x, t);
      assert !IsSpace('`') && ClosedAt(t, k);
    }
    assert IsFence(t) ==> t[..3] == x[..3];
  }

  /** `b` is `a` without trailing space, and a new section's heading. */
  ghost predicate Extended(a: seq<string>, b: seq<string>, n: nat, section: string) {
    && 0 < n <= |a| && |b| == n + 4
    && (forall m :: 0 <= m < n ==> b[m] == a[m] || Strips(a[m], b[m]))
    && (forall m :: n <= m < |a| ==> Blank(a[m]))
    && b[n] == "" && b[n + 1] == "## " + section && b[n + 2] == "" && b[n + 3] == ""
  }

  lemma StubExtends(a: seq<string>, section: string)
    requires a != []
    ensures Extended(a, Stubbed(a, section), |WithoutTrailingSpace(a)|, section)
  {
    var t := WithoutTrailingSpace(a);
    var b := Stubbed(a, section);
    StripRightIs(a[|t| - 1]);
    assert b == t + ["", "## " + section, "", ""];
    assert forall m :: 0 <= m < |t| ==> b[m] == t[m];
  }

  lemma NewHeading(line: string, section: string, other: string)
    requires line == "## " + section && Plain(section) && Plain(other)
    ensures EndsInHeader(line, other) <==> section == other
    ensures !EndsInMarks(line) && MarksAt(line, 0) && !Blank(line) && !IsNameLine(line, other)
  {
    NewHeadingMarks(line, section);
    MarksAreNoName(line, other);
    if section == other {
      assert line[3..3 + |section|] == section && line[3 + |section|..] == "";
      assert HeaderCut(line, section, 0, 3);
    } else {
      forall o, a ensures !HeaderCut(line, other, o, a) {
        OnlyItsOwnCut(line, section, other, o, a);
      }
    }
  }

  lemma NewHeadingMarks(line: string, section: string)
    requires line == "## " + section && Plain(section)
    ensures forall o :: MarksAt(line, o) <==> o == 0
    ensures !EndsInMarks(line) && !Blank(line)
  {
    assert !IsSpace(line[0]) && line[3] == section[0];
    forall o ensures MarksAt(line, o) <==> o == 0 {
      assert 3 <= o < |line| - 1 ==> (MarksAt(line, o) <==> MarksAt(section, o - 3));
    }
    BlankAt(line, 2, |line|);
    assert line[2..|line|] == line[2..];
  }

  lemma OnlyItsOwnCut(line: string, section: string, other: string, o: int, a: int)
    requires line == "## " + section && Plain(section) && Plain(other) && section != other
    ensures !HeaderCut(line, other, o, a)
  {
    NewHeadingMarks(line, section);
    if o == 0 && 2 < a && a + |other| <= |line| {
      BlankAt(line, 2, a);
      BlankAt(line, a + |other|, |line|);
      assert line[a + |other|..|line|] == line[a + |other|..];
      assert line[3] == section[0] && line[|line| - 1] == section[|section| - 1];
      assert a == 3 && a + |other| == |line| ==> line[a..a + |other|] == section;
    }
  }

  lemma ExtendedRoles(a: seq<string>, b: seq<string>, n: nat, section: string, other: string)
    requires Ended(a, other) && Extended(a, b, n, section) && Plain(section) && Plain(other)
    ensures Closed(a, n, other) && Closed(b, n, other)
    ensures forall m :: 0 <= m < n ==> SameRole(a[m], b[m], other)
    ensures forall m :: n <= m < |a| ==> NameLine(a, m, other).None?
    ensures forall m :: n <= m < |b| ==> NameLine(b, m, other) == if section == other && m == n + 1 then Some(m) else None
  {
    forall m | 0 <= m < n ensures SameRole(a[m], b[m], other) {
      if b[m] != a[m] {
        StrippedRole(a[m], b[m], other);
      }
    }
    forall m | n <= m < |a| ensures NameLine(a, m, other).None? {
      BlankIsNoHeader(a[m], other);
    }
    NewHeading(b[n + 1], section, other);
    BlankIsNoHeader(b[n], other);
    assert NextText(a, n) == |a|;
    assert NextText(b, n) == n + 1;
  }

  lemma ExtendedHeadings(a: seq<string>, b: seq<string>, n: nat, section: string)
    requires a != [] && a[|a| - 1] != "##" && Extended(a, b, n, section) && Plain(section)
    ensures forall m :: 0 <= m < n ==> IsHeading(b, m) == IsHeading(a, m)
    ensures forall m :: n <= m < |a| ==> !IsHeading(a, m)
    ensures forall m :: n <= m < |b| ==> IsHeading(b, m) == (m == n + 1)
  {
    forall m | 0 <= m < n ensures IsHeading(b, m) == IsHeading(a, m) {
      BlankIsNoHeader(a[m], section);
      if b[m] != a[m] {
        StrippedMarks(a[m], b[m]);
      }
    }
    forall m | n <= m < |a| ensures !IsHeading(a, m) {
      BlankIsNoHeader(a[m], section);
    }
    NewHeadingMarks(b[n + 1], section);
    assert IsSpace(' ') && b[n + 1][2] == ' ';
  }

  lemma ExtendedStands(a: seq<string>, b: seq<string>, n: nat, section: string, other: string, p: nat, s: Section)
    requires Ended(a, other) && Extended(a, b, n, section) && Plain(section) && Plain(other)
    requires Stands(a, other, p, s) && !Blank(a[s.start]) && !IsHeading(a, s.start)
    ensures s.start < n
    ensures SectionFrom(b, 0, other) == Some(Section(s.name, s.start, if s.end < n then s.end else n + 1))
    ensures !Blank(b[s.start]) && !IsHeading(b, s.start)
  {
    ExtendedRoles(a, b, n, section, other);
    ExtendedHeadings(a, b, n, section);
    SameFirst(a, b, n, other, p, s.name);
    assert forall m :: 0 <= m < n ==> Blank(a[m]) == Blank(b[m]);
    assert s.end < |a| ==> s.end < n;
    Standing(b, other, p, Section(s.name, s.start, if s.end < n then s.end else n + 1));
  }

  lemma ExtendedNone(a: seq<string>, b: seq<string>, n: nat, section: string, other: string)
    requires Ended(a, other) && Extended(a, b, n, section) && Plain(section) && Plain(other) && section != other
    requires FindFrom(a, 0, other).None?
    ensures SectionFrom(b, 0, other).None?
  {
    ExtendedRoles(a, b, n, section, other);
    NoneAbove(a, b, n, other);
    NotFound(b, other);
  }

  lemma ExtendedHasNew(a: seq<string>, b: seq<string>, n: nat, section: string)
    requires Ended(a, section) && Extended(a, b, n, section) && Plain(section) && FindFrom(a, 0, section).None?
    ensures Stands(b, section, n + 1, Section(n + 1, n + 3, n + 4))
    ensures SectionFrom(b, 0, section) == Some(Section(n + 1, n + 3, n + 4))
  {
    ExtendedRoles(a, b, n, section, section);
    ExtendedHeadings(a, b, n, section);
    NoneAbove(a, b, n, section);
    Standing(b, section, n + 1, Section(n + 1, n + 3, n + 4));
  }

  lemma ShownStripped(a: seq<string>, b: seq<string>, n: nat, section: string, s: Section, f: Edit)
    requires Extended(a, b, n, section) && s.start < s.end <= |a| && s.start < n
    requires Shows(a, f, s.start, s.end) && f.line != "" && !IsSpace(f.line[|f.line| - 1])
    ensures Shows(b, f, s.start, if s.end < n then s.end else n + 1)
  {
    var m :| s.start <= m < s.end && a[m] == f.line;
    assert IsSpace(f.line[|f.line| - 1]) || m < n;
    assert b[m] == f.line;
    forall i | s.start <= i < n && i < s.end && BulletFor(b[i], f.name) ensures b[i] == f.line {
      if b[i] != a[i] {
        StrippedBullet(a[i], b[i], f.name);
      }
    }
  }

  lemma ExtendingKeepsDone(a: seq<string>, b: seq<string>, n: nat, section: string, f: Edit)
    requires Ended(a, f.section) && Extended(a, b, n, section) && Plain(section) && Plain(f.section)
    requires Done(a, f) && f.line != "" && !IsSpace(f.line[|f.line| - 1])
    ensures Done(b, f)
  {
    var p, s := Found(a, f.section);
    ExtendedStands(a, b, n, section, f.section, p, s);
    ShownStripped(a, b, n, section, s, f);
    EndedByLineEnd(b, f.section);
    DoneFrom(b, f, Section(s.name, s.start, if s.end < n then s.end else n + 1));
  }

  lemma ExtendingKeepsReady(a: seq<string>, b: seq<string>, n: nat, section: string, f: Edit)
    requires Ended(a, f.section) && Extended(a, b, n, section) && Plain(section) && Plain(f.section) && section != f.section
    requires Ready(a, f, false)
    ensures Ready(b, f, false)
  {
    EndedByLineEnd(b, f.section);
    if FindFrom(a, 0, f.section).None? {
      ExtendedNone(a, b, n, section, f.section);
    } else {
      var p, s := Found(a, f.section);
      ExtendedStands(a, b, n, section, f.section, p, s);
    }
  }

  lemma ExtendingStaysSound(a: seq<string>, b: seq<string>, n: nat, section: string)
    requires Sound(a) && Extended(a, b, n, section) && Plain(section)
    ensures Sound(b)
  {
    forall m | 0 <= m < n ensures '\n' !in b[m] && !IsFence(b[m]) {
      if b[m] != a[m] {
        StrippedBullet(a[m], b[m], "");
        assert forall i :: 0 <= i < |b[m]| ==> b[m][i] == a[m][i] && a[m][i] in a[m];
      }
    }
    assert b[n + 1][0] == '#' && !IsFence(b[n + 1]);
  }

  lemma ExtendingKeepsInert(a: seq<string>, b: seq<string>, n: nat, section: string, name: string)
    requires Extended(a, b, n, section) && BulletsInert(a, name)
    ensures BulletsInert(b, name)
  {
    forall m | 0 <= m < |b| && BulletFor(b[m], name) ensures Inert(b[m]) {
      assert m < n;
      if b[m] != a[m] {
        StrippedBullet(a[m], b[m], name);
      }
    }
  }

  // ----- One edit --------------------------------------------------------------------------

  /** What patching a text in which the section stands does: rewrite the variable's bullets, or add
      one at the section's end. */
  ghost predicate Step(a: seq<string>, b: seq<string>, s: Section, e: Edit) {
    && s.start < s.end <= |a|
    && if HasBullet(a[s.start..s.end], e.name) then Rebulleted(a, b, s.start, s.end, e.name, e.line)
       else exists k, n :: Added(a, b, s, k, n, e)
  }

  ghost predicate Added(a: seq<string>, b: seq<string>, s: Section, k: nat, n: nat, e: Edit) {
    Inserted(a, b, k, n, e.line) && AtSectionEnd(a, k) && s.start < k <= s.end
  }

  lemma EndIsBetween(a: seq<string>, section: string, p: nat, s: Section)
    requires Stands(a, section, p, s)
    ensures AtSectionEnd(a, s.end)
    ensures Blank(a[s.end - 1]) ==> AtSectionEnd(a, s.end - 1)
  {
    assert s.end < |a| ==> !Blank(a[s.end]);
    assert NextText(a, s.end) == s.end;
    assert Blank(a[s.end - 1]) ==> NextText(a, s.end - 1) == s.end;
  }

  lemma AppendedBeforeLineEnd(a: seq<string>, start: nat, end: nat, line: string)
    requires start + 1 < end <= |a| && a[end - 1] == ""
    ensures a[..start] + Appended(a[start..end], line) + a[end..] == a[..end - 1] + [line] + a[end - 1..]
  {
    var body := a[start..end];
    assert body[|body| - 1] == a[end - 1];
    assert body[..|body| - 1] == a[start..end - 1];
    assert a[..start] + a[start..end - 1] == a[..end - 1];
    assert [""] + a[end..] == a[end - 1..];
  }

  lemma AppendedAfterText(a: seq<string>, start: nat, end: nat, line: string)
    requires start < end <= |a| && (start + 1 == end || a[end - 1] != "")
    ensures a[..start] + Appended(a[start..end], line) + a[end..] == a[..end] + [line, ""] + a[end..]
  {
    assert a[start..end][end - start - 1] == a[end - 1];
    assert a[..start] + a[start..end] == a[..end];
  }

  lemma AppendingAdds(a: seq<string>, section: string, p: nat, s: Section, e: Edit)
    requires Stands(a, section, p, s)
    ensures exists k, n :: Added(a, a[..s.start] + Appended(a[s.start..s.end], e.line) + a[s.end..], s, k, n, e)
  {
    var b := a[..s.start] + Appended(a[s.start..s.end], e.line) + a[s.end..];
    EndIsBetween(a, section, p, s);
    if s.start + 1 < s.end && a[s.end - 1] == "" {
      AppendedBeforeLineEnd(a, s.start, s.end, e.line);
      assert Added(a, b, s, s.end - 1, 1, e);
    } else {
      AppendedAfterText(a, s.start, s.end, e.line);
      assert Added(a, b, s, s.end, 2, e);
    }
  }

  lemma ReplacingRebullets(a: seq<string>, s: Section, e: Edit)
    requires s.start < s.end <= |a|
    ensures Rebulleted(a, a[..s.start] + Replaced(a[s.start..s.end], e.name, e.line) + a[s.end..],
                       s.start, s.end, e.name, e.line)
  {
  }

  lemma PatchingSteps(a: seq<string>, e: Edit, p: nat, s: Section, expand: string -> Option<string>)
    requires Sound(a) && Stands(a, e.section, p, s) && expand(e.line) == Some(e.line)
    ensures var r := PatchSection(a, Some(s), e, expand); r.Ok? && Step(a, r.value, s, e)
  {
    AppendingAdds(a, e.section, p, s, e);
    ReplacingRebullets(a, s, e);
  }

  lemma StepDoes(a: seq<string>, b: seq<string>, p: nat, s: Section, e: Edit, expand: string -> Option<string>)
    requires Ended(a, e.section) && WellFormed(e, expand) && BulletsInert(a, e.name)
    requires Stands(a, e.section, p, s) && !IsHeading(a, s.start) && Step(a, b, s, e)
    ensures Done(b, e)
  {
    Standing(a, e.section, p, s);
    if HasBullet(a[s.start..s.end], e.name) {
      ReplacingDoes(a, b, s, e);
    } else {
      var k: nat, n: nat :| Added(a, b, s, k, n, e);
      InsertingDoes(a, b, p, s, k, n, e);
    }
  }

  lemma StepStaysSound(a: seq<string>, b: seq<string>, s: Section, e: Edit, expand: string -> Option<string>)
    requires Sound(a) && WellFormed(e, expand) && Step(a, b, s, e)
    ensures Sound(b)
  {
    if HasBullet(a[s.start..s.end], e.name) {
      ReplacingStaysSound(a, b, s.start, s.end, e, expand);
    } else {
      var k: nat, n: nat :| Added(a, b, s, k, n, e);
      InsertingStaysSound(a, b, k, n, e.line);
    }
  }

  lemma InsertingStaysSound(a: seq<string>, b: seq<string>, k: nat, n: nat, line: string)
    requires Sound(a) && Inserted(a, b, k, n, line) && Inert(line) && '\n' !in line
    ensures Sound(b)
  {
    forall m | 0 <= m < |b| ensures '\n' !in b[m] && !IsFence(b[m]) {
      assert m >= k + n ==> b[m - n + n] == a[m - n];
    }
    assert k < |a| ==> b[|a| - 1 + n] == a[|a| - 1];
  }

  lemma StepKeepsInert(a: seq<string>, b: seq<string>, s: Section, e: Edit, name: string, expand: string -> Option<string>)
    requires Sound(a) && WellFormed(e, expand) && Step(a, b, s, e) && BulletsInert(a, name)
    ensures BulletsInert(b, name)
  {
    if !HasBullet(a[s.start..s.end], e.name) {
      var k: nat, n: nat :| Added(a, b, s, k, n, e);
      InsertingKeepsInert(a, b, k, n, e.line, name);
    }
  }

  lemma InsertingKeepsInert(a: seq<string>, b: seq<string>, k: nat, n: nat, line: string, name: string)
    requires Inserted(a, b, k, n, line) && Inert(line) && BulletsInert(a, name)
    ensures BulletsInert(b, name)
  {
    forall m | 0 <= m < |b| && BulletFor(b[m], name) ensures Inert(b[m]) {
      assert m >= k + n ==> b[m - n + n] == a[m - n];
    }
  }

  /** What one edit did, no other undoes. */
  lemma StepKeepsDone(a: seq<string>, b: seq<string>, s: Section, e: Edit, f: Edit, expand: string -> Option<string>)
    requires Sound(a) && WellFormed(e, expand) && WellFormed(f, expand) && e.name != f.name
    requires BulletsInert(a, e.name) && Step(a, b, s, e) && Done(a, f)
    ensures Done(b, f)
  {
    if HasBullet(a[s.start..s.end], e.name) {
      ReplacingKeeps(a, b, s.start, s.end, e, f, false, expand);
    } else {
      var k: nat, n: nat :| Added(a, b, s, k, n, e);
      if BulletFor(e.line, f.name) {
        OneNamePerBullet(e.line, e.name, f.name);
      }
      InsertingKeepsDone(a, b, k, n, e.line, f);
    }
  }

  lemma StepKeepsReady(a: seq<string>, b: seq<string>, s: Section, e: Edit, f: Edit, noneMissing: bool,
                       expand: string -> Option<string>)
    requires Sound(a) && WellFormed(e, expand) && WellFormed(f, expand) && e.name != f.name
    requires BulletsInert(a, e.name) && Step(a, b, s, e) && Ready(a, f, noneMissing)
    ensures Ready(b, f, noneMissing)
  {
    if HasBullet(a[s.start..s.end], e.name) {
      ReplacingKeeps(a, b, s.start, s.end, e, f, noneMissing, expand);
    } else {
      var k: nat, n: nat :| Added(a, b, s, k, n, e);
      InsertingKeepsReady(a, b, k, n, e.line, f, noneMissing);
    }
  }

  // ----- A whole patch ---------------------------------------------------------------------

  /** The text is fit for the edits still to come. */
  ghost predicate Clear(ls: seq<string>, edits: seq<Edit>, noneMissing: bool, expand: string -> Option<string>) {
    && Sound(ls)
    && forall e :: e in edits ==> WellFormed(e, expand) && BulletsInert(ls, e.name) && Ready(ls, e, noneMissing)
  }

  ghost predicate Distinct(edits: seq<Edit>) {
    forall i, j :: 0 <= i < j < |edits| ==> edits[i].name != edits[j].name
  }

  /** The text the edit is made in: itself, or with the missing section added. */
  lemma BaseOf(a: seq<string>, e: Edit, noneMissing: bool, expand: string -> Option<string>)
    returns (base: seq<string>, p: nat, s: Section, b: seq<string>)
    requires Sound(a) && WellFormed(e, expand) && Ready(a, e, noneMissing)
    ensures PatchOne(a, e, expand) == Ok(b)
    ensures Sound(base) && Ended(base, e.section)
    ensures Stands(base, e.section, p, s) && !IsHeading(base, s.start) && Step(base, b, s, e)
    ensures base == a || (!noneMissing && SectionFrom(a, 0, e.section).None?
                          && Extended(a, base, |WithoutTrailingSpace(a)|, e.section))
  {
    FindInSound(a, e.section);
    if FindFrom(a, 0, e.section).Some? {
      base := a;
      p, s := Found(a, e.section);
    } else {
      base := Stubbed(a, e.section);
      var n := |WithoutTrailingSpace(a)|;
      StubExtends(a, e.section);
      ExtendingStaysSound(a, base, n, e.section);
      ExtendedHasNew(a, base, n, e.section);
      ExtendedHeadings(a, base, n, e.section);
      p, s := n + 1, Section(n + 1, n + 3, n + 4);
      EndedByLineEnd(base, e.section);
      FindInSound(base, e.section);
    }
    PatchingSteps(base, e, p, s, expand);
    b := PatchSection(base, Some(s), e, expand).value;
  }

  /** One edit is made, and stays made. */
  lemma PatchOneDoes(a: seq<string>, e: Edit, noneMissing: bool, expand: string -> Option<string>)
    requires Sound(a) && WellFormed(e, expand) && BulletsInert(a, e.name) && Ready(a, e, noneMissing)
    ensures var r := PatchOne(a, e, expand); r.Ok? && Sound(r.value) && Done(r.value, e)
  {
    var base, p, s, b := BaseOf(a, e, noneMissing, expand);
    if base != a {
      ExtendingKeepsInert(a, base, |WithoutTrailingSpace(a)|, e.section, e.name);
    }
    StepDoes(base, b, p, s, e, expand);
    StepStaysSound(base, b, s, e, expand);
  }

  lemma PatchOneKeepsInert(a: seq<string>, e: Edit, name: string, noneMissing: bool, expand: string -> Option<string>)
    requires Sound(a) && WellFormed(e, expand) && Ready(a, e, noneMissing) && BulletsInert(a, name)
    ensures var r := PatchOne(a, e, expand); r.Ok? && BulletsInert(r.value, name)
  {
    var base, p, s, b := BaseOf(a, e, noneMissing, expand);
    if base != a {
      ExtendingKeepsInert(a, base, |WithoutTrailingSpace(a)|, e.section, name);
    }
    StepKeepsInert(base, b, s, e, name, expand);
  }

  lemma PatchOneKeepsDone(a: seq<string>, e: Edit, f: Edit, noneMissing: bool, expand: string -> Option<string>)
    requires Sound(a) && WellFormed(e, expand) && WellFormed(f, expand) && e.name != f.name
    requires BulletsInert(a, e.name) && Ready(a, e, noneMissing) && Done(a, f)
    ensures var r := PatchOne(a, e, expand); r.Ok? && Done(r.value, f)
  {
    var base, p, s, b := BaseOf(a, e, noneMissing, expand);
    if base != a {
      var n := |WithoutTrailingSpace(a)|;
      ExtendingKeepsInert(a, base, n, e.section, e.name);
      ExtendingKeepsDone(a, base, n, e.section, f);
    }
    StepKeepsDone(base, b, s, e, f, expand);
  }

  lemma PatchOneKeepsReady(a: seq<string>, e: Edit, f: Edit, noneMissing: bool, expand: string -> Option<string>)
    requires Sound(a) && WellFormed(e, expand) && WellFormed(f, expand) && e.name != f.name
    requires BulletsInert(a, e.name) && Ready(a, e, noneMissing) && Ready(a, f, noneMissing)
    ensures var r := PatchOne(a, e, expand); r.Ok? && Ready(r.value, f, noneMissing)
  {
    var base, p, s, b := BaseOf(a, e, noneMissing, expand);
    if base == a {
      StepKeepsReady(base, b, s, e, f, noneMissing, expand);
    } else if e.section == f.section {
      PatchOneDoes(a, e, noneMissing, expand);
    } else {
      var n := |WithoutTrailingSpace(a)|;
      ExtendingKeepsInert(a, base, n, e.section, e.name);
      ExtendingKeepsReady(a, base, n, e.section, f);
      StepKeepsReady(base, b, s, e, f, false, expand);
    }
  }

  lemma ShownIsRewritten(ls: seq<string>, from: nat, to: nat, e: Edit)
    requires from <= to <= |ls| && Shows(ls, e, from, to) && BulletFor(e.line, e.name)
    ensures HasBullet(ls[from..to], e.name) && Replaced(ls[from..to], e.name, e.line) == ls[from..to]
  {
    var body := ls[from..to];
    var m :| from <= m < to && ls[m] == e.line;
    assert body[m - from] == e.line;
    forall i | 0 <= i < |body| ensures BulletFor(body[i], e.name) ==> body[i] == e.line {
      assert body[i] == ls[from + i];
    }
  }

  lemma ShownIsFixed(ls: seq<string>, s: Section, e: Edit, expand: string -> Option<string>)
    requires s.start < s.end <= |ls| && Shows(ls, e, s.start, s.end)
    requires BulletFor(e.line, e.name) && expand(e.line) == Some(e.line)
    ensures PatchSection(ls, Some(s), e, expand) == Ok(ls)
  {
    ShownIsRewritten(ls, s.start, s.end, e);
    assert ls[..s.start] + ls[s.start..s.end] + ls[s.end..] == ls;
  }

  /** A done edit, made again, changes nothing. */
  lemma DoneIsFixed(ls: seq<string>, e: Edit, expand: string -> Option<string>)
    requires Sound(ls) && WellFormed(e, expand) && Done(ls, e)
    ensures PatchOne(ls, e, expand) == Ok(ls)
  {
    FindInSound(ls, e.section);
    ShownIsFixed(ls, SectionFrom(ls, 0, e.section).value, e, expand);
  }

  lemma ClearAfterFirst(ls: seq<string>, edits: seq<Edit>, noneMissing: bool, expand: string -> Option<string>)
    requires edits != [] && Clear(ls, edits, noneMissing, expand) && Distinct(edits)
    ensures var r := PatchOne(ls, edits[0], expand); r.Ok? && Clear(r.value, edits[1..], noneMissing, expand)
    ensures Distinct(edits[1..])
  {
    var e := edits[0];
    assert e in edits;
    PatchOneDoes(ls, e, noneMissing, expand);
    forall f | f in edits[1..]
      ensures f in edits && BulletsInert(PatchOne(ls, e, expand).value, f.name)
      ensures Ready(PatchOne(ls, e, expand).value, f, noneMissing)
    {
      var j :| 1 <= j < |edits| && edits[j] == f;
      PatchOneKeepsInert(ls, e, f.name, noneMissing, expand);
      PatchOneKeepsReady(ls, e, f, noneMissing, expand);
    }
  }

  lemma {:induction false} PatchKeepsDone(ls: seq<string>, edits: seq<Edit>, f: Edit, noneMissing: bool,
                                          expand: string -> Option<string>)
    requires Clear(ls, edits, noneMissing, expand) && Distinct(edits)
    requires WellFormed(f, expand) && Done(ls, f) && forall e :: e in edits ==> e.name != f.name
    ensures var r := PatchAll(ls, edits, expand); r.Ok? && Sound(r.value) && Done(r.value, f)
    decreases |edits|
  {
    if edits != [] {
      var e := edits[0];
      assert e in edits;
      ClearAfterFirst(ls, edits, noneMissing, expand);
      PatchOneKeepsDone(ls, e, f, noneMissing, expand);
      PatchKeepsDone(PatchOne(ls, e, expand).value, edits[1..], f, noneMissing, expand);
    }
  }

  lemma FirstIsDistinct(edits: seq<Edit>)
    requires edits != [] && Distinct(edits)
    ensures forall f :: f in edits[1..] ==> f.name != edits[0].name
  {
    forall f | f in edits[1..] ensures f.name != edits[0].name {
      var j :| 1 <= j < |edits| && edits[j] == f;
    }
  }

  /** After the whole patch, every edit is done. */
  lemma {:induction false} PatchDoesAll(ls: seq<string>, edits: seq<Edit>, noneMissing: bool,
                                        expand: string -> Option<string>)
    requires Clear(ls, edits, noneMissing, expand) && Distinct(edits)
    ensures var r := PatchAll(ls, edits, expand);
            r.Ok? && Sound(r.value) && forall e :: e in edits ==> Done(r.value, e)
    decreases |edits|
  {
    if edits != [] {
      var e := edits[0];
      assert e in edits;
      ClearAfterFirst(ls, edits, noneMissing, expand);
      PatchOneDoes(ls, e, noneMissing, expand);
      var next := PatchOne(ls, e, expand).value;
      PatchDoesAll(next, edits[1..], noneMissing, expand);
      FirstIsDistinct(edits);
      PatchKeepsDone(next, edits[1..], e, noneMissing, expand);
      assert forall f :: f in edits ==> f == e || f in edits[1..];
    }
  }

  lemma {:induction false} DoneAreFixed(ls: seq<string>, edits: seq<Edit>, expand: string -> Option<string>)
    requires Sound(ls) && forall e :: e in edits ==> WellFormed(e, expand) && Done(ls, e)
    ensures PatchAll(ls, edits, expand) == Ok(ls)
    decreases |edits|
  {
    if edits != [] {
      assert edits[0] in edits;
      DoneIsFixed(ls, edits[0], expand);
      DoneAreFixed(ls, edits[1..], expand);
    }
  }

  /** Patching twice is patching once. */
  lemma PatchIsIdempotent(content: string, edits: seq<Edit>, noneMissing: bool,
                          isSecret: string -> bool, expand: string -> Option<string>)
    requires Clear(Lines(content), edits, noneMissing, expand) && Distinct(edits)
    ensures var once := Patched(content, edits, isSecret, expand);
            && (once.Ok? <==> forall e :: e in edits ==> !isSecret(e.name))
            && (once.Ok? ==> Patched(once.value, edits, isSecret, expand) == once)
            && (once.Ok? ==> forall e :: e in edits ==> Done(Lines(once.value), e))
  {
    PatchDoesAll(Lines(content), edits, noneMissing, expand);
    var after := PatchAll(Lines(content), edits, expand).value;
    LinesOfText(after);
    DoneAreFixed(after, edits, expand);
  }

  // ----- From reports to edits -------------------------------------------------------------

  /** What a difference and its rule must be for the edit to be well formed. */
  ghost predicate Writable(d: EnvDiff, rules: map<string, RunbookRule>) {
    && '=' !in d.name && '\n' !in d.name && '\\' !in d.name
    && (d.live.Some? ==> '\n' !in d.live.value && '\\' !in d.live.value)
    && Plain(SectionOf(d.name, rules))
    && (Given(NoteOf(d.name, rules)) ==> WritableNote(Strip(NoteOf(d.name, rules).value, IsSpace)))
  }

  ghost predicate WritableNote(note: string) {
    && note != "" && !IsSpace(note[|note| - 1])
    && '\n' !in note && '\\' !in note && forall o :: !MarksAt(note, o)
  }

  lemma BulletShape(name: string, value: string, rest: string)
    requires '\n' !in name && '\\' !in name && '\n' !in value && '\\' !in value
    requires '\n' !in rest && '\\' !in rest && (forall o :: !MarksAt(rest, o))
    requires rest == "" || (rest[0] != '#' && !IsSpace(rest[|rest| - 1]))
    ensures var line := Bullet(name, value) + rest;
            BulletFor(line, name) && Inert(line) && !IsSpace(line[|line| - 1]) && '\n' !in line && '\\' !in line
  {
    var bullet := Bullet(name, value);
    var line := bullet + rest;
    var t := |bullet| - 1;
    assert line[t] == '`' && line[3..3 + |name|] == name && line[3 + |name|] == '=';
    forall o | t < o ensures !MarksAt(line, o) {
      assert o < |line| - 1 ==> (MarksAt(line, o) <==> MarksAt(rest, o - |bullet|));
    }
    assert ClosedAt(line, t);
    assert rest == "" ==> line[|line| - 1] == '`';
    assert rest != "" ==> line[|line| - 1] == rest[|rest| - 1];
  }

  lemma LabelledNote(note: string)
    requires WritableNote(note)
    ensures var rest := NOTE_LABEL + note;
            && '\n' !in rest && '\\' !in rest && (forall o :: !MarksAt(rest, o))
            && rest[0] != '#' && !IsSpace(rest[|rest| - 1])
  {
    var n := |NOTE_LABEL|;
    var rest := NOTE_LABEL + note;
    assert forall i :: 0 <= i < n ==> NOTE_LABEL[i] != '#' && NOTE_LABEL[i] != '\n' && NOTE_LABEL[i] != '\\';
    forall o ensures !MarksAt(rest, o) {
      assert n <= o < |rest| - 1 ==> (MarksAt(rest, o) <==> MarksAt(note, o - n));
    }
  }

  lemma DefaultSectionIsPlain()
    ensures Plain(DEFAULT_SECTION)
  {
    assert forall o :: 0 <= o < |DEFAULT_SECTION| ==> DEFAULT_SECTION[o] != '#';
  }

  lemma NewLineShape(name: string, value: string, note: Option<string>)
    requires '\n' !in name && '\\' !in name && '\n' !in value && '\\' !in value
    requires Given(note) ==> WritableNote(Strip(note.value, IsSpace))
    ensures var line := NewLine(name, value, note);
            BulletFor(line, name) && Inert(line) && !IsSpace(line[|line| - 1]) && '\n' !in line && '\\' !in line
  {
    if Given(note) {
      var text := Strip(note.value, IsSpace);
      LabelledNote(text);
      BulletShape(name, value, NOTE_LABEL + text);
      assert Bullet(name, value) + NOTE_LABEL + text == Bullet(name, value) + (NOTE_LABEL + text);
    } else {
      BulletShape(name, value, "");
      assert Bullet(name, value) + "" == Bullet(name, value);
    }
  }

  lemma WritableIsWellFormed(d: EnvDiff, rules: map<string, RunbookRule>, expand: string -> Option<string>)
    requires Writable(d, rules)
    requires forall line :: '\\' !in line ==> expand(line) == Some(line)
    ensures WellFormed(EditOf(d, rules), expand) && EditOf(d, rules).name == d.name
  {
    NewLineShape(d.name, if d.live.Some? then d.live.value else "", NoteOf(d.name, rules));
  }

  /** The reports that lead to a write. */
  ghost predicate Written(d: EnvDiff, diffs: seq<EnvDiff>) {
    d in diffs && d.contractStatus != Match
  }

  lemma {:induction false} EditsComeFromReports(diffs: seq<EnvDiff>, rules: map<string, RunbookRule>)
    ensures forall e :: e in Edits(diffs, rules) <==> exists d :: Written(d, diffs) && e == EditOf(d, rules)
    decreases |diffs|
  {
    if diffs != [] {
      EditsComeFromReports(diffs[1..], rules);
      assert forall d :: d in diffs <==> d == diffs[0] || d in diffs[1..];
      assert forall d :: Written(d, diffs) <==> (d == diffs[0] && d.contractStatus != Match) || Written(d, diffs[1..]);
    }
  }

  lemma {:induction false} DistinctReportsDistinctEdits(diffs: seq<EnvDiff>, rules: map<string, RunbookRule>)
    requires forall i, j :: 0 <= i < j < |diffs| ==> diffs[i].name != diffs[j].name
    ensures Distinct(Edits(diffs, rules))
    decreases |diffs|
  {
    if diffs != [] {
      DistinctReportsDistinctEdits(diffs[1..], rules);
      EditsComeFromReports(diffs[1..], rules);
      forall e | e in Edits(diffs[1..], rules) ensures e.name != diffs[0].name {
        var d :| Written(d, diffs[1..]) && e == EditOf(d, rules);
        var j :| 1 <= j < |diffs| && diffs[j] == d;
      }
    }
  }

  ghost predicate NoneMissing(ls: seq<string>, diffs: seq<EnvDiff>, rules: map<string, RunbookRule>) {
    forall d :: Written(d, diffs) ==> SectionFrom(ls, 0, SectionOf(d.name, rules)).Some?
  }

  /** What the text must be: no code fence, a last line that a line end would not make a heading
      or complete to one of a reported section's, no heading inside an old bullet of a reported
      variable, and no reported section that is empty and followed by another heading, or empty
      at all while a section is still to be added. */
  ghost predicate Fit(ls: seq<string>, diffs: seq<EnvDiff>, rules: map<string, RunbookRule>) {
    && Sound(ls)
    && forall d :: Written(d, diffs) ==>
         BulletsInert(ls, d.name) && Ready(ls, EditOf(d, rules), NoneMissing(ls, diffs, rules))
  }

  /** The patcher's promise, with everything it rests on. */
  lemma PatchRunbookIsIdempotent(content: string, diffs: seq<EnvDiff>, rules: map<string, RunbookRule>,
                                 isSecret: string -> bool, expand: string -> Option<string>)
    requires forall line :: '\\' !in line ==> expand(line) == Some(line)
    requires forall i, j :: 0 <= i < j < |diffs| ==> diffs[i].name != diffs[j].name
    requires forall d :: Written(d, diffs) ==> Writable(d, rules)
    requires Fit(Lines(content), diffs, rules)
    ensures var once := Patched(content, Edits(diffs, rules), isSecret, expand);
            && (once.Ok? <==> forall d :: Written(d, diffs) ==> !isSecret(d.name))
            && (once.Ok? ==> Patched(once.value, Edits(diffs, rules), isSecret, expand) == once)
            && (once.Ok? ==> forall d :: Written(d, diffs) ==> Done(Lines(once.value), EditOf(d, rules)))
  {
    EditsComeFromReports(diffs, rules);
    DistinctReportsDistinctEdits(diffs, rules);
    forall d | Written(d, diffs) ensures WellFormed(EditOf(d, rules), expand) && EditOf(d, rules).name == d.name {
      WritableIsWellFormed(d, rules, expand);
    }
    PatchIsIdempotent(content, Edits(diffs, rules), NoneMissing(Lines(content), diffs, rules), isSecret, expand);
  }

  // ----- Single lines and single steps -----------------------------------------------------

  lemma PatchWhereItStands(ls: seq<string>, e: Edit, p: nat, s: Section, expand: string -> Option<string>)
    requires (forall m :: 0 <= m < |ls| ==> !IsFence(ls[m])) && Stands(ls, e.section, p, s)
    ensures PatchOne(ls, e, expand) == PatchSection(ls, Some(s), e, expand)
  {
    MaskedFenceFree(ls);
    FindAgain(ls, e.section);
    Standing(ls, e.section, p, s);
  }

  lemma HeadingAlone(ls: seq<string>, p: nat, section: string, other: string)
    requires p + 1 < |ls| && ls[p] == "## " + section && Plain(section) && Plain(other)
    ensures NameLine(ls, p, other) == if section == other then Some(p) else None
    ensures IsHeading(ls, p) && !Blank(ls[p]) && !IsFence(ls[p]) && '\n' !in ls[p]
  {
    NewHeading(ls[p], section, other);
    assert ls[p][2] == ' ' && IsSpace(' ');
  }

  lemma BlankAlone(ls: seq<string>, p: nat, section: string)
    requires p < |ls| && ls[p] == ""
    ensures NameLine(ls, p, section).None? && !IsHeading(ls, p) && Blank(ls[p]) && !IsFence(ls[p])
  {
    BlankIsNoHeader(ls[p], section);
  }

  lemma BulletAlone(ls: seq<string>, p: nat, section: string, e: Edit, expand: string -> Option<string>)
    requires p < |ls| && ls[p] == e.line && WellFormed(e, expand) && Plain(section)
    ensures NameLine(ls, p, section).None? && !IsHeading(ls, p) && !Blank(ls[p]) && !IsFence(ls[p])
  {
    InertIsNoHeader(ls[p], section);
  }

  lemma PatchAppends(ls: seq<string>, e: Edit, p: nat, s: Section, expand: string -> Option<string>)
    requires (forall m :: 0 <= m < |ls| ==> !IsFence(ls[m])) && Stands(ls, e.section, p, s)
    requires !HasBullet(ls[s.start..s.end], e.name)
    ensures PatchOne(ls, e, expand) == Ok(ls[..s.start] + Appended(ls[s.start..s.end], e.line) + ls[s.end..])
  {
    PatchWhereItStands(ls, e, p, s, expand);
  }

  /** The conditions describe ordinary runbooks: a heading and a line of text, with or without a
      final line end. */
  lemma OrdinaryTextIsClear(e: Edit, expand: string -> Option<string>)
    requires WellFormed(e, expand)
    ensures Clear(["## " + e.section, "x", ""], [e], true, expand)
    ensures e.section != "x" ==> Clear(["## " + e.section, "x"], [e], true, expand)
  {
    EndedText(e, expand);
    if e.section != "x" {
      UnendedText(e, expand);
    }
  }

  lemma EndedText(e: Edit, expand: string -> Option<string>)
    requires WellFormed(e, expand)
    ensures Clear(["## " + e.section, "x", ""], [e], true, expand)
  {
    var ls := ["## " + e.section, "x", ""];
    HeadingAlone(ls, 0, e.section, e.section);
    BlankAlone(ls, 2, e.section);
    EndedByLineEnd(ls, e.section);
    assert !IsSpace(ls[1][0]);
    Standing(ls, e.section, 0, Section(0, 1, 3));
    assert !BulletFor(ls[0], e.name) && !BulletFor(ls[1], e.name) && !BulletFor(ls[2], e.name);
  }

  lemma UnendedText(e: Edit, expand: string -> Option<string>)
    requires WellFormed(e, expand) && e.section != "x"
    ensures Clear(["## " + e.section, "x"], [e], true, expand)
  {
    var ls := ["## " + e.section, "x"];
    HeadingAlone(ls, 0, e.section, e.section);
    assert !IsSpace(ls[1][0]);
    Standing(ls, e.section, 0, Section(0, 1, 2));
    forall a ensures !NameCut("x", e.section, a) {
      assert |e.section| == 1 && a == 0 ==> "x"[a..a + |e.section|] == "x";
    }
    assert Ended(ls, e.section);
    assert !BulletFor(ls[0], e.name) && !BulletFor(ls[1], e.name);
  }
}
