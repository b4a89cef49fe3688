/** The deterministic classifier: from a contract, an observed environment and recent pull
    requests to one proposed decision, and why the gate accepts what it proposes. */
module Classifier {
  import opened Wrappers
  import opened BoundedText
  import opened Validator

  // ----- Names in order -------------------------------------------------------------------

  /** Code-point order of strings. */
  predicate Less(a: string, b: string) {
    b != "" && (a == "" || a[0] < b[0] || (a[0] == b[0] && Less(a[1..], b[1..])))
  }

  lemma {:induction false} LessTransitive(a: string, b: string, c: string)
    requires Less(a, b) && Less(b, c)
    ensures Less(a, c)
  {
    if a != "" && a[0] == b[0] == c[0] {
      LessTransitive(a[1..], b[1..], c[1..]);
    }
  }

  lemma {:induction false} LessTotal(a: string, b: string)
    ensures Less(a, b) || a == b || Less(b, a)
    ensures Less(a, b) ==> a != b && !Less(b, a)
  {
    if a != "" && b != "" && a[0] == b[0] {
      LessTotal(a[1..], b[1..]);
      assert a == [a[0]] + a[1..] && b == [b[0]] + b[1..];
    }
  }

  ghost predicate Ascending(s: seq<string>) {
    forall i, j :: 0 <= i < j < |s| ==> Less(s[i], s[j])
  }

  method SortNames(names: set<string>) returns (sorted: seq<string>)
    ensures Ascending(sorted) && forall n :: n in sorted <==> n in names
  {
    sorted := [];
    var rest := names;
    while rest != {}
      invariant rest <= names
      invariant Ascending(sorted) && forall n :: n in sorted <==> n in names - rest
      decreases |rest|
    {
      var name :| name in rest;
      rest := rest - {name};
      sorted := Insert(sorted, name);
    }
  }

  method Insert(s: seq<string>, name: string) returns (r: seq<string>)
    requires Ascending(s) && name !in s
    ensures Ascending(r) && forall n :: n in r <==> n in s || n == name
  {
    var k := 0;
    while k < |s| && Less(s[k], name)
      invariant 0 <= k <= |s|
      invariant forall i :: 0 <= i < k ==> Less(s[i], name)
    {
      k := k + 1;
    }
    r := s[..k] + [name] + s[k..];
    InsertedNames(s, k, name);
    if k < |s| {
      LessTotal(s[k], name);
      assert s[k] in s;
      forall i | k < i < |s| ensures Less(name, s[i]) {
        LessTransitive(name, s[k], s[i]);
      }
    }
  }

  lemma InsertedNames(s: seq<string>, k: nat, name: string)
    requires k <= |s|
    ensures forall n :: n in s[..k] + [name] + s[k..] <==> n in s || n == name
  {
    assert s == s[..k] + s[k..];
  }

  // ----- Pull request evidence ------------------------------------------------------------

  datatype PullRequest = PullRequest(merged: bool, title: string, body: string, url: Option<string>)

  predicate WordAt(s: string, i: int, isWord: char -> bool) {
    0 <= i < |s| && isWord(s[i])
  }

  predicate Boundary(s: string, i: int, isWord: char -> bool) {
    WordAt(s, i - 1, isWord) != WordAt(s, i, isWord)
  }

  /** The name occurs in the text as a whole token. */
  predicate Mentions(text: string, name: string, isWord: char -> bool) {
    exists i :: 0 <= i <= |text| - |name| && text[i..i + |name|] == name
                && Boundary(text, i, isWord) && Boundary(text, i + |name|, isWord)
  }

  predicate Evidences(pr: PullRequest, name: string, isWord: char -> bool) {
    pr.merged && Mentions(pr.title + " " + pr.body, name, isWord)
  }

  /** `found` is the address of the first merged pull request that mentions the name. */
  ghost predicate IsFirstEvidence(found: Option<string>, prs: seq<PullRequest>, name: string, isWord: char -> bool) {
    || (found.None? && forall k :: 0 <= k < |prs| ==> !Evidences(prs[k], name, isWord))
    || (exists k :: && 0 <= k < |prs| && Evidences(prs[k], name, isWord) && prs[k].url == found
                    && forall m :: 0 <= m < k ==> !Evidences(prs[m], name, isWord))
  }

  method StrictPrMatch(prs: seq<PullRequest>, name: string, isWord: char -> bool) returns (found: Option<string>)
    ensures IsFirstEvidence(found, prs, name, isWord)
  {
    for k := 0 to |prs|
      invariant forall m :: 0 <= m < k ==> !Evidences(prs[m], name, isWord)
    {
      if !prs[k].merged { continue; }
      if Mentions(prs[k].title + " " + prs[k].body, name, isWord) {
        return prs[k].url;
      }
    }
    return None;
  }

  lemma OneFirstEvidence(a: Option<string>, b: Option<string>, prs: seq<PullRequest>, name: string, isWord: char -> bool)
    requires IsFirstEvidence(a, prs, name, isWord) && IsFirstEvidence(b, prs, name, isWord)
    ensures a == b
  {
  }

  // ----- What a classification is ---------------------------------------------------------

  function Observed(name: string, live: map<string, string>): Option<string> {
    if name in live then Some(live[name]) else None
  }

  /** The variable is declared or present, and not both with the declared value. */
  predicate Drifted(name: string, c: Contract, live: map<string, string>) {
    if name in c then Observed(name, live) != Some(c[name].value) else name in live
  }

  ghost predicate IsDiffOf(d: EnvDiff, name: string, c: Contract, live: map<string, string>,
                           prs: seq<PullRequest>, isWord: char -> bool)
  {
    && d.name == name && d.live == Observed(name, live) && d.debugConfigValue.None?
    && (if name in c then
          && d.expected == Some(c[name].value) && d.recentPrMatch.None?
          && d.contractStatus == (if c[name].allowManualChange then PresentAllowManual else PresentDisallowManual)
        else
          && d.expected.None? && d.contractStatus == Absent
          && IsFirstEvidence(d.recentPrMatch, prs, name, isWord))
  }

  /** What one drifted variable calls for on its own. */
  function ActionFor(d: EnvDiff): Action {
    match d.contractStatus
    case PresentDisallowManual => DriftIssue
    case Absent => if Given(d.recentPrMatch) then DocsPr else Escalation
    case _ => DocsPr
  }

  const FALLBACK_FILE := "demo/docs/runbook.md"
  const FALLBACK_SECTION := "Runtime Configuration"

  function TargetOf(name: string, c: Contract): DocsRef {
    if name in c then c[name].docs else DocsRef(FALLBACK_FILE, FALLBACK_SECTION)
  }

  /** The gravest action any drifted variable calls for. */
  ghost predicate IsGravest(a: Action, diffs: seq<EnvDiff>) {
    && (a == NoOp <==> diffs == [])
    && (a == DriftIssue <==> exists d :: d in diffs && ActionFor(d) == DriftIssue)
    && (a == Escalation <==> && (exists d :: d in diffs && ActionFor(d) == Escalation)
                             && (forall d :: d in diffs ==> ActionFor(d) != DriftIssue))
    && (a == DocsPr <==> diffs != [] && forall d :: d in diffs ==> ActionFor(d) == DocsPr)
  }

  ghost predicate Reported(name: string, diffs: seq<EnvDiff>) {
    exists d :: d in diffs && d.name == name
  }

  ghost predicate ReportsDrift(diffs: seq<EnvDiff>, c: Contract, live: map<string, string>,
                               prs: seq<PullRequest>, isWord: char -> bool)
  {
    && (forall name :: Drifted(name, c, live) <==> Reported(name, diffs))
    && (forall i, j :: 0 <= i < j < |diffs| ==> Less(diffs[i].name, diffs[j].name))
    && (forall d :: d in diffs ==> IsDiffOf(d, d.name, c, live, prs, isWord))
  }

  ghost predicate IsClassification(p: Proposal, c: Contract, live: map<string, string>,
                                   prs: seq<PullRequest>, isWord: char -> bool)
  {
    && ReportsDrift(p.envDiffs, c, live, prs, isWord)
    && IsGravest(p.action, p.envDiffs)
    && p.targetRevision.None?
    && (p.envDiffs == [] ==> p.targetDocsFile.None? && p.targetDocsSection.None? && p.confidence == Number(1.0))
    && (p.envDiffs != [] ==>
          var target := TargetOf(p.envDiffs[0].name, c);
          && p.targetDocsFile == Some(target.file) && p.targetDocsSection == Some(target.section)
          && p.confidence == Number(0.9))
    && p.requiresHumanReview == (p.action == Escalation)
  }

  // ----- The classifier -------------------------------------------------------------------

  /** The diff of one variable, or nothing when it has not drifted. */
  method DiffOf(name: string, c: Contract, live: map<string, string>, prs: seq<PullRequest>, isWord: char -> bool)
    returns (d: Option<EnvDiff>)
    requires name in c || name in live
    ensures d.None? <==> !Drifted(name, c, live)
    ensures d.Some? ==> IsDiffOf(d.value, name, c, live, prs, isWord)
  {
    var value := Observed(name, live);
    if name !in c {
      var url := StrictPrMatch(prs, name, isWord);
      return Some(EnvDiff(name, None, value, Absent, None, url));
    }
    if value == Some(c[name].value) {
      return None;
    }
    var status := if c[name].allowManualChange then PresentAllowManual else PresentDisallowManual;
    return Some(EnvDiff(name, Some(c[name].value), value, status, None, None));
  }

  /** The diffs of the first `k` names, and no other. */
  ghost predicate Collected(diffs: seq<EnvDiff>, names: seq<string>, k: nat, c: Contract, live: map<string, string>,
                            prs: seq<PullRequest>, isWord: char -> bool)
    requires k <= |names|
  {
    && (forall i :: 0 <= i < |diffs| ==> IsDiffOf(diffs[i], diffs[i].name, c, live, prs, isWord))
    && (forall i :: 0 <= i < |diffs| ==> Drifted(diffs[i].name, c, live))
    && (forall m :: 0 <= m < k && Drifted(names[m], c, live) ==> Reported(names[m], diffs))
    && (forall i, j :: 0 <= i < j < |diffs| ==> Less(diffs[i].name, diffs[j].name))
    && (forall i, m :: 0 <= i < |diffs| && k <= m < |names| ==> Less(diffs[i].name, names[m]))
  }

  lemma CollectNext(diffs: seq<EnvDiff>, d: EnvDiff, names: seq<string>, k: nat, c: Contract,
                    live: map<string, string>, prs: seq<PullRequest>, isWord: char -> bool)
    requires k < |names| && Ascending(names) && Collected(diffs, names, k, c, live, prs, isWord)
    requires Drifted(names[k], c, live) && IsDiffOf(d, names[k], c, live, prs, isWord)
    ensures Collected(diffs + [d], names, k + 1, c, live, prs, isWord)
  {
    assert d in diffs + [d];
    forall n | Reported(n, diffs) ensures Reported(n, diffs + [d]) {
      var e :| e in diffs && e.name == n;
      assert e in diffs + [d];
    }
  }

  lemma CollectedAll(diffs: seq<EnvDiff>, names: seq<string>, c: Contract,
                     live: map<string, string>, prs: seq<PullRequest>, isWord: char -> bool)
    requires Collected(diffs, names, |names|, c, live, prs, isWord)
    requires forall n :: n in names <==> n in c.Keys + live.Keys
    ensures ReportsDrift(diffs, c, live, prs, isWord)
  {
    forall name | Drifted(name, c, live) ensures Reported(name, diffs) {
      assert name in names;
    }
  }

  /** One pass over the sorted names collects the drifted ones and what each calls for. */
  method CollectDrift(c: Contract, live: map<string, string>, prs: seq<PullRequest>, isWord: char -> bool)
    returns (diffs: seq<EnvDiff>, actions: seq<Action>)
    ensures ReportsDrift(diffs, c, live, prs, isWord)
    ensures |actions| == |diffs| && forall i :: 0 <= i < |diffs| ==> actions[i] == ActionFor(diffs[i])
  {
    diffs, actions := [], [];
    var names := SortNames(c.Keys + live.Keys);
    for k := 0 to |names|
      invariant |actions| == |diffs| && forall i :: 0 <= i < |diffs| ==> actions[i] == ActionFor(diffs[i])
      invariant Collected(diffs, names, k, c, live, prs, isWord)
    {
      assert names[k] in names;
      var d := DiffOf(names[k], c, live, prs, isWord);
      if d.None? { continue; }
      CollectNext(diffs, d.value, names, k, c, live, prs, isWord);
      diffs := diffs + [d.value];
      actions := actions + [ActionFor(d.value)];
    }
    CollectedAll(diffs, names, c, live, prs, isWord);
  }

  /** The proposal is the classification of its inputs: every drifted variable and no other, in
      order, with the gravest action. */
  method Classify(c: Contract, live: map<string, string>, prs: seq<PullRequest>, isWord: char -> bool,
                  rationale: Action -> string)
    returns (p: Proposal)
    ensures IsClassification(p, c, live, prs, isWord)
    ensures p.rationale == rationale(p.action)
  {
    var diffs, actions := CollectDrift(c, live, prs, isWord);
    if diffs == [] {
      return Proposal(NoOp, [], None, None, None, rationale(NoOp), Number(1.0), false);
    }
    var chosen := if DriftIssue in actions then DriftIssue
                  else if Escalation in actions then Escalation
                  else DocsPr;
    GravestAction(chosen, diffs, actions);
    var target := TargetOf(diffs[0].name, c);
    return Proposal(chosen, diffs, Some(target.file), Some(target.section), None, rationale(chosen),
                    Number(0.9), chosen == Escalation);
  }

  lemma GravestAction(chosen: Action, diffs: seq<EnvDiff>, actions: seq<Action>)
    requires diffs != [] && |actions| == |diffs|
    requires forall i :: 0 <= i < |diffs| ==> actions[i] == ActionFor(diffs[i])
    requires chosen == if DriftIssue in actions then DriftIssue else if Escalation in actions then Escalation else DocsPr
    ensures IsGravest(chosen, diffs)
  {
    assert diffs[0] in diffs && actions[0] in actions;
    forall a ensures a in actions <==> exists d :: d in diffs && ActionFor(d) == a {
      if a in actions {
        var i :| 0 <= i < |actions| && actions[i] == a;
        assert diffs[i] in diffs;
      }
      if d :| d in diffs && ActionFor(d) == a {
        var i :| 0 <= i < |diffs| && diffs[i] == d;
        assert actions[i] in actions;
      }
    }
  }

  // ----- What follows ---------------------------------------------------------------------

  /** The classifier's whole vocabulary; a rollback is never in it. */
  lemma NeverRollsBack(a: Action, diffs: seq<EnvDiff>)
    requires IsGravest(a, diffs)
    ensures a in {NoOp, DocsPr, DriftIssue, Escalation}
  {
    if diffs != [] && (forall d :: d in diffs ==> ActionFor(d) != DriftIssue && ActionFor(d) != Escalation) {
      assert forall d :: d in diffs ==> ActionFor(d) == DocsPr;
    }
  }

  lemma NoDriftExactly(c: Contract, live: map<string, string>)
    ensures (forall name :: !Drifted(name, c, live)) <==> live == map name | name in c :: c[name].value
  {
    var declared := map name | name in c :: c[name].value;
    if forall name :: !Drifted(name, c, live) {
      forall name ensures (name in live <==> name in declared) && (name in live ==> live[name] == declared[name]) {
        assert !Drifted(name, c, live);
      }
    }
  }

  /** Says no-op exactly when the declared and the observed environments coincide. */
  lemma NoOpExactly(p: Proposal, c: Contract, live: map<string, string>, prs: seq<PullRequest>, isWord: char -> bool)
    requires ReportsDrift(p.envDiffs, c, live, prs, isWord) && IsGravest(p.action, p.envDiffs)
    ensures p.action == NoOp <==> live == map name | name in c :: c[name].value
  {
    NoDriftExactly(c, live);
    if p.envDiffs != [] {
      assert p.envDiffs[0] in p.envDiffs;
      assert Reported(p.envDiffs[0].name, p.envDiffs) && Drifted(p.envDiffs[0].name, c, live);
    } else {
      assert forall name :: Drifted(name, c, live) <==> Reported(name, p.envDiffs);
    }
  }

  // ----- The proposal, read off its inputs ------------------------------------------------

  /** A declared variable that may not be changed by hand is missing or has another value. */
  ghost predicate ViolatedBy(name: string, c: Contract, live: map<string, string>) {
    name in c && !c[name].allowManualChange && (name !in live || live[name] != c[name].value)
  }

  /** An observed variable is not declared, and no pull request explains it: none that is merged
      mentions it, or the first that does has no address. */
  ghost predicate UnexplainedIn(name: string, c: Contract, live: map<string, string>, prs: seq<PullRequest>,
                                isWord: char -> bool)
  {
    && name in live && name !in c
    && forall k :: 0 <= k < |prs| && Evidences(prs[k], name, isWord)
                   && (forall m :: 0 <= m < k ==> !Evidences(prs[m], name, isWord))
         ==> prs[k].url == None || prs[k].url == Some("")
  }

  lemma EvidenceGiven(found: Option<string>, name: string, c: Contract, live: map<string, string>,
                      prs: seq<PullRequest>, isWord: char -> bool)
    requires name in live && name !in c && IsFirstEvidence(found, prs, name, isWord)
    ensures !Given(found) <==> UnexplainedIn(name, c, live, prs, isWord)
  {
  }

  lemma ActionOfDiff(d: EnvDiff, c: Contract, live: map<string, string>, prs: seq<PullRequest>, isWord: char -> bool)
    requires IsDiffOf(d, d.name, c, live, prs, isWord) && Drifted(d.name, c, live)
    ensures ActionFor(d) == DriftIssue <==> ViolatedBy(d.name, c, live)
    ensures ActionFor(d) == Escalation <==> UnexplainedIn(d.name, c, live, prs, isWord)
  {
    if d.name !in c {
      EvidenceGiven(d.recentPrMatch, d.name, c, live, prs, isWord);
    }
  }

  /** What the classifier decides, from the contract and the environment alone: a violated variable
      makes it a drift issue, else an unexplained one an escalation, else any other difference a
      docs pull request. */
  lemma ActionExactly(p: Proposal, c: Contract, live: map<string, string>, prs: seq<PullRequest>, isWord: char -> bool)
    requires IsClassification(p, c, live, prs, isWord)
    ensures p.action == DriftIssue <==> exists name :: ViolatedBy(name, c, live)
    ensures p.action == Escalation
            <==> && (exists name :: UnexplainedIn(name, c, live, prs, isWord))
                 && (forall name :: !ViolatedBy(name, c, live))
    ensures p.action == DocsPr
            <==> && live != (map name | name in c :: c[name].value)
                 && (forall name :: !ViolatedBy(name, c, live) && !UnexplainedIn(name, c, live, prs, isWord))
  {
    CalledFor(p.envDiffs, c, live, prs, isWord);
    NoOpExactly(p, c, live, prs, isWord);
    NeverRollsBack(p.action, p.envDiffs);
  }

  lemma CalledFor(diffs: seq<EnvDiff>, c: Contract, live: map<string, string>, prs: seq<PullRequest>, isWord: char -> bool)
    requires ReportsDrift(diffs, c, live, prs, isWord)
    ensures (exists d :: d in diffs && ActionFor(d) == DriftIssue) <==> exists name :: ViolatedBy(name, c, live)
    ensures (exists d :: d in diffs && ActionFor(d) == Escalation)
            <==> exists name :: UnexplainedIn(name, c, live, prs, isWord)
  {
    forall d | d in diffs
      ensures ActionFor(d) == DriftIssue <==> ViolatedBy(d.name, c, live)
      ensures ActionFor(d) == Escalation <==> UnexplainedIn(d.name, c, live, prs, isWord)
    {
      assert Reported(d.name, diffs);
      ActionOfDiff(d, c, live, prs, isWord);
    }
    if name :| ViolatedBy(name, c, live) {
      assert Drifted(name, c, live);
    }
    if name :| UnexplainedIn(name, c, live, prs, isWord) {
      assert Drifted(name, c, live);
    }
  }

  /** The least of the names that differ. */
  ghost predicate LeastDrifted(name: string, c: Contract, live: map<string, string>) {
    Drifted(name, c, live) && forall other :: Drifted(other, c, live) ==> other == name || Less(name, other)
  }

  /** The proposal points at the place the contract documents the first differing variable, or at
      the fixed fallback when the contract does not declare it. */
  lemma TargetExactly(p: Proposal, c: Contract, live: map<string, string>, prs: seq<PullRequest>, isWord: char -> bool,
                      name: string)
    requires IsClassification(p, c, live, prs, isWord) && LeastDrifted(name, c, live)
    ensures p.targetDocsFile == Some(if name in c then c[name].docs.file else "demo/docs/runbook.md")
    ensures p.targetDocsSection == Some(if name in c then c[name].docs.section else "Runtime Configuration")
  {
    assert Reported(name, p.envDiffs);
    var i :| 0 <= i < |p.envDiffs| && p.envDiffs[i].name == name;
    var first := p.envDiffs[0];
    assert first in p.envDiffs && Reported(first.name, p.envDiffs);
    LessTotal(first.name, name);
  }

  lemma SomeLeastDrifted(p: Proposal, c: Contract, live: map<string, string>, prs: seq<PullRequest>, isWord: char -> bool)
    requires IsClassification(p, c, live, prs, isWord) && p.action != NoOp
    ensures LeastDrifted(p.envDiffs[0].name, c, live)
  {
    assert p.envDiffs[0] in p.envDiffs && Reported(p.envDiffs[0].name, p.envDiffs);
  }

  /** The order of names: a proper prefix comes first, otherwise the first character that differs
      decides. */
  lemma {:induction false} LessExactly(a: string, b: string)
    ensures Less(a, b)
            <==> a < b || exists i :: 0 <= i < |a| && i < |b| && a[..i] == b[..i] && a[i] < b[i]
  {
    if a != "" && b != "" && a[0] == b[0] {
      LessExactly(a[1..], b[1..]);
      assert a < b <==> a[1..] < b[1..] by {
        assert a == [a[0]] + a[1..] && b == [b[0]] + b[1..];
      }
      forall i | 1 <= i < |a| && i < |b| ensures a[..i] == b[..i] <==> a[1..][..i - 1] == b[1..][..i - 1] {
        assert a[..i] == [a[0]] + a[1..][..i - 1] && b[..i] == [b[0]] + b[1..][..i - 1];
      }
      if i :| 0 <= i < |a| && i < |b| && a[..i] == b[..i] && a[i] < b[i] {
        assert a[1..][i - 1] < b[1..][i - 1];
      }
      if i :| 0 <= i < |a[1..]| && i < |b[1..]| && a[1..][..i] == b[1..][..i] && a[1..][i] < b[1..][i] {
        assert a[..i + 1] == b[..i + 1] && a[i + 1] < b[i + 1];
      }
    } else if a != "" && b != "" && a[0] < b[0] {
      assert a[..0] == b[..0];
    }
  }

  /** The text around one occurrence of the name, with no word character next to it. */
  ghost predicate Token(text: string, name: string, before: string, after: string, isWord: char -> bool) {
    && text == before + name + after
    && (before == "" || !isWord(before[|before| - 1]))
    && (after == "" || !isWord(after[0]))
  }

  lemma TokenAt(text: string, name: string, i: nat, isWord: char -> bool)
    requires name != "" && isWord(name[0]) && isWord(name[|name| - 1])
    requires i + |name| <= |text| && text[i..i + |name|] == name
    ensures Boundary(text, i, isWord) && Boundary(text, i + |name|, isWord)
            <==> Token(text, name, text[..i], text[i + |name|..], isWord)
  {
    var j := i + |name|;
    assert text[i] == name[0] && text[j - 1] == name[|name| - 1];
    assert text == text[..i] + text[i..j] + text[j..];
  }

  /** For a name that starts and ends in word characters: it occurs with none on either side. */
  lemma MentionsExactly(text: string, name: string, isWord: char -> bool)
    requires name != "" && isWord(name[0]) && isWord(name[|name| - 1])
    ensures Mentions(text, name, isWord) <==> exists before, after :: Token(text, name, before, after, isWord)
  {
    if Mentions(text, name, isWord) {
      var before, after := MentionIsToken(text, name, isWord);
    }
    if before, after :| Token(text, name, before, after, isWord) {
      TokenMentions(text, name, before, after, isWord);
    }
  }

  lemma MentionIsToken(text: string, name: string, isWord: char -> bool) returns (before: string, after: string)
    requires name != "" && isWord(name[0]) && isWord(name[|name| - 1])
    requires Mentions(text, name, isWord)
    ensures Token(text, name, before, after, isWord)
  {
    var i :| 0 <= i <= |text| - |name| && text[i..i + |name|] == name
             && Boundary(text, i, isWord) && Boundary(text, i + |name|, isWord);
    before, after := text[..i], text[i + |name|..];
    TokenAt(text, name, i, isWord);
  }

  lemma TokenMentions(text: string, name: string, before: string, after: string, isWord: char -> bool)
    requires name != "" && isWord(name[0]) && isWord(name[|name| - 1])
    requires Token(text, name, before, after, isWord)
    ensures Mentions(text, name, isWord)
  {
    var i := |before|;
    assert text[..i] == before && text[i..i + |name|] == name && text[i + |name|..] == after;
    TokenAt(text, name, i, isWord);
  }

  /** The contract loader refuses a docs file outside the repository. */
  ghost predicate PathsStayInside(c: Contract) {
    forall name :: name in c ==> StaysInside(c[name].docs.file)
  }

  /** The gate accepts a classification exactly when it is not a docs pull request, or no drifted
      variable is secret-like and every drifted declared one is documented, by a reference that
      is not blank, at the place chosen for the first. */
  lemma GateAcceptsExactly(p: Proposal, c: Contract, live: map<string, string>, prs: seq<PullRequest>,
                           observed: Option<map<string, string>>, isWord: char -> bool, isSecret: string -> bool)
    requires IsClassification(p, c, live, prs, isWord) && PathsStayInside(c)
    ensures Accepts(p, c, observed, isSecret)
            <==> p.action == DocsPr ==>
                   && (forall name :: Drifted(name, c, live) ==> !isSecret(name))
                   && (var target := TargetOf(p.envDiffs[0].name, c);
                       && target.file != "" && target.section != ""
                       && forall name :: name in c && Drifted(name, c, live) ==> c[name].docs == target)
  {
    NeverRollsBack(p.action, p.envDiffs);
    FallbackStaysInside();
    if p.action == DocsPr {
      DocsPrAcceptedExactly(p, c, live, prs, isWord, isSecret);
    }
  }

  lemma FallbackStaysInside()
    ensures StaysInside(FALLBACK_FILE)
  {
    var p := FALLBACK_FILE;
    assert forall i :: 0 <= i <= |p| - 2 ==> p[i] != '.' || p[i + 1] != '.';
  }

  lemma DocsPrAcceptedExactly(p: Proposal, c: Contract, live: map<string, string>, prs: seq<PullRequest>,
                              isWord: char -> bool, isSecret: string -> bool)
    requires IsClassification(p, c, live, prs, isWord) && p.action == DocsPr
    ensures DocsPrSanctioned(p, c, isSecret)
            <==> && (forall name :: Drifted(name, c, live) ==> !isSecret(name))
                 && (var target := TargetOf(p.envDiffs[0].name, c);
                     && target.file != "" && target.section != ""
                     && forall name :: name in c && Drifted(name, c, live) ==> c[name].docs == target)
  {
    var target := TargetOf(p.envDiffs[0].name, c);
    assert forall d :: d in p.envDiffs ==> ActionFor(d) == DocsPr && IsDiffOf(d, d.name, c, live, prs, isWord);
    assert forall d :: d in p.envDiffs ==> (MayDocument(d, c, isSecret) <==> !isSecret(d.name));
    assert (forall name :: Drifted(name, c, live) ==> !isSecret(name))
      <==> (forall d :: d in p.envDiffs ==> !isSecret(d.name));
    assert forall d :: d in p.envDiffs ==> (DocumentedAt(d, c, target.file, target.section) <==> d.name in c ==> c[d.name].docs == target);
    assert (forall name :: name in c && Drifted(name, c, live) ==> c[name].docs == target)
      <==> (forall d :: d in p.envDiffs ==> DocumentedAt(d, c, target.file, target.section));
  }
}
