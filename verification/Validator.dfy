/** The gate every proposed decision passes before anything acts on it. The gate is a sequence of
    loops that stop at the first fault; what it accepts is one declarative predicate. */
module Validator {
  import opened Wrappers
  import opened BoundedText

  // ----- Proposals and the operational contract -------------------------------------------

  datatype Action = NoOp | DocsPr | DriftIssue | Rollback | Escalation | UpgradePr

  datatype Status = Absent | PresentAllowManual | PresentDisallowManual | Match

  datatype Confidence = Number(value: real) | PositiveInfinity | NegativeInfinity | NotANumber

  datatype EnvDiff = EnvDiff(
    name: string,
    expected: Option<string>,
    live: Option<string>,
    contractStatus: Status,
    debugConfigValue: Option<string>,
    recentPrMatch: Option<string>)

  datatype Proposal = Proposal(
    action: Action,
    envDiffs: seq<EnvDiff>,
    targetDocsFile: Option<string>,
    targetDocsSection: Option<string>,
    targetRevision: Option<string>,
    rationale: string,
    confidence: Confidence,
    requiresHumanReview: bool)

  datatype DocsRef = DocsRef(file: string, section: string)

  datatype Rule = Rule(value: string, docs: DocsRef, allowManualChange: bool)

  /** The declared environment; the contract's other fields play no part here. */
  type Contract = map<string, Rule>

  predicate Given(s: Option<string>) {
    s.Some? && s.value != ""
  }

  // ----- Header fields --------------------------------------------------------------------

  predicate InDriftWorkload(a: Action) {
    a != UpgradePr
  }

  predicate InUnitRange(c: Confidence) {
    c.Number? && 0.0 <= c.value <= 1.0
  }

  /** Some whole `/`-separated segment is `..`. */
  predicate HasParentSegment(p: string) {
    exists i :: 0 <= i <= |p| - 2 && ParentAt(p, i)
  }

  predicate ParentAt(p: string, i: int) {
    && 0 <= i <= |p| - 2 && p[i] == '.' && p[i + 1] == '.'
    && (i == 0 || p[i - 1] == '/') && (i + 2 == |p| || p[i + 2] == '/')
  }

  predicate StaysInside(p: string) {
    (p == "" || p[0] != '/') && !HasParentSegment(p)
  }

  predicate IsLowerOrDigit(c: char) {
    'a' <= c <= 'z' || '0' <= c <= '9'
  }

  /** What whitespace is stays open, as long as no lower-case letter or digit is. */
  ghost predicate NoSpaceInNames(isSpace: char -> bool) {
    forall c :: IsLowerOrDigit(c) ==> !isSpace(c)
  }

  predicate IsRevisionName(s: string) {
    && 2 <= |s| <= 64
    && 'a' <= s[0] <= 'z'
    && IsLowerOrDigit(s[|s| - 1])
    && forall i :: 0 <= i < |s| ==> IsLowerOrDigit(s[i]) || s[i] == '-'
  }

  // ----- What is accepted -----------------------------------------------------------------

  /** The report disagrees with the contract: with the declared value, or, for a variable the
      contract does not declare, by being present at all. */
  predicate Deviates(d: EnvDiff, c: Contract) {
    if d.name in c then d.live != Some(c[d.name].value) else d.live.Some?
  }

  predicate IsStrict(name: string, c: Contract) {
    name in c && !c[name].allowManualChange
  }

  predicate Coherent(diffs: seq<EnvDiff>) {
    forall i, j :: 0 <= i < j < |diffs| && diffs[i].name == diffs[j].name ==> diffs[i].live == diffs[j].live
  }

  predicate ObservedViolation(name: string, c: Contract, live: map<string, string>) {
    IsStrict(name, c) && name in live && live[name] != c[name].value
  }

  ghost predicate RollbackJustified(p: Proposal, c: Contract, live: Option<map<string, string>>) {
    && p.targetRevision.Some? && IsRevisionName(p.targetRevision.value)
    && p.requiresHumanReview
    && Coherent(p.envDiffs)
    && (forall d :: d in p.envDiffs && Deviates(d, c) ==> IsStrict(d.name, c))
    && (exists d :: d in p.envDiffs && Deviates(d, c))
    && live.Some?
    && (exists name :: ObservedViolation(name, c, live.value))
  }

  /** A change may be documented: not a secret, evidenced when undeclared, and when declared, open
      to manual change. */
  predicate MayDocument(d: EnvDiff, c: Contract, isSecret: string -> bool) {
    && !isSecret(d.name)
    && (d.name !in c ==> Given(d.recentPrMatch))
    && (d.name in c ==> c[d.name].allowManualChange)
  }

  predicate DocumentedAt(d: EnvDiff, c: Contract, file: string, section: string) {
    d.name in c ==> c[d.name].docs == DocsRef(file, section)
  }

  ghost predicate DocsPrSanctioned(p: Proposal, c: Contract, isSecret: string -> bool) {
    && Given(p.targetDocsFile) && Given(p.targetDocsSection)
    && (forall d :: d in p.envDiffs ==> MayDocument(d, c, isSecret))
    && (forall d :: d in p.envDiffs ==> DocumentedAt(d, c, p.targetDocsFile.value, p.targetDocsSection.value))
  }

  ghost predicate HeaderWellFormed(p: Proposal) {
    && InDriftWorkload(p.action)
    && InUnitRange(p.confidence)
    && (p.action != NoOp ==> p.envDiffs != [])
    && (p.targetDocsFile.Some? ==> StaysInside(p.targetDocsFile.value))
  }

  ghost predicate Accepts(p: Proposal, c: Contract, live: Option<map<string, string>>, isSecret: string -> bool) {
    && HeaderWellFormed(p)
    && (p.action == Rollback ==> RollbackJustified(p, c, live))
    && (p.action == DocsPr ==> DocsPrSanctioned(p, c, isSecret))
  }

  // ----- Refusals -------------------------------------------------------------------------

  datatype Fault =
    | WrongWorkload | ConfidenceOutOfRange | NoDiffs | PathRejected
    | RevisionMissing | RevisionNameRejected | ReviewNotRequired
    | ConflictingLive(name: string) | NotAHardViolation(name: string) | NothingReported
    | NothingObservable | NothingObserved
    | DocsFileMissing | DocsSectionMissing
    | SecretLikeName(name: string) | NoPrEvidence(name: string) | ManualChangeForbidden(name: string)
    | FileMismatch(name: string) | SectionMismatch(name: string)

  /** A fault says something true about the proposal it refuses. */
  ghost predicate Grounded(f: Fault, p: Proposal, c: Contract, live: Option<map<string, string>>,
                           isSecret: string -> bool, isSpace: char -> bool)
  {
    match f
    case WrongWorkload => !InDriftWorkload(p.action)
    case ConfidenceOutOfRange => !InUnitRange(p.confidence)
    case NoDiffs => p.action != NoOp && p.envDiffs == []
    case PathRejected => p.targetDocsFile.Some? && !StaysInside(p.targetDocsFile.value)
    case RevisionMissing => p.targetRevision.None? || Strip(p.targetRevision.value, isSpace) == ""
    case RevisionNameRejected => p.targetRevision.Some? && !IsRevisionName(p.targetRevision.value)
    case ReviewNotRequired => !p.requiresHumanReview
    case ConflictingLive(name) =>
      exists d, e :: d in p.envDiffs && e in p.envDiffs && d.name == e.name == name && d.live != e.live
    case NotAHardViolation(name) =>
      !IsStrict(name, c) && exists d :: d in p.envDiffs && d.name == name && Deviates(d, c)
    case NothingReported => forall d :: d in p.envDiffs ==> !Deviates(d, c)
    case NothingObservable => live.None?
    case NothingObserved => live.Some? && forall name :: !ObservedViolation(name, c, live.value)
    case DocsFileMissing => !Given(p.targetDocsFile)
    case DocsSectionMissing => !Given(p.targetDocsSection)
    case SecretLikeName(name) => isSecret(name) && exists d :: d in p.envDiffs && d.name == name
    case NoPrEvidence(name) =>
      name !in c && exists d :: d in p.envDiffs && d.name == name && !Given(d.recentPrMatch)
    case ManualChangeForbidden(name) => IsStrict(name, c) && exists d :: d in p.envDiffs && d.name == name
    case FileMismatch(name) => name in c && Some(c[name].docs.file) != p.targetDocsFile
    case SectionMismatch(name) => name in c && Some(c[name].docs.section) != p.targetDocsSection
  }

  // ----- The gate -------------------------------------------------------------------------

  /** Whether observed state holds a violation to revert. Without an observation, the answer is a
      refusal. */
  method AuthorizeFromLiveEnv(c: Contract, live: Option<map<string, string>>) returns (fault: Option<Fault>)
    ensures fault.None? <==> live.Some? && exists name :: ObservedViolation(name, c, live.value)
    ensures fault.Some? ==> fault.value == if live.None? then NothingObservable else NothingObserved
  {
    if live.None? {
      return Some(NothingObservable);
    }
    var violations := 0;
    var names := c.Keys;
    while names != {}
      invariant names <= c.Keys && violations >= 0
      invariant violations > 0 <==> exists name :: name !in names && ObservedViolation(name, c, live.value)
      decreases |names|
    {
      var name :| name in names;
      names := names - {name};
      if c[name].allowManualChange || name !in live.value { continue; }
      if live.value[name] != c[name].value {
        assert ObservedViolation(name, c, live.value);
        violations := violations + 1;
      }
    }
    return if violations == 0 then Some(NothingObserved) else None;
  }

  /** No variable is reported with two live values. */
  method CheckCoherence(diffs: seq<EnvDiff>) returns (fault: Option<Fault>)
    ensures fault.None? <==> Coherent(diffs)
    ensures fault.Some? ==> && fault.value.ConflictingLive?
                            && exists d, e :: && d in diffs && e in diffs && d.live != e.live
                                              && d.name == e.name == fault.value.name
  {
    var seen: map<string, Option<string>> := map[];
    for i := 0 to |diffs|
      invariant forall k :: 0 <= k < i ==> diffs[k].name in seen && seen[diffs[k].name] == diffs[k].live
      invariant forall name :: name in seen ==> exists k :: 0 <= k < i && diffs[k].name == name && diffs[k].live == seen[name]
    {
      var diff := diffs[i];
      if diff.name in seen && seen[diff.name] != diff.live {
        var k :| 0 <= k < i && diffs[k].name == diff.name && diffs[k].live == seen[diff.name];
        assert diffs[k] in diffs && diff in diffs;
        return Some(ConflictingLive(diff.name));
      }
      seen := seen[diff.name := diff.live];
    }
    return None;
  }

  /** Every reported deviation is a hard violation, and there is one. */
  method CheckReported(diffs: seq<EnvDiff>, c: Contract) returns (fault: Option<Fault>)
    ensures fault.None? <==> && (forall d :: d in diffs && Deviates(d, c) ==> IsStrict(d.name, c))
                             && (exists d :: d in diffs && Deviates(d, c))
    ensures fault.Some? ==>
              if fault.value.NotAHardViolation?
              then !IsStrict(fault.value.name, c) && exists d :: d in diffs && d.name == fault.value.name && Deviates(d, c)
              else fault.value == NothingReported && forall d :: d in diffs ==> !Deviates(d, c)
  {
    var violations := 0;
    for i := 0 to |diffs|
      invariant violations >= 0
      invariant forall k :: 0 <= k < i && Deviates(diffs[k], c) ==> IsStrict(diffs[k].name, c)
      invariant violations > 0 <==> exists k :: 0 <= k < i && Deviates(diffs[k], c)
    {
      var diff := diffs[i];
      var derived;
      if diff.name !in c {
        if diff.live.None? { continue; }
        derived := Absent;
      } else {
        if diff.live == Some(c[diff.name].value) { continue; }
        derived := if c[diff.name].allowManualChange then PresentAllowManual else PresentDisallowManual;
      }
      assert Deviates(diff, c) && diff in diffs;
      if derived != PresentDisallowManual {
        return Some(NotAHardViolation(diff.name));
      }
      violations := violations + 1;
    }
    return if violations == 0 then Some(NothingReported) else None;
  }

  method ValidateRollback(p: Proposal, c: Contract, live: Option<map<string, string>>, isSpace: char -> bool)
    returns (fault: Option<Fault>)
    requires NoSpaceInNames(isSpace)
    ensures fault.None? <==> RollbackJustified(p, c, live)
    ensures fault.Some? ==> forall isSecret :: Grounded(fault.value, p, c, live, isSecret, isSpace)
  {
    if p.targetRevision.None? || Strip(p.targetRevision.value, isSpace) == "" {
      BlankIsNoRevisionName(p.targetRevision, isSpace);
      return Some(RevisionMissing);
    }
    if !IsRevisionName(p.targetRevision.value) {
      return Some(RevisionNameRejected);
    }
    if !p.requiresHumanReview {
      return Some(ReviewNotRequired);
    }
    fault := CheckCoherence(p.envDiffs);
    if fault.Some? { return; }
    fault := CheckReported(p.envDiffs, c);
    if fault.Some? { return; }
    fault := AuthorizeFromLiveEnv(c, live);
  }

  /** A fault of one reported change that a docs pull request may not carry. */
  predicate DocsFault(f: Fault, d: EnvDiff, c: Contract, isSecret: string -> bool) {
    match f
    case SecretLikeName(name) => name == d.name && isSecret(name)
    case NoPrEvidence(name) => name == d.name && name !in c && !Given(d.recentPrMatch)
    case ManualChangeForbidden(name) => name == d.name && IsStrict(name, c)
    case _ => false
  }

  method CheckDocumentable(diffs: seq<EnvDiff>, c: Contract, isSecret: string -> bool) returns (fault: Option<Fault>)
    ensures fault.None? <==> forall d :: d in diffs ==> MayDocument(d, c, isSecret)
    ensures fault.Some? ==> exists d :: d in diffs && DocsFault(fault.value, d, c, isSecret)
  {
    for i := 0 to |diffs|
      invariant forall k :: 0 <= k < i ==> MayDocument(diffs[k], c, isSecret)
    {
      var diff := diffs[i];
      fault := None;
      if isSecret(diff.name) {
        fault := Some(SecretLikeName(diff.name));
      } else if diff.name !in c {
        if !Given(diff.recentPrMatch) { fault := Some(NoPrEvidence(diff.name)); }
      } else if !c[diff.name].allowManualChange {
        fault := Some(ManualChangeForbidden(diff.name));
      }
      if fault.Some? {
        assert diff in diffs && DocsFault(fault.value, diff, c, isSecret);
        return;
      }
    }
    return None;
  }

  method CheckDocsTargets(diffs: seq<EnvDiff>, c: Contract, file: string, section: string) returns (fault: Option<Fault>)
    ensures fault.None? <==> forall d :: d in diffs ==> DocumentedAt(d, c, file, section)
    ensures fault.Some? ==>
              || (fault.value.FileMismatch? && fault.value.name in c && c[fault.value.name].docs.file != file)
              || (fault.value.SectionMismatch? && fault.value.name in c && c[fault.value.name].docs.section != section)
  {
    for i := 0 to |diffs|
      invariant forall k :: 0 <= k < i ==> DocumentedAt(diffs[k], c, file, section)
    {
      var diff := diffs[i];
      assert diff in diffs;
      if diff.name in c && c[diff.name].docs.file != file { return Some(FileMismatch(diff.name)); }
      if diff.name in c && c[diff.name].docs.section != section { return Some(SectionMismatch(diff.name)); }
    }
    return None;
  }

  /** Whether each reported change may be documented, and where the contract says. */
  method ValidateDocsPr(p: Proposal, c: Contract, isSecret: string -> bool) returns (fault: Option<Fault>)
    ensures fault.None? <==> DocsPrSanctioned(p, c, isSecret)
    ensures fault.Some? ==> forall live, isSpace :: Grounded(fault.value, p, c, live, isSecret, isSpace)
  {
    if !Given(p.targetDocsFile) { return Some(DocsFileMissing); }
    if !Given(p.targetDocsSection) { return Some(DocsSectionMissing); }
    fault := CheckDocumentable(p.envDiffs, c, isSecret);
    if fault.Some? { return; }
    fault := CheckDocsTargets(p.envDiffs, c, p.targetDocsFile.value, p.targetDocsSection.value);
  }

  /** The gate accepts exactly what the predicate describes, and refuses for a true reason. */
  method Validate(p: Proposal, c: Contract, live: Option<map<string, string>>,
                  isSecret: string -> bool, isSpace: char -> bool) returns (fault: Option<Fault>)
    requires NoSpaceInNames(isSpace)
    ensures fault.None? <==> Accepts(p, c, live, isSecret)
    ensures fault.Some? ==> Grounded(fault.value, p, c, live, isSecret, isSpace)
  {
    if !InDriftWorkload(p.action) { return Some(WrongWorkload); }
    if !InUnitRange(p.confidence) { return Some(ConfidenceOutOfRange); }
    if p.action != NoOp && p.envDiffs == [] { return Some(NoDiffs); }
    if p.targetDocsFile.Some? && !StaysInside(p.targetDocsFile.value) { return Some(PathRejected); }
    fault := None;
    if p.action == Rollback {
      fault := ValidateRollback(p, c, live, isSpace);
    } else if p.action == DocsPr {
      fault := ValidateDocsPr(p, c, isSecret);
    }
  }

  lemma BlankIsNoRevisionName(rev: Option<string>, isSpace: char -> bool)
    requires NoSpaceInNames(isSpace)
    requires rev.None? || Strip(rev.value, isSpace) == ""
    ensures rev.None? || !IsRevisionName(rev.value)
  {
    if rev.Some? {
      StripKeepsSomething(rev.value, isSpace);
      assert rev.value != "" ==> rev.value[0] in rev.value;
    }
  }

  // ----- What the verdict rests on --------------------------------------------------------

  datatype Claim = Claim(name: string, live: Option<string>)

  /** The report reduced to who holds what value: no order, no repetition, and nothing else that
      was written about a variable. */
  function Claims(diffs: seq<EnvDiff>): set<Claim> {
    set d | d in diffs :: Claim(d.name, d.live)
  }

  predicate ClaimDeviates(x: Claim, c: Contract) {
    if x.name in c then x.live != Some(c[x.name].value) else x.live.Some?
  }

  ghost predicate ClaimsJustify(claims: set<Claim>, c: Contract) {
    && (forall x, y :: x in claims && y in claims && x.name == y.name ==> x == y)
    && (forall x :: x in claims && ClaimDeviates(x, c) ==> IsStrict(x.name, c))
    && (exists x :: x in claims && ClaimDeviates(x, c))
  }

  lemma CoherentAsClaims(diffs: seq<EnvDiff>)
    ensures Coherent(diffs)
            <==> forall x, y :: x in Claims(diffs) && y in Claims(diffs) && x.name == y.name ==> x == y
  {
    var claims := Claims(diffs);
    if Coherent(diffs) {
      forall x, y | x in claims && y in claims && x.name == y.name ensures x == y {
        var i :| 0 <= i < |diffs| && Claim(diffs[i].name, diffs[i].live) == x;
        var j :| 0 <= j < |diffs| && Claim(diffs[j].name, diffs[j].live) == y;
        assert i < j || j < i || i == j;
      }
    }
    if forall x, y :: x in claims && y in claims && x.name == y.name ==> x == y {
      forall i, j | 0 <= i < j < |diffs| && diffs[i].name == diffs[j].name ensures diffs[i].live == diffs[j].live {
        assert Claim(diffs[i].name, diffs[i].live) in claims && Claim(diffs[j].name, diffs[j].live) in claims;
      }
    }
  }

  lemma DeviationsAsClaims(diffs: seq<EnvDiff>, c: Contract)
    ensures (forall d :: d in diffs && Deviates(d, c) ==> IsStrict(d.name, c))
            <==> forall x :: x in Claims(diffs) && ClaimDeviates(x, c) ==> IsStrict(x.name, c)
    ensures (exists d :: d in diffs && Deviates(d, c)) <==> exists x :: x in Claims(diffs) && ClaimDeviates(x, c)
  {
    var claims := Claims(diffs);
    assert forall d :: d in diffs ==> Claim(d.name, d.live) in claims;
    assert forall d :: Deviates(d, c) <==> ClaimDeviates(Claim(d.name, d.live), c);
  }

  lemma JustifiedAsClaims(p: Proposal, c: Contract, live: Option<map<string, string>>)
    ensures RollbackJustified(p, c, live)
            <==> && p.targetRevision.Some? && IsRevisionName(p.targetRevision.value)
                 && p.requiresHumanReview
                 && ClaimsJustify(Claims(p.envDiffs), c)
                 && live.Some? && exists name :: ObservedViolation(name, c, live.value)
  {
    CoherentAsClaims(p.envDiffs);
    DeviationsAsClaims(p.envDiffs, c);
  }

  /** Only what was observed of the contract's strict variables. */
  ghost predicate SameOnStrict(c: Contract, x: Option<map<string, string>>, y: Option<map<string, string>>) {
    && x.Some? == y.Some?
    && (x.Some? ==> forall name :: IsStrict(name, c) ==>
          && (name in x.value <==> name in y.value)
          && (name in x.value ==> x.value[name] == y.value[name]))
  }

  lemma SameViolations(c: Contract, x: map<string, string>, y: map<string, string>)
    requires SameOnStrict(c, Some(x), Some(y))
    ensures (exists name :: ObservedViolation(name, c, x)) <==> exists name :: ObservedViolation(name, c, y)
  {
    assert forall name :: ObservedViolation(name, c, x) <==> ObservedViolation(name, c, y);
  }

  /** A rollback verdict rests on the claimed live values, the contract, and what was observed of
      its strict variables: the authored `expected`, status, pull request and debug fields, the
      order and repetition of the report, the rationale, and every other observed variable are
      never consulted. */
  lemma RollbackVerdictIgnoresTheRest(p: Proposal, q: Proposal, c: Contract,
                                      x: Option<map<string, string>>, y: Option<map<string, string>>,
                                      isSecret: string -> bool, isSecret': string -> bool)
    requires p.action == q.action == Rollback
    requires q.targetRevision == p.targetRevision && q.requiresHumanReview == p.requiresHumanReview
    requires q.targetDocsFile == p.targetDocsFile && q.confidence == p.confidence
    requires Claims(p.envDiffs) == Claims(q.envDiffs) && SameOnStrict(c, x, y)
    ensures Accepts(p, c, x, isSecret) <==> Accepts(q, c, y, isSecret')
  {
    JustifiedAsClaims(p, c, x);
    JustifiedAsClaims(q, c, y);
    if x.Some? {
      SameViolations(c, x.value, y.value);
    }
    assert RollbackJustified(p, c, x) <==> RollbackJustified(q, c, y);
  }

  /** The report that names one observed violation and nothing else. */
  function ViolationReport(name: string, live: string): Proposal {
    Proposal(Rollback, [EnvDiff(name, None, Some(live), Absent, None, None)], None, None, Some("aa"), "", Number(1.0), true)
  }

  /** Some rollback can pass the gate if and only if the observed environment shows a strict
      variable off its declared value: no report, however written, makes up for an observation
      that is missing or clean, and one violation is enough. */
  lemma RollbackPossibleExactly(c: Contract, live: Option<map<string, string>>, isSecret: string -> bool)
    ensures (exists p: Proposal :: p.action == Rollback && Accepts(p, c, live, isSecret))
            <==> live.Some? && exists name :: ObservedViolation(name, c, live.value)
  {
    if live.Some? {
      if name :| ObservedViolation(name, c, live.value) {
        ViolationReportAccepted(name, c, live, isSecret);
      }
    }
  }

  lemma ViolationReportAccepted(name: string, c: Contract, live: Option<map<string, string>>, isSecret: string -> bool)
    requires live.Some? && ObservedViolation(name, c, live.value)
    ensures Accepts(ViolationReport(name, live.value[name]), c, live, isSecret)
  {
    var p := ViolationReport(name, live.value[name]);
    assert p.envDiffs[0] in p.envDiffs && Deviates(p.envDiffs[0], c);
    assert IsRevisionName("aa");
  }
}
