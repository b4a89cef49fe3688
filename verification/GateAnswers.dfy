/** What passes the gate, spelled out over the fields of the proposal, the contract and the observed
    environment. */
module GateAnswers {
  import opened Wrappers
  import opened BoundedText
  import opened Validator
  import Paths = AdoptRecipe

  // ----- Single fields --------------------------------------------------------------------

  /** A revision name: a letter, at most 62 letters, digits and hyphens, and a letter or digit; all
      in lower case. */
  lemma RevisionNamesExactly(s: string)
    ensures IsRevisionName(s) <==> exists c, mid, d :: s == [c] + mid + [d] && RevisionParts(c, mid, d)
  {
    if IsRevisionName(s) {
      var n := |s| - 1;
      assert s == [s[0]] + s[1..n] + [s[n]];
      assert forall i :: 0 <= i < n - 1 ==> s[1..n][i] == s[i + 1];
      assert RevisionParts(s[0], s[1..n], s[n]);
    }
    if c, mid, d :| s == [c] + mid + [d] && RevisionParts(c, mid, d) {
      PartsAreRevision(s, c, mid, d);
    }
  }

  ghost predicate RevisionParts(c: char, mid: string, d: char) {
    && 'a' <= c <= 'z' && |mid| <= 62 && ('a' <= d <= 'z' || '0' <= d <= '9')
    && forall x :: x in mid ==> 'a' <= x <= 'z' || '0' <= x <= '9' || x == '-'
  }

  lemma PartsAreRevision(s: string, c: char, mid: string, d: char)
    requires s == [c] + mid + [d] && RevisionParts(c, mid, d)
    ensures IsRevisionName(s)
  {
    forall i | 0 <= i < |s| ensures IsLowerOrDigit(s[i]) || s[i] == '-' {
      assert s[i] == c || s[i] == d || s[i] in mid;
    }
  }

  lemma {:induction false} FirstSlash(p: string) returns (a: string, b: Option<string>)
    ensures Paths.SlashFree(a)
    ensures p == if b.None? then a else a + "/" + b.value
  {
    if p == "" {
      a, b := "", None;
    } else if p[0] == '/' {
      a, b := "", Some(p[1..]);
    } else {
      a, b := FirstSlash(p[1..]);
      a := [p[0]] + a;
    }
  }

  lemma ParentAlone(a: string)
    requires Paths.SlashFree(a)
    ensures HasParentSegment(a) <==> a == ".."
  {
    if i :| ParentAt(a, i) {
      assert a == [a[0]] + [a[1]];
    }
    if a == ".." {
      assert ParentAt(a, 0);
    }
  }

  lemma ParentBelow(p: string, a: string, b: string)
    requires Paths.SlashFree(a) && p == a + "/" + b
    ensures HasParentSegment(p) <==> a == ".." || HasParentSegment(b)
  {
    var n := |a| + 1;
    assert forall i :: n <= i < |p| ==> p[i] == b[i - n];
    assert forall i :: 0 <= i < |a| ==> p[i] == a[i];
    assert p[|a|] == '/';
    if i :| ParentAt(p, i) {
      if i < n {
        assert i == 0 && a == [a[0]] + [a[1]];
      } else {
        assert ParentAt(b, i - n);
      }
    }
    if a == ".." {
      assert ParentAt(p, 0);
    }
    if k :| ParentAt(b, k) {
      assert ParentAt(p, k + n);
    }
  }

  lemma {:induction false} ParentIsSegment(p: string)
    ensures HasParentSegment(p) <==> ".." in Paths.Segments(p)
    decreases |p|
  {
    var a, b := FirstSlash(p);
    if b.None? {
      Paths.SegmentsOfOne(a);
      ParentAlone(a);
    } else {
      Paths.SegmentsOfTwo(a, b.value);
      ParentBelow(p, a, b.value);
      ParentIsSegment(b.value);
    }
  }

  /** A docs path is accepted if and only if it is relative and none of its parts is `..`. */
  lemma StaysInsideExactly(p: string)
    ensures StaysInside(p) <==> !("/" <= p) && ".." !in Paths.Segments(p)
  {
    ParentIsSegment(p);
  }

  // ----- Whole proposals ------------------------------------------------------------------

  /** What every accepted proposal meets. */
  ghost predicate HeaderFits(p: Proposal) {
    && p.action in {NoOp, DocsPr, DriftIssue, Rollback, Escalation}
    && (exists x :: p.confidence == Number(x) && 0.0 <= x <= 1.0)
    && (p.action == NoOp || p.envDiffs != [])
    && (p.targetDocsFile.None? || (!("/" <= p.targetDocsFile.value) && ".." !in Paths.Segments(p.targetDocsFile.value)))
  }

  /** A reported variable agrees: the contract declares it with this value, or neither declares it
      nor is it live. */
  ghost predicate Agrees(d: EnvDiff, c: Contract) {
    || (d.name in c && d.live == Some(c[d.name].value))
    || (d.name !in c && d.live.None?)
  }

  /** A rollback passes if and only if: its revision has a revision's name and a person is to look
      at it; no variable is reported with two live values; each report agrees or is of a variable
      that must not be changed by hand, and one of these does not agree; and such a variable was
      observed, live, with a value other than the declared one. */
  lemma RollbackPassesExactly(p: Proposal, c: Contract, live: Option<map<string, string>>, isSecret: string -> bool)
    requires p.action == Rollback
    ensures Accepts(p, c, live, isSecret)
            <==> && HeaderFits(p)
                 && (exists s, d, mid :: p.targetRevision == Some([s] + mid + [d]) && RevisionParts(s, mid, d))
                 && p.requiresHumanReview
                 && (forall x, y :: x in p.envDiffs && y in p.envDiffs && x.name == y.name ==> x.live == y.live)
                 && (forall d :: d in p.envDiffs ==> Agrees(d, c) || (d.name in c && !c[d.name].allowManualChange))
                 && (exists d :: d in p.envDiffs && !Agrees(d, c))
                 && live.Some?
                 && (exists name :: && name in c && !c[name].allowManualChange
                                    && name in live.value && live.value[name] != c[name].value)
  {
    HeaderExactly(p);
    CoherentExactly(p.envDiffs);
    if p.targetRevision.Some? {
      RevisionNamesExactly(p.targetRevision.value);
    }
    assert forall d :: Deviates(d, c) <==> !Agrees(d, c);
    if live.Some? {
      forall name | name in c && !c[name].allowManualChange && name in live.value && live.value[name] != c[name].value
        ensures ObservedViolation(name, c, live.value)
      {
      }
    }
  }

  lemma HeaderExactly(p: Proposal)
    ensures HeaderWellFormed(p) <==> HeaderFits(p)
  {
    if p.targetDocsFile.Some? {
      StaysInsideExactly(p.targetDocsFile.value);
    }
  }

  lemma CoherentExactly(diffs: seq<EnvDiff>)
    ensures Coherent(diffs) <==> forall x, y :: x in diffs && y in diffs && x.name == y.name ==> x.live == y.live
  {
    if Coherent(diffs) {
      forall x, y | x in diffs && y in diffs && x.name == y.name ensures x.live == y.live {
        var i :| 0 <= i < |diffs| && diffs[i] == x;
        var j :| 0 <= j < |diffs| && diffs[j] == y;
        assert i < j || j < i || i == j;
      }
    }
    if forall x, y :: x in diffs && y in diffs && x.name == y.name ==> x.live == y.live {
      forall i, j | 0 <= i < j < |diffs| && diffs[i].name == diffs[j].name ensures diffs[i].live == diffs[j].live {
        assert diffs[i] in diffs && diffs[j] in diffs;
      }
    }
  }

  /** A docs pull request passes if and only if it names a file and a section, and each reported
      variable is no secret and either declared, open to manual change and documented at that very
      place, or not declared and explained by a pull request. */
  lemma DocsPrPassesExactly(p: Proposal, c: Contract, live: Option<map<string, string>>, isSecret: string -> bool)
    requires p.action == DocsPr
    ensures Accepts(p, c, live, isSecret)
            <==> && HeaderFits(p)
                 && p.targetDocsFile.Some? && p.targetDocsFile.value != ""
                 && p.targetDocsSection.Some? && p.targetDocsSection.value != ""
                 && forall d :: d in p.envDiffs ==>
                      && !isSecret(d.name)
                      && if d.name in c
                         then && c[d.name].allowManualChange
                              && c[d.name].docs.file == p.targetDocsFile.value
                              && c[d.name].docs.section == p.targetDocsSection.value
                         else d.recentPrMatch.Some? && d.recentPrMatch.value != ""
  {
    HeaderExactly(p);
  }

  /** Everything else passes on its header alone. */
  lemma OthersPassExactly(p: Proposal, c: Contract, live: Option<map<string, string>>, isSecret: string -> bool)
    requires p.action != Rollback && p.action != DocsPr
    ensures Accepts(p, c, live, isSecret) <==> HeaderFits(p)
  {
    HeaderExactly(p);
  }
}
