/** The operator-facing body of a rollback approval. The budget is spent before assembly: the
    rationale and the evidence table are bounded to what the fixed template leaves over, so the
    approval link is never cut. */
module RollbackBody {
  import opened Wrappers
  import opened BoundedText
  import opened Validator

  /** The fixed copy. Every result below holds whatever it says. */
  datatype Copy = Copy(
    tableHeader: string,
    evidenceOmitted: string,
    noteOpening: string,
    noteClosing: string,
    opening: string,
    rollingBack: string,
    introClosing: string,
    details: string,
    reason: string,
    approval: string,
    expiry: string,
    closing: string,
    minimalOpening: string,
    minimalClosing: string)

  const SHIPPED := Copy(
    "| Var | Expected | Live | Status | Recent PR | /debug/config |\n|---|---|---|---|---|---|",
    "_The change evidence did not fit this notification. Open the approval " +
    "link below to see it in full._",
    "\n\n_",
    " further changed variable(s) omitted from this notification._",
    "## DriftScribe — rollback proposed (approval required)\n\n**Approve or reject:** ",
    "\n\nRolling back `payment-demo` to `",
    "`.\n\n",
    "\n\n### Rollback details\n\n- **Service:** `payment-demo`\n- **Target revision:** `",
    "`\n- **Reason:** hard contract violation — see rationale above and the evidence\n" +
    "  table below.\n\n### Evidence\n\n",
    "\n\n### Operator approval required\n\n" +
    "Click to review and approve / reject the rollback:\n\n",
    "\n\nThis approval link expires in 15 minutes. After expiry, DriftScribe must\n" +
    "re-propose to mint a fresh token.\n\n" +
    "> Approving this rollback will swing **100% of traffic** on `payment-demo`\n> to revision `",
    "`. Rejecting leaves traffic on the current\n" +
    "> revision and DriftScribe will not retry automatically.\n",
    "## DriftScribe — rollback proposed (approval required)\n\nRoll back `payment-demo` to `",
    "`. The details did not fit this notification — approve or reject here:\n\n")

  // ----- The evidence table ---------------------------------------------------------------

  function RowOmissionNote(t: Copy, dropped: int): string {
    if dropped <= 0 then ""
    else t.noteOpening + Decimal(dropped) + t.noteClosing
  }

  /** Every row on a line of its own. */
  function Lines(rows: seq<string>): string {
    if rows == [] then "" else Lines(rows[..|rows| - 1]) + "\n" + rows[|rows| - 1]
  }

  /** The whole table, as an unbounded body shows it. */
  function EvidenceTable(t: Copy, rows: seq<string>): string {
    if rows == [] then t.tableHeader + "\n" else t.tableHeader + Lines(rows)
  }

  /** The table cut after its first `k` rows, with a note of how many went. */
  function CutTable(t: Copy, rows: seq<string>, k: nat): string
    requires k <= |rows|
  {
    t.tableHeader + Lines(rows[..k]) + RowOmissionNote(t, |rows| - k)
  }

  /** The greedy count: up to the first cut that does not fit. */
  function Greedy(fits: nat -> bool, n: nat, from: nat): (k: nat)
    requires from <= n
    ensures from <= k <= n
    decreases n - from
  {
    if from < n && fits(from + 1) then Greedy(fits, n, from + 1) else from
  }

  function CutFits(t: Copy, rows: seq<string>, budget: int): nat -> bool {
    (k: nat) => k <= |rows| && |CutTable(t, rows, k)| <= budget
  }

  function Kept(t: Copy, rows: seq<string>, budget: int): (k: nat)
    ensures k <= |rows|
  {
    Greedy(CutFits(t, rows, budget), |rows|, 0)
  }

  function Evidence(t: Copy, rows: seq<string>, budget: int): string {
    var k := Kept(t, rows, budget);
    if k > 0 then CutTable(t, rows, k)
    else if |t.evidenceOmitted| <= budget then t.evidenceOmitted
    else ""
  }

  lemma LinesOfNext(rows: seq<string>, k: nat)
    requires k < |rows|
    ensures Lines(rows[..k + 1]) == Lines(rows[..k]) + "\n" + rows[k]
  {
    assert rows[..k + 1][..k] == rows[..k];
  }

  /** The room the first `k` rows and their line ends take. */
  function Width(rows: seq<string>, k: nat): nat
    requires k <= |rows|
  {
    if k == 0 then 0 else Width(rows, k - 1) + 1 + |rows[k - 1]|
  }

  lemma {:induction false} LinesWidth(rows: seq<string>, k: nat)
    requires k <= |rows|
    ensures |Lines(rows[..k])| == Width(rows, k)
  {
    if k > 0 {
      LinesWidth(rows, k - 1);
      LinesOfNext(rows, k - 1);
    }
  }

  /** The next row fits, together with the note that then remains. */
  predicate RowFits(t: Copy, rows: seq<string>, budget: int, k: nat)
    requires k < |rows|
  {
    |t.tableHeader| + Width(rows, k) + 1 + |rows[k]| + |RowOmissionNote(t, |rows| - k - 1)| <= budget
  }

  lemma NextCut(t: Copy, rows: seq<string>, budget: int, k: nat)
    requires k < |rows|
    ensures CutFits(t, rows, budget)(k + 1) <==> RowFits(t, rows, budget, k)
  {
    LinesWidth(rows, k + 1);
  }

  lemma KeptIs(t: Copy, rows: seq<string>, budget: int, k: nat)
    requires k <= |rows| && (k < |rows| ==> !RowFits(t, rows, budget, k))
    requires forall j :: 0 <= j < k ==> RowFits(t, rows, budget, j)
    ensures Kept(t, rows, budget) == k
  {
    var fits := CutFits(t, rows, budget);
    forall j | 0 < j <= k ensures fits(j) {
      NextCut(t, rows, budget, j - 1);
    }
    GreedyExactly(fits, |rows|, 0, k);
    if k < |rows| {
      NextCut(t, rows, budget, k);
      GreedyExactly(fits, |rows|, 0, k + 1);
    }
  }

  /** Rows are kept whole and in order until one no longer fits together with its note. */
  method KeepRows(t: Copy, rows: seq<string>, budget: int) returns (kept: seq<string>)
    ensures kept == rows[..Kept(t, rows, budget)]
  {
    kept := [];
    var used := |t.tableHeader|;
    for i := 0 to |rows|
      invariant kept == rows[..i] && used == |t.tableHeader| + Width(rows, i)
      invariant forall j :: 0 <= j < i ==> RowFits(t, rows, budget, j)
    {
      var row := rows[i];
      var note := |RowOmissionNote(t, |rows| - |kept| - 1)|;
      if used + 1 + |row| + note > budget {
        KeptIs(t, rows, budget, i);
        return;
      }
      kept := kept + [row];
      used := used + 1 + |row|;
    }
    KeptIs(t, rows, budget, |rows|);
  }

  /** The table of the kept rows, with the note of how many went. */
  method BoundedEvidence(t: Copy, rows: seq<string>, budget: int) returns (out: string)
    ensures out == Evidence(t, rows, budget)
  {
    var kept := KeepRows(t, rows, budget);
    EvidenceOfKept(t, rows, budget, kept);
    if kept == [] {
      out := if |t.evidenceOmitted| <= budget then t.evidenceOmitted else "";
    } else {
      out := t.tableHeader + Lines(kept);
      if |rows| - |kept| > 0 {
        out := out + RowOmissionNote(t, |rows| - |kept|);
      }
    }
  }

  lemma EvidenceOfKept(t: Copy, rows: seq<string>, budget: int, kept: seq<string>)
    requires kept == rows[..Kept(t, rows, budget)]
    ensures kept == [] ==> Evidence(t, rows, budget) == if |t.evidenceOmitted| <= budget then t.evidenceOmitted else ""
    ensures kept != [] ==> Evidence(t, rows, budget) == t.tableHeader + Lines(kept) + RowOmissionNote(t, |rows| - |kept|)
  {
  }

  lemma {:induction false} GreedyExactly(fits: nat -> bool, n: nat, from: nat, k: nat)
    requires from <= k <= n
    ensures k <= Greedy(fits, n, from) <==> forall j :: from < j <= k ==> fits(j)
    decreases n - from
  {
    if from < k && fits(from + 1) {
      GreedyExactly(fits, n, from + 1, k);
    }
  }

  /** At least `k` rows survive exactly when every cut up to `k` fits. */
  lemma KeptExactly(t: Copy, rows: seq<string>, budget: int, k: nat)
    requires k <= |rows|
    ensures k <= Kept(t, rows, budget) <==> forall j :: 0 < j <= k ==> |CutTable(t, rows, j)| <= budget
  {
    GreedyExactly(CutFits(t, rows, budget), |rows|, 0, k);
    assert forall j :: 0 < j <= k ==> (CutFits(t, rows, budget)(j) <==> |CutTable(t, rows, j)| <= budget);
  }

  /** What is shown is whole rows, never over the budget. */
  lemma EvidenceFits(t: Copy, rows: seq<string>, budget: int)
    ensures var k := Kept(t, rows, budget);
            && (budget >= 0 ==> |Evidence(t, rows, budget)| <= budget)
            && (k > 0 ==> Evidence(t, rows, budget) == CutTable(t, rows, k))
            && (k == |rows| > 0 ==> Evidence(t, rows, budget) == EvidenceTable(t, rows))
  {
    var k := Kept(t, rows, budget);
    KeptExactly(t, rows, budget, k);
    assert rows[..|rows|] == rows;
  }

  /** The table cut after `k` rows, spelled out: its header, those rows, and how many are missing. */
  function CutText(t: Copy, rows: seq<string>, k: nat): string
    requires k <= |rows|
  {
    t.tableHeader + Lines(rows[..k]) + if k == |rows| then "" else t.noteOpening + Decimal(|rows| - k) + t.noteClosing
  }

  /** What is shown of a table under a budget: the first `k` rows, where every shorter cut fits too
      and one more row does not; and for no row the note that stands for the table, if it fits. */
  ghost predicate EvidenceReads(t: Copy, rows: seq<string>, budget: int, out: string) {
    exists k: nat :: k <= |rows| && FirstRowsShown(t, rows, budget, k, out)
  }

  ghost predicate FirstRowsShown(t: Copy, rows: seq<string>, budget: int, k: nat, out: string)
    requires k <= |rows|
  {
    && (forall j :: 0 < j <= k ==> |CutText(t, rows, j)| <= budget)
    && (k < |rows| ==> |CutText(t, rows, k + 1)| > budget)
    && out == if k > 0 then CutText(t, rows, k) else if |t.evidenceOmitted| <= budget then t.evidenceOmitted else ""
  }

  lemma EvidenceShows(t: Copy, rows: seq<string>, budget: int)
    ensures EvidenceReads(t, rows, budget, Evidence(t, rows, budget))
  {
    var k := Kept(t, rows, budget);
    EvidenceIs(t, rows, budget);
    CutsFitUpTo(t, rows, budget, k);
    NoMoreFit(t, rows, budget, k);
    ShownByFirst(t, rows, budget, k, Evidence(t, rows, budget));
  }

  lemma NoMoreFit(t: Copy, rows: seq<string>, budget: int, k: nat)
    requires k == Kept(t, rows, budget)
    ensures k < |rows| ==> |CutText(t, rows, k + 1)| > budget
  {
    if k < |rows| {
      CutsFitUpTo(t, rows, budget, k);
      CutsFitUpTo(t, rows, budget, k + 1);
    }
  }

  lemma ShownByFirst(t: Copy, rows: seq<string>, budget: int, k: nat, out: string)
    requires k <= |rows| && FirstRowsShown(t, rows, budget, k, out)
    ensures EvidenceReads(t, rows, budget, out)
  {
  }

  lemma EvidenceIs(t: Copy, rows: seq<string>, budget: int)
    ensures var k := Kept(t, rows, budget);
            Evidence(t, rows, budget)
            == if k > 0 then CutText(t, rows, k) else if |t.evidenceOmitted| <= budget then t.evidenceOmitted else ""
  {
    CutTableReads(t, rows, Kept(t, rows, budget));
  }

  lemma CutsFitUpTo(t: Copy, rows: seq<string>, budget: int, k: nat)
    requires k <= |rows|
    ensures k <= Kept(t, rows, budget) <==> forall j :: 0 < j <= k ==> |CutText(t, rows, j)| <= budget
  {
    KeptExactly(t, rows, budget, k);
    forall j | 0 < j <= k ensures CutText(t, rows, j) == CutTable(t, rows, j) {
      CutTableReads(t, rows, j);
    }
  }

  lemma {:induction false} DecimalStep(n: nat)
    ensures |Decimal(n + 1)| <= |Decimal(n)| + 1
  {
    if n >= 10 {
      if (n + 1) / 10 == n / 10 + 1 {
        DecimalStep(n / 10);
      }
    }
  }

  /** Taking one more row never makes the cut table shorter, unless it is the last row and the
      note goes with it. */
  lemma CutTableGrows(t: Copy, rows: seq<string>, k: nat)
    requires k + 1 < |rows|
    ensures |CutTable(t, rows, k)| <= |CutTable(t, rows, k + 1)|
  {
    LinesOfNext(rows, k);
    DecimalStep(|rows| - k - 1);
  }

  lemma {:induction false} ShorterCutsFit(t: Copy, rows: seq<string>, budget: int, j: nat, k: nat)
    requires j <= k < |rows| && |CutTable(t, rows, k)| <= budget
    ensures |CutTable(t, rows, j)| <= budget
    decreases k - j
  {
    if j < k {
      CutTableGrows(t, rows, j);
      if j + 1 < k {
        ShorterCutsFit(t, rows, budget, j + 1, k);
      }
    }
  }

  /** No larger cut would have fitted, with one exception that the loop cannot see: the whole
      table, when it fits only because it needs no note. */
  lemma KeepsAsManyRowsAsFit(t: Copy, rows: seq<string>, budget: int, k: nat)
    requires 0 < k <= |rows|
    ensures k <= Kept(t, rows, budget)
            <==> && |CutTable(t, rows, k)| <= budget
                 && (1 < k == |rows| ==> |CutTable(t, rows, k - 1)| <= budget)
  {
    KeptExactly(t, rows, budget, k);
    var last := if k == |rows| then k - 1 else k;
    if |CutTable(t, rows, k)| <= budget && (1 < k == |rows| ==> |CutTable(t, rows, k - 1)| <= budget) {
      forall j | 0 < j <= k ensures |CutTable(t, rows, j)| <= budget {
        if j < k {
          ShorterCutsFit(t, rows, budget, j, last);
        }
      }
    }
  }

  /** A budget the whole table fits exactly shows it if and only if there is one row, or the last
      row and its line end are at least as long as the note they replace. */
  lemma WholeTableShownExactly(t: Copy, rows: seq<string>)
    requires rows != []
    ensures Kept(t, rows, |EvidenceTable(t, rows)|) == |rows|
            <==> |rows| == 1 || |rows[|rows| - 1]| + 1 >= |RowOmissionNote(t, 1)|
  {
    var n := |rows|;
    KeepsAsManyRowsAsFit(t, rows, |EvidenceTable(t, rows)|, n);
    assert rows[..n] == rows;
    LinesOfNext(rows, n - 1);
  }

  // ----- Rendered rows --------------------------------------------------------------------

  /** Characters that would break a table cell, escaped. */
  function Escape(s: string): string {
    if s == "" then ""
    else if s[0] == '\r' && |s| > 1 && s[1] == '\n' then "\\n" + Escape(s[2..])
    else if s[0] == '\r' || s[0] == '\n' then "\\n" + Escape(s[1..])
    else if s[0] == '|' || s[0] == '`' then ['\\', s[0]] + Escape(s[1..])
    else [s[0]] + Escape(s[1..])
  }

  function ValueCell(name: string, value: Option<string>, redact: (string, Option<string>) -> bool): string {
    if redact(name, value) then if value.Some? then "`(value redacted: secret-like)`" else "`—`"
    else if value.None? then "`—`"
    else "`" + Escape(value.value) + "`"
  }

  function PrCell(d: EnvDiff, redact: (string, Option<string>) -> bool, credentialed: Option<string> -> bool): string {
    if d.recentPrMatch.None? then "—"
    else if redact(d.name, d.recentPrMatch) || credentialed(d.expected) || credentialed(d.live) || credentialed(d.debugConfigValue)
    then "(redacted)"
    else Escape(d.recentPrMatch.value)
  }

  function StatusText(s: Status): string {
    match s
    case Absent => "absent"
    case PresentAllowManual => "present_allow_manual"
    case PresentDisallowManual => "present_disallow_manual"
    case Match => "match"
  }

  function DiffRow(d: EnvDiff, redact: (string, Option<string>) -> bool, credentialed: Option<string> -> bool): string {
    "| `" + Escape(d.name) + "` | " + ValueCell(d.name, d.expected, redact) + " | " +
    ValueCell(d.name, d.live, redact) + " | `" + StatusText(d.contractStatus) + "` | " +
    PrCell(d, redact, credentialed) + " | " + ValueCell(d.name, d.debugConfigValue, redact) + " |"
  }

  lemma {:induction false} PlainCell(s: string)
    requires forall i :: 0 <= i < |s| ==> s[i] !in {'\r', '\n', '|', '`'}
    ensures Escape(s) == s
  {
    if s != "" {
      PlainCell(s[1..]);
    }
  }

  lemma {:induction false} EscapeIsOneLine(s: string)
    ensures '\n' !in Escape(s) && '\r' !in Escape(s)
    decreases |s|
  {
    if s != "" {
      EscapeIsOneLine(s[1..]);
      if |s| > 1 {
        EscapeIsOneLine(s[2..]);
      }
    }
  }

  /** Every character that could end a cell or its code span stands right after a backslash. */
  ghost predicate Guarded(s: string) {
    forall i :: 0 <= i < |s| && (s[i] == '|' || s[i] == '`') ==> i > 0 && s[i - 1] == '\\'
  }

  lemma GuardedConcat(a: string, b: string)
    requires Guarded(a) && Guarded(b)
    ensures Guarded(a + b)
  {
    var t := a + b;
    forall i | 0 <= i < |t| && (t[i] == '|' || t[i] == '`') ensures i > 0 && t[i - 1] == '\\' {
      if i < |a| {
        assert a[i] == t[i];
      } else {
        assert b[i - |a|] == t[i];
      }
    }
  }

  lemma {:induction false} EscapeIsGuarded(s: string)
    ensures Guarded(Escape(s))
    decreases |s|
  {
    if s != "" {
      EscapeIsGuarded(s[1..]);
      GuardedConcat("\\n", Escape(s[1..]));
      if s[0] == '|' || s[0] == '`' {
        GuardedConcat(['\\', s[0]], Escape(s[1..]));
      } else if s[0] != '\r' && s[0] != '\n' {
        GuardedConcat([s[0]], Escape(s[1..]));
      }
      if |s| > 1 {
        EscapeIsGuarded(s[2..]);
        GuardedConcat("\\n", Escape(s[2..]));
      }
    }
  }

  /** A value as its cell shows it when nothing is escaped or redacted: a dash for none. */
  function Plainly(value: Option<string>): string {
    if value.Some? then value.value else "—"
  }

  /** The row of a difference with plain name and values, none of them redacted: its six columns in
      order, an absent value as a dash. */
  lemma PlainRowReads(d: EnvDiff, redact: (string, Option<string>) -> bool, credentialed: Option<string> -> bool)
    requires (forall v :: !redact(d.name, v)) && forall v :: !credentialed(v)
    requires PlainText(d.name) && PlainText(Plainly(d.expected)) && PlainText(Plainly(d.live))
    requires PlainText(Plainly(d.debugConfigValue)) && PlainText(Plainly(d.recentPrMatch))
    ensures DiffRow(d, redact, credentialed)
         == "| `" + d.name + "` | " + ("`" + Plainly(d.expected) + "`") + " | "
            + ("`" + Plainly(d.live) + "`") + " | `" + StatusText(d.contractStatus) + "` | "
            + Plainly(d.recentPrMatch) + " | " + ("`" + Plainly(d.debugConfigValue) + "`") + " |"
  {
    PlainCell(d.name);
    PlainValue(d.name, d.expected, redact);
    PlainValue(d.name, d.live, redact);
    PlainValue(d.name, d.debugConfigValue, redact);
    PlainPr(d, redact, credentialed);
  }

  lemma PlainPr(d: EnvDiff, redact: (string, Option<string>) -> bool, credentialed: Option<string> -> bool)
    requires (forall v :: !redact(d.name, v)) && (forall v :: !credentialed(v)) && PlainText(Plainly(d.recentPrMatch))
    ensures PrCell(d, redact, credentialed) == Plainly(d.recentPrMatch)
  {
    if d.recentPrMatch.Some? {
      PlainCell(d.recentPrMatch.value);
    }
  }

  lemma PlainValue(name: string, value: Option<string>, redact: (string, Option<string>) -> bool)
    requires !redact(name, value) && PlainText(Plainly(value))
    ensures ValueCell(name, value, redact) == "`" + Plainly(value) + "`"
  {
    if value.Some? {
      PlainCell(value.value);
    }
  }

  /** Equal, or both given and both redacted. */
  ghost predicate Indistinct(name: string, v: Option<string>, w: Option<string>, redact: (string, Option<string>) -> bool) {
    v == w || (v.Some? && w.Some? && redact(name, v) && redact(name, w))
  }

  /** The pull request is hidden when it, or any value beside it, must not be shown. */
  ghost predicate PrHidden(d: EnvDiff, redact: (string, Option<string>) -> bool, credentialed: Option<string> -> bool) {
    redact(d.name, d.recentPrMatch) || exists v :: v in {d.expected, d.live, d.debugConfigValue} && credentialed(v)
  }

  /** A row says of a redacted value that it is given and nothing else: two differences that agree
      on all that is not redacted have one row. */
  lemma RowHidesRedacted(d: EnvDiff, e: EnvDiff, redact: (string, Option<string>) -> bool,
                         credentialed: Option<string> -> bool)
    requires d.name == e.name && d.contractStatus == e.contractStatus
    requires Indistinct(d.name, d.expected, e.expected, redact) && Indistinct(d.name, d.live, e.live, redact)
    requires Indistinct(d.name, d.debugConfigValue, e.debugConfigValue, redact)
    requires PrHidden(d, redact, credentialed) == PrHidden(e, redact, credentialed)
    requires if PrHidden(d, redact, credentialed) then d.recentPrMatch.Some? == e.recentPrMatch.Some?
             else d.recentPrMatch == e.recentPrMatch
    ensures DiffRow(d, redact, credentialed) == DiffRow(e, redact, credentialed)
  {
    assert ValueCell(d.name, d.expected, redact) == ValueCell(e.name, e.expected, redact);
    assert ValueCell(d.name, d.live, redact) == ValueCell(e.name, e.live, redact);
    assert ValueCell(d.name, d.debugConfigValue, redact) == ValueCell(e.name, e.debugConfigValue, redact);
    SamePrCell(d, e, redact, credentialed);
  }

  lemma SamePrCell(d: EnvDiff, e: EnvDiff, redact: (string, Option<string>) -> bool, credentialed: Option<string> -> bool)
    requires d.name == e.name && PrHidden(d, redact, credentialed) == PrHidden(e, redact, credentialed)
    requires if PrHidden(d, redact, credentialed) then d.recentPrMatch.Some? == e.recentPrMatch.Some?
             else d.recentPrMatch == e.recentPrMatch
    ensures PrCell(d, redact, credentialed) == PrCell(e, redact, credentialed)
  {
    PrCellExactly(d, redact, credentialed);
    PrCellExactly(e, redact, credentialed);
  }

  lemma PrCellExactly(d: EnvDiff, redact: (string, Option<string>) -> bool, credentialed: Option<string> -> bool)
    ensures PrCell(d, redact, credentialed)
         == if d.recentPrMatch.None? then "—"
            else if PrHidden(d, redact, credentialed) then "(redacted)"
            else Escape(d.recentPrMatch.value)
  {
    var values := {d.expected, d.live, d.debugConfigValue};
    assert (exists v :: v in values && credentialed(v))
      <==> credentialed(d.expected) || credentialed(d.live) || credentialed(d.debugConfigValue) by {
      assert d.expected in values && d.live in values && d.debugConfigValue in values;
    }
  }

  lemma StatusTexts(s: Status, t: Status)
    ensures StatusText(s) == StatusText(t) <==> s == t
  {
    assert |StatusText(Absent)| == 6 && |StatusText(Match)| == 5;
    assert |StatusText(PresentAllowManual)| == 20 && |StatusText(PresentDisallowManual)| == 23;
  }

  /** The row of a short violation: plain name and values, nothing else known about it. */
  lemma ShortRow(d: EnvDiff, redact: (string, Option<string>) -> bool, credentialed: Option<string> -> bool)
    requires d.contractStatus == PresentDisallowManual && d.expected.Some? && d.live.Some?
    requires d.recentPrMatch.None? && d.debugConfigValue.None?
    requires !redact(d.name, d.expected) && !redact(d.name, d.live) && !redact(d.name, None)
    requires PlainText(d.name) && PlainText(d.expected.value) && PlainText(d.live.value)
    ensures |DiffRow(d, redact, credentialed)| == 54 + |d.name| + |d.expected.value| + |d.live.value|
  {
    PlainCell(d.name);
    PlainCell(d.expected.value);
    PlainCell(d.live.value);
    assert |ValueCell(d.name, d.expected, redact)| == 2 + |d.expected.value|;
    assert |ValueCell(d.name, d.live, redact)| == 2 + |d.live.value|;
    assert ValueCell(d.name, d.debugConfigValue, redact) == "`—`";
  }

  predicate PlainText(s: string) {
    forall i :: 0 <= i < |s| ==> s[i] !in {'\r', '\n', '|', '`'}
  }

  lemma ShippedNote()
    ensures |RowOmissionNote(SHIPPED, 1)| == 65
  {
    assert |SHIPPED.noteOpening| == 3 && |SHIPPED.noteClosing| == 61;
  }

  /** The exception happens, with the shipped copy and rows as they are rendered: two violations of
      which the last has name and values of at most nine characters together fit as a whole
      table, and neither is shown. */
  lemma WholeTableMissed(d: EnvDiff, e: EnvDiff, redact: (string, Option<string>) -> bool,
                         credentialed: Option<string> -> bool)
    requires e.contractStatus == PresentDisallowManual && e.expected.Some? && e.live.Some?
    requires e.recentPrMatch.None? && e.debugConfigValue.None?
    requires !redact(e.name, e.expected) && !redact(e.name, e.live) && !redact(e.name, None)
    requires PlainText(e.name) && PlainText(e.expected.value) && PlainText(e.live.value)
    requires |e.name| + |e.expected.value| + |e.live.value| <= 9
    ensures var rows := [DiffRow(d, redact, credentialed), DiffRow(e, redact, credentialed)];
            Kept(SHIPPED, rows, |EvidenceTable(SHIPPED, rows)|) == 0
  {
    var rows := [DiffRow(d, redact, credentialed), DiffRow(e, redact, credentialed)];
    ShortRow(e, redact, credentialed);
    ShippedNote();
    NoneOfTwoShown(SHIPPED, rows);
  }

  lemma NoneOfTwoShown(t: Copy, rows: seq<string>)
    requires |rows| == 2 && |rows[1]| + 1 < |RowOmissionNote(t, 1)|
    ensures Kept(t, rows, |EvidenceTable(t, rows)|) == 0
  {
    KeepsAsManyRowsAsFit(t, rows, |EvidenceTable(t, rows)|, 1);
    LinesOfNext(rows, 1);
    assert rows[..2] == rows;
  }

  // ----- The body -------------------------------------------------------------------------

  function Autolink(url: string): string {
    "<" + url + ">"
  }

  function Intro(t: Copy, url: string, revision: string): string {
    t.opening + Autolink(url) + t.rollingBack + revision + t.introClosing
  }

  function Details(t: Copy, revision: string): string {
    t.details + revision + t.reason
  }

  function CallToAction(t: Copy, url: string, revision: string): string {
    t.approval + Autolink(url) + t.expiry + revision + t.closing
  }

  /** The fixed template around its two variable sections. */
  function Body(t: Copy, url: string, revision: string, rationale: string, evidence: string): string {
    Intro(t, url, revision) + rationale + Details(t, revision) + evidence + CallToAction(t, url, revision)
  }

  function MinimalBody(t: Copy, url: string, revision: string): string {
    t.minimalOpening + revision + t.minimalClosing + Autolink(url) + "\n"
  }

  datatype RenderError = MaxCharsNotPositive

  datatype Sections = Sections(rationale: string, evidence: string)

  function Assemble(t: Copy, url: string, revision: string, s: Sections): string {
    Body(t, url, revision, s.rationale, s.evidence)
  }

  function Overhead(t: Copy, url: string, revision: string): nat {
    |Body(t, url, revision, "", "")|
  }

  /** Up to half the room for the rationale, and whatever it leaves for the evidence. */
  function Budgeted(t: Copy, rows: seq<string>, rationale: string, available: int, show: (string, int) -> string): Sections {
    Shared(t, rows, show(rationale, Max(1, available / 2)), available)
  }

  /** What the shown rationale leaves is the evidence table's. */
  function Shared(t: Copy, rows: seq<string>, shown: string, available: int): Sections {
    Sections(shown, Evidence(t, rows, available - |shown|))
  }

  /** What survives under a cap the template does not fit: less and less of the context, and the
      link last. */
  function Fallback(t: Copy, url: string, revision: string, cap: int): string
    requires cap > 0
  {
    if |MinimalBody(t, url, revision)| <= cap then MinimalBody(t, url, revision)
    else if |Autolink(url) + "\n"| <= cap then Autolink(url) + "\n"
    else (Autolink(url) + "\n")[..cap]
  }

  /** The choice of a form, given the whole sections and the cut ones. */
  function Choose(t: Copy, url: string, revision: string, whole: Sections, cut: Sections, maxChars: Option<int>)
    : Result<string, RenderError>
  {
    if maxChars.None? || |Assemble(t, url, revision, whole)| <= maxChars.value
    then Ok(Assemble(t, url, revision, whole))
    else if maxChars.value <= 0 then Err(MaxCharsNotPositive)
    else if Overhead(t, url, revision) < maxChars.value && |Assemble(t, url, revision, cut)| <= maxChars.value
    then Ok(Assemble(t, url, revision, cut))
    else Ok(Fallback(t, url, revision, maxChars.value))
  }

  function Whole(t: Copy, rows: seq<string>, rationale: string): Sections {
    Sections(rationale, EvidenceTable(t, rows))
  }

  /** The body, given how a text is shown under a bound. */
  function RenderWith(t: Copy, rows: seq<string>, rationale: string, url: string, revision: string,
                      maxChars: Option<int>, show: (string, int) -> string): Result<string, RenderError>
  {
    Choose(t, url, revision, Whole(t, rows, rationale), Cut(t, rows, rationale, url, revision, maxChars, show), maxChars)
  }

  function Cut(t: Copy, rows: seq<string>, rationale: string, url: string, revision: string,
               maxChars: Option<int>, show: (string, int) -> string): Sections
  {
    if maxChars.None? then Whole(t, rows, rationale)
    else Budgeted(t, rows, rationale, maxChars.value - Overhead(t, url, revision), show)
  }

  function RenderRollbackBody(t: Copy, rows: seq<string>, rationale: string, url: string, revision: string,
                              maxChars: Option<int>, isWord: char -> bool): Result<string, RenderError>
  {
    RenderWith(t, rows, rationale, url, revision, maxChars, (text, cap) => ClampNeutralized(text, cap, isWord))
  }

  /** A text is shown whole or by its two ends, and then opens no code. */
  ghost predicate Clamps(show: (string, int) -> string) {
    forall text, cap {:trigger show(text, cap)} :: cap > 0 ==>
      var shown := show(text, cap);
      && |shown| <= cap && ShownUnder(text, cap, shown)
      && (shown == text || ('`' !in shown && NoFence(shown)))
  }

  lemma ClampClamps(isWord: char -> bool)
    ensures Clamps((text, cap) => ClampNeutralized(text, cap, isWord))
  {
    forall text, cap | cap > 0
      ensures |ClampNeutralized(text, cap, isWord)| <= cap && ShownUnder(text, cap, ClampNeutralized(text, cap, isWord))
      ensures var shown := ClampNeutralized(text, cap, isWord); shown == text || ('`' !in shown && NoFence(shown))
    {
      ClampNeutralizedIsSafe(text, cap, isWord);
      ClampShows(text, cap, isWord);
    }
  }

  /** `part` appears in `s` whole. */
  ghost predicate Contains(s: string, part: string) {
    exists i :: 0 <= i <= |s| && part <= s[i..]
  }

  lemma AssembledLength(t: Copy, url: string, revision: string, s: Sections)
    ensures |Assemble(t, url, revision, s)| == Overhead(t, url, revision) + |s.rationale| + |s.evidence|
    ensures Overhead(t, url, revision) >= |Autolink(url)| + 1
  {
  }

  /** The link stands before anything a model wrote. */
  lemma LinkComesFirst(t: Copy, url: string, revision: string, s: Sections)
    ensures t.opening + Autolink(url) <= Assemble(t, url, revision, s)
    ensures Contains(Assemble(t, url, revision, s), Autolink(url))
  {
    var rest := t.rollingBack + revision + t.introClosing + s.rationale + Details(t, revision) + s.evidence
                + CallToAction(t, url, revision);
    var body := Assemble(t, url, revision, s);
    assert body == t.opening + (Autolink(url) + rest);
    assert body[|t.opening|..] == Autolink(url) + rest;
  }

  lemma FallbackKeepsLink(t: Copy, url: string, revision: string, cap: int)
    requires cap > 0
    ensures var out := Fallback(t, url, revision, cap);
            && |out| <= cap
            && (|Autolink(url)| + 1 <= cap ==> Contains(out, Autolink(url)))
            && (|Autolink(url)| + 1 > cap ==> out == (Autolink(url) + "\n")[..cap])
  {
    var before := t.minimalOpening + revision + t.minimalClosing;
    assert MinimalBody(t, url, revision) == before + Autolink(url) + "\n";
    assert MinimalBody(t, url, revision)[|before|..] == Autolink(url) + "\n";
    assert (Autolink(url) + "\n")[0..] == Autolink(url) + "\n";
  }

  /** Whatever the sections say, as long as the cut ones fit the room the template leaves. */
  lemma ChoiceKeepsLink(t: Copy, url: string, revision: string, whole: Sections, cut: Sections, cap: int)
    requires cap > 0
    requires Overhead(t, url, revision) < cap
             ==> Overhead(t, url, revision) + |cut.rationale| + |cut.evidence| <= cap
    ensures var r := Choose(t, url, revision, whole, cut, Some(cap));
            && r.Ok? && |r.value| <= cap
            && (|Autolink(url)| + 1 <= cap ==> Contains(r.value, Autolink(url)))
            && (|Autolink(url)| + 1 > cap ==> r.value == (Autolink(url) + "\n")[..cap])
            && (Overhead(t, url, revision) < cap ==>
                  && t.opening + Autolink(url) <= r.value
                  && r.value == Assemble(t, url, revision,
                       if |Assemble(t, url, revision, whole)| <= cap then whole else cut))
  {
    AssembledLength(t, url, revision, whole);
    AssembledLength(t, url, revision, cut);
    LinkComesFirst(t, url, revision, whole);
    LinkComesFirst(t, url, revision, cut);
    FallbackKeepsLink(t, url, revision, cap);
  }

  /** The two sections share the room: the rationale is whole or can open nothing, and the
      evidence is whole rows. */
  lemma BudgetAddsUp(t: Copy, rows: seq<string>, rationale: string, available: int, show: (string, int) -> string)
    requires available > 0 && Clamps(show)
    ensures var s := Budgeted(t, rows, rationale, available, show);
            && |s.rationale| + |s.evidence| <= available
            && |s.rationale| <= Max(1, available / 2)
            && (s.rationale == rationale || ('`' !in s.rationale && NoFence(s.rationale)))
            && s.evidence == Evidence(t, rows, available - |s.rationale|)
  {
    ShareAddsUp(t, rows, show(rationale, Max(1, available / 2)), available);
  }

  lemma ShareAddsUp(t: Copy, rows: seq<string>, shown: string, available: int)
    requires available > 0 && |shown| <= Max(1, available / 2)
    ensures var s := Shared(t, rows, shown, available); |s.rationale| + |s.evidence| <= available
  {
    EvidenceFits(t, rows, available - |shown|);
  }

  /** A cap changes nothing about a body that fits, and only a cap that is no cap is refused. */
  lemma FittingBodyIsUntouched(t: Copy, rows: seq<string>, rationale: string, url: string, revision: string,
                               maxChars: Option<int>, show: (string, int) -> string)
    ensures var r := RenderWith(t, rows, rationale, url, revision, maxChars, show);
            var full := RenderWith(t, rows, rationale, url, revision, None, show);
            && full == Ok(Body(t, url, revision, rationale, EvidenceTable(t, rows)))
            && (maxChars.Some? && |full.value| <= maxChars.value ==> r == full)
            && (r.Err? <==> maxChars.Some? && maxChars.value <= 0)
  {
    AssembledLength(t, url, revision, Whole(t, rows, rationale));
  }

  /** A positive cap is never exceeded; whenever it can hold the link and its newline, the link is
      there, whole; and whenever the fixed template is shorter than the cap, the body is that
      whole template, link first, around the whole sections or the budgeted ones. */
  lemma LinkSurvivesEveryCap(t: Copy, rows: seq<string>, rationale: string, url: string, revision: string,
                             cap: int, show: (string, int) -> string)
    requires cap > 0 && Clamps(show)
    ensures var r := RenderWith(t, rows, rationale, url, revision, Some(cap), show);
            var overhead := Overhead(t, url, revision);
            var whole := Whole(t, rows, rationale);
            && r.Ok? && |r.value| <= cap
            && (|Autolink(url)| + 1 <= cap ==> Contains(r.value, Autolink(url)))
            && (|Autolink(url)| + 1 > cap ==> r.value == (Autolink(url) + "\n")[..cap])
            && (overhead < cap ==>
                  && t.opening + Autolink(url) <= r.value
                  && r.value == Assemble(t, url, revision,
                       if |Assemble(t, url, revision, whole)| <= cap then whole
                       else Cut(t, rows, rationale, url, revision, Some(cap), show)))
  {
    CutStaysInside(t, rows, rationale, url, revision, cap, cap - Overhead(t, url, revision), show);
    ChoiceKeepsLink(t, url, revision, Whole(t, rows, rationale),
                    Cut(t, rows, rationale, url, revision, Some(cap), show), cap);
  }

  lemma CutIsBudgeted(t: Copy, rows: seq<string>, rationale: string, url: string, revision: string,
                      cap: int, room: int, show: (string, int) -> string)
    requires room == cap - Overhead(t, url, revision)
    ensures Cut(t, rows, rationale, url, revision, Some(cap), show) == Budgeted(t, rows, rationale, room, show)
  {
  }

  lemma CutStaysInside(t: Copy, rows: seq<string>, rationale: string, url: string, revision: string,
                       cap: int, room: int, show: (string, int) -> string)
    requires room == cap - Overhead(t, url, revision) && Clamps(show)
    ensures var s := Cut(t, rows, rationale, url, revision, Some(cap), show);
            room > 0 ==> |s.rationale| + |s.evidence| <= room
  {
    CutIsBudgeted(t, rows, rationale, url, revision, cap, room, show);
    if room > 0 {
      BudgetFits(t, rows, rationale, room, show);
    }
  }

  lemma BudgetFits(t: Copy, rows: seq<string>, rationale: string, available: int, show: (string, int) -> string)
    requires available > 0 && Clamps(show)
    ensures var s := Budgeted(t, rows, rationale, available, show); |s.rationale| + |s.evidence| <= available
  {
    BudgetAddsUp(t, rows, rationale, available, show);
  }

  // ----- The body, read as text -----------------------------------------------------------

  /** The capped body around a rationale and an evidence table, spelled out. */
  ghost predicate ReadsAs(t: Copy, out: string, url: string, revision: string, rationale: string, evidence: string) {
    out == t.opening + "<" + url + ">" + t.rollingBack + revision + t.introClosing
           + rationale
           + t.details + revision + t.reason
           + evidence
           + t.approval + "<" + url + ">" + t.expiry + revision + t.closing
  }

  lemma AssembledReads(t: Copy, url: string, revision: string, s: Sections)
    ensures ReadsAs(t, Assemble(t, url, revision, s), url, revision, s.rationale, s.evidence)
  {
  }

  /** The unbounded body, and every body under a cap it fits: link, target revision, the rationale
      as it is, the whole evidence table, and the call to action with the link again. */
  lemma WholeBodyReads(t: Copy, rows: seq<string>, rationale: string, url: string, revision: string,
                       maxChars: Option<int>, show: (string, int) -> string)
    requires maxChars.Some? ==> |Body(t, url, revision, rationale, EvidenceTable(t, rows))| <= maxChars.value
    ensures var r := RenderWith(t, rows, rationale, url, revision, maxChars, show);
            r.Ok? && ReadsAs(t, r.value, url, revision, rationale, EvidenceTable(t, rows))
  {
    AssembledReads(t, url, revision, Whole(t, rows, rationale));
    FittingBodyIsUntouched(t, rows, rationale, url, revision, maxChars, show);
  }

  /** The room the template leaves, shared: the rationale shown under half of it, and the evidence
      table under what the rationale leaves. */
  ghost predicate ShareRoom(t: Copy, rows: seq<string>, rationale: string, room: int, shown: string, evidence: string) {
    && room > 0
    && ShownUnder(rationale, if room / 2 >= 1 then room / 2 else 1, shown)
    && |shown| + |evidence| <= room
    && EvidenceReads(t, rows, room - |shown|, evidence)
  }

  /** The template around a rationale and a table that share the room. */
  ghost predicate CutReads(t: Copy, rows: seq<string>, rationale: string, url: string, revision: string,
                           room: int, out: string)
  {
    exists shown, evidence ::
      ShareRoom(t, rows, rationale, room, shown, evidence) && ReadsAs(t, out, url, revision, shown, evidence)
  }

  /** A body cut to its cap, where the template leaves room: the rationale is shown under half of
      that room, whole if it fits there and otherwise by both of its ends, and the evidence table
      takes what it leaves. */
  lemma CutBodyReads(t: Copy, rows: seq<string>, rationale: string, url: string, revision: string,
                     cap: int, show: (string, int) -> string)
    requires Clamps(show)
    requires Overhead(t, url, revision) < cap < |Body(t, url, revision, rationale, EvidenceTable(t, rows))|
    ensures var r := RenderWith(t, rows, rationale, url, revision, Some(cap), show);
            && r.Ok?
            && CutReads(t, rows, rationale, url, revision, cap - Overhead(t, url, revision), r.value)
  {
    CutReadsAs(t, rows, rationale, url, revision, cap, cap - Overhead(t, url, revision), show);
    CutRenders(t, rows, rationale, url, revision, cap, show);
  }

  lemma CutReadsAs(t: Copy, rows: seq<string>, rationale: string, url: string, revision: string,
                   cap: int, room: int, show: (string, int) -> string)
    requires Clamps(show) && room == cap - Overhead(t, url, revision) && room > 0
    ensures CutReads(t, rows, rationale, url, revision, room,
                     Assemble(t, url, revision, Cut(t, rows, rationale, url, revision, Some(cap), show)))
  {
    var s := Cut(t, rows, rationale, url, revision, Some(cap), show);
    CutShares(t, rows, rationale, url, revision, cap, room, show);
    SharedReads(t, rows, rationale, url, revision, room, s, Assemble(t, url, revision, s));
  }

  lemma CutRenders(t: Copy, rows: seq<string>, rationale: string, url: string, revision: string,
                   cap: int, show: (string, int) -> string)
    requires Clamps(show)
    requires Overhead(t, url, revision) < cap < |Body(t, url, revision, rationale, EvidenceTable(t, rows))|
    ensures RenderWith(t, rows, rationale, url, revision, Some(cap), show)
         == Ok(Assemble(t, url, revision, Cut(t, rows, rationale, url, revision, Some(cap), show)))
  {
    CutStaysInside(t, rows, rationale, url, revision, cap, cap - Overhead(t, url, revision), show);
    CutIsChosen(t, url, revision, Whole(t, rows, rationale), Cut(t, rows, rationale, url, revision, Some(cap), show), cap);
  }

  lemma CutShares(t: Copy, rows: seq<string>, rationale: string, url: string, revision: string,
                  cap: int, room: int, show: (string, int) -> string)
    requires Clamps(show) && room == cap - Overhead(t, url, revision) && room > 0
    ensures var s := Cut(t, rows, rationale, url, revision, Some(cap), show);
            ShareRoom(t, rows, rationale, room, s.rationale, s.evidence)
  {
    CutIsBudgeted(t, rows, rationale, url, revision, cap, room, show);
    BudgetShows(t, rows, rationale, room, show);
  }

  lemma SharedReads(t: Copy, rows: seq<string>, rationale: string, url: string, revision: string,
                    room: int, s: Sections, out: string)
    requires ShareRoom(t, rows, rationale, room, s.rationale, s.evidence) && out == Assemble(t, url, revision, s)
    ensures CutReads(t, rows, rationale, url, revision, room, out)
  {
    assert ReadsAs(t, out, url, revision, s.rationale, s.evidence) by {
      AssembledReads(t, url, revision, s);
    }
  }

  lemma CutIsChosen(t: Copy, url: string, revision: string, whole: Sections, cut: Sections, cap: int)
    requires Overhead(t, url, revision) < cap < |Assemble(t, url, revision, whole)|
    requires |cut.rationale| + |cut.evidence| <= cap - Overhead(t, url, revision)
    ensures Choose(t, url, revision, whole, cut, Some(cap)) == Ok(Assemble(t, url, revision, cut))
  {
    AssembledLength(t, url, revision, cut);
  }

  lemma BudgetShows(t: Copy, rows: seq<string>, rationale: string, available: int, show: (string, int) -> string)
    requires available > 0 && Clamps(show)
    ensures var s := Budgeted(t, rows, rationale, available, show);
            ShareRoom(t, rows, rationale, available, s.rationale, s.evidence)
  {
    ShareShows(t, rows, rationale, show(rationale, Max(1, available / 2)), available);
  }

  lemma ShareShows(t: Copy, rows: seq<string>, rationale: string, shown: string, available: int)
    requires available > 0 && |shown| <= Max(1, available / 2)
    requires ShownUnder(rationale, Max(1, available / 2), shown)
    ensures ShareRoom(t, rows, rationale, available, shown, Shared(t, rows, shown, available).evidence)
  {
    ShareAddsUp(t, rows, shown, available);
    EvidenceShows(t, rows, available - |shown|);
  }

  /** Where the template itself does not fit, the first of these that does: the short body, the link
      and a line end, or as much of them as the cap holds. */
  lemma FallbackReads(t: Copy, rows: seq<string>, rationale: string, url: string, revision: string,
                      cap: int, show: (string, int) -> string)
    requires 0 < cap <= Overhead(t, url, revision)
    requires cap < |Body(t, url, revision, rationale, EvidenceTable(t, rows))|
    ensures var r := RenderWith(t, rows, rationale, url, revision, Some(cap), show);
            var short := t.minimalOpening + revision + t.minimalClosing + "<" + url + ">" + "\n";
            var link := "<" + url + ">" + "\n";
            r == Ok(if |short| <= cap then short else if |link| <= cap then link else link[..cap])
  {
    assert MinimalBody(t, url, revision) == t.minimalOpening + revision + t.minimalClosing + "<" + url + ">" + "\n";
  }

  /** What a body under a cap must be: the whole body if it fits; else, when the template leaves
      room, the template around the rationale and the table that share it; else what the cap holds
      of the short body or of the link. */
  ghost predicate RightBody(t: Copy, rows: seq<string>, rationale: string, url: string, revision: string,
                            cap: int, out: string)
    requires cap > 0
  {
    if |Body(t, url, revision, rationale, EvidenceTable(t, rows))| <= cap then
      ReadsAs(t, out, url, revision, rationale, EvidenceTable(t, rows))
    else if Overhead(t, url, revision) < cap then
      CutReads(t, rows, rationale, url, revision, cap - Overhead(t, url, revision), out)
    else
      var short := t.minimalOpening + revision + t.minimalClosing + "<" + url + ">" + "\n";
      var link := "<" + url + ">" + "\n";
      out == if |short| <= cap then short else if |link| <= cap then link else link[..cap]
  }

  /** Every rollback body under every cap is the right one, within the cap, and holds the whole link
      whenever link and line end fit. */
  lemma RollbackBodyIsRight(t: Copy, rows: seq<string>, rationale: string, url: string, revision: string,
                            cap: int, isWord: char -> bool)
    requires cap > 0
    ensures var r := RenderRollbackBody(t, rows, rationale, url, revision, Some(cap), isWord);
            && r.Ok? && |r.value| <= cap && RightBody(t, rows, rationale, url, revision, cap, r.value)
            && (|"<" + url + ">" + "\n"| <= cap ==> Contains(r.value, "<" + url + ">"))
  {
    ClampClamps(isWord);
    RenderedIsRight(t, rows, rationale, url, revision, cap, (text, cap) => ClampNeutralized(text, cap, isWord));
  }

  lemma RenderedIsRight(t: Copy, rows: seq<string>, rationale: string, url: string, revision: string,
                        cap: int, show: (string, int) -> string)
    requires cap > 0 && Clamps(show)
    ensures var r := RenderWith(t, rows, rationale, url, revision, Some(cap), show);
            && r.Ok? && |r.value| <= cap && RightBody(t, rows, rationale, url, revision, cap, r.value)
            && (|"<" + url + ">" + "\n"| <= cap ==> Contains(r.value, "<" + url + ">"))
  {
    LinkSurvivesEveryCap(t, rows, rationale, url, revision, cap, show);
    if |Body(t, url, revision, rationale, EvidenceTable(t, rows))| <= cap {
      WholeBodyReads(t, rows, rationale, url, revision, Some(cap), show);
    } else if Overhead(t, url, revision) < cap {
      CutBodyReads(t, rows, rationale, url, revision, cap, show);
    } else {
      FallbackReads(t, rows, rationale, url, revision, cap, show);
    }
  }

  // ----- The table, read as text ----------------------------------------------------------

  lemma {:induction false} LinesFromFront(row: string, rest: seq<string>)
    ensures Lines([row] + rest) == "\n" + row + Lines(rest)
    decreases |rest|
  {
    if rest != [] {
      var n := |rest|;
      assert ([row] + rest)[..n] == [row] + rest[..n - 1];
      LinesFromFront(row, rest[..n - 1]);
    } else {
      assert ([row] + rest)[..0] == [];
    }
  }

  /** What the cut table says: the header, its first `k` rows in order, and how many are missing. */
  lemma CutTableReads(t: Copy, rows: seq<string>, k: nat)
    requires k <= |rows|
    ensures CutTable(t, rows, k) == CutText(t, rows, k)
    ensures k < |rows| ==> Value(Decimal(|rows| - k)) == |rows| - k
  {
    if k < |rows| {
      DecimalReadsBack(|rows| - k);
    }
  }
}
