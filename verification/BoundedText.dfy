/** Cutting text to a consumer's bound: the middle-out clamp, the removal of delimiters a cut
    may strand, and the normalizers built from the two. */
module BoundedText {
  import opened Wrappers

  // ----- Decimal rendering ----------------------------------------------------------------

  function Digit(d: nat): char
    requires d < 10
  {
    ('0' as int + d) as char
  }

  function Decimal(n: nat): (s: string)
    ensures |s| >= 1
  {
    if n < 10 then [Digit(n)] else Decimal(n / 10) + [Digit(n % 10)]
  }

  /** A smaller number is never written wider. */
  lemma {:induction false} DecimalWidth(m: nat, n: nat)
    requires m <= n
    ensures |Decimal(m)| <= |Decimal(n)|
  {
    if 10 <= m {
      DecimalWidth(m / 10, n / 10);
    }
  }

  /** The number a string of digits stands for. */
  function Value(s: string): int {
    if s == "" then 0 else 10 * Value(s[..|s| - 1]) + (s[|s| - 1] as int - '0' as int)
  }

  /** A count reads back as the number it is. */
  lemma {:induction false} DecimalReadsBack(n: nat)
    ensures Value(Decimal(n)) == n
  {
    if n >= 10 {
      DecimalReadsBack(n / 10);
      var s := Decimal(n);
      assert s[..|s| - 1] == Decimal(n / 10) && s[|s| - 1] == Digit(n % 10);
    } else {
      assert [Digit(n)][..0] == "";
    }
  }

  // ----- The clamp ------------------------------------------------------------------------

  function OmissionMarker(n: nat): (s: string)
    ensures |s| >= 4 && s[0] == '\n' && s[|s| - 1] == '\n'
  {
    "\n\n[… " + Decimal(n) + " characters omitted by DriftScribe …]\n\n"
  }

  datatype Split = Split(head: string, marker: string, tail: string)

  datatype ClampError = CapNotPositive | ReserveNegative

  function Max(a: int, b: int): int {
    if a < b then b else a
  }

  /** `Ok(None)` when the text already fits. */
  function ClampMiddleOut(text: string, cap: int, reserve: int): Result<Option<Split>, ClampError> {
    if cap <= 0 then Err(CapNotPositive)
    else if reserve < 0 then Err(ReserveNegative)
    else if |text| <= cap then Ok(None)
    else
      var reserved := |OmissionMarker(|text|)| + reserve;
      var budget := cap - reserved;
      if budget <= 0 then Ok(Some(Split(text[..Max(0, cap - reserve)], "", "")))
      else
        var headBudget := budget / 2;
        var tailBudget := budget - headBudget;
        var omitted := |text| - headBudget - tailBudget;
        Ok(Some(Split(text[..headBudget], OmissionMarker(omitted), text[|text| - tailBudget..])))
  }

  lemma MarkerWidth(m: nat, n: nat)
    requires m <= n
    ensures |OmissionMarker(m)| <= |OmissionMarker(n)|
  {
    DecimalWidth(m, n);
  }

  /** A cut happens exactly when the text is over the cap, leaves room for the reserve, keeps a
      prefix and a suffix of the text, and states exactly how much lies between them. */
  lemma ClampFits(text: string, cap: int, reserve: int)
    requires cap > 0 && reserve >= 0
    ensures var r := ClampMiddleOut(text, cap, reserve);
            && r.Ok?
            && (r.value.None? <==> |text| <= cap)
            && (r.value.Some? ==>
                  var Split(head, marker, tail) := r.value.value;
                  && |head| + |marker| + |tail| <= Max(0, cap - reserve)
                  && head <= text
                  && |tail| <= |text| && tail == text[|text| - |tail|..]
                  && (marker == "" ==> tail == "" && |head| == Max(0, cap - reserve))
                  && (marker != "" ==> && |head| + |tail| < |text|
                                       && marker == OmissionMarker(|text| - |head| - |tail|)
                                       && |head| <= |tail| <= |head| + 1
                                       && |head| + |tail| == cap - reserve - |OmissionMarker(|text|)|))
  {
    var r := ClampMiddleOut(text, cap, reserve);
    if |text| > cap && cap - |OmissionMarker(|text|)| - reserve > 0 {
      var s := r.value.value;
      MarkerWidth(|text| - |s.head| - |s.tail|, |text|);
    }
  }

  // ----- Delimiters a cut may strand ------------------------------------------------------

  function WithoutBackticks(s: string): string {
    if s == "" then ""
    else (if s[0] == '`' then "" else [s[0]]) + WithoutBackticks(s[1..])
  }

  function TildeRun(s: string): (n: nat)
    ensures n <= |s|
    ensures n < |s| ==> s[n] != '~'
  {
    if s == "" || s[0] != '~' then 0 else 1 + TildeRun(s[1..])
  }

  /** Runs of three or more tildes go, shorter ones stay. */
  function WithoutTildeFences(s: string): string
    decreases |s|
  {
    if s == "" then ""
    else
      var n := TildeRun(s);
      if n == 0 then [s[0]] + WithoutTildeFences(s[1..])
      else (if n >= 3 then "" else s[..n]) + WithoutTildeFences(s[n..])
  }

  // Case-insensitive matching of ASCII letters also accepts the characters that fold to one.
  function Fold(c: char): char {
    if 'A' <= c <= 'Z' then (c as int + 32) as char
    else if c == '\U{0130}' || c == '\U{0131}' then 'i'
    else if c == '\U{017F}' then 's'
    else if c == '\U{212A}' then 'k'
    else c
  }

  predicate StartsFolded(s: string, word: string) {
    |word| <= |s| && forall i :: 0 <= i < |word| ==> Fold(s[i]) == word[i]
  }

  /** `s` starts with the tag name, at a word boundary. */
  predicate StartsTag(s: string, name: string, isWord: char -> bool) {
    StartsFolded(s, name) && (|s| == |name| || !isWord(s[|name|]))
  }

  /** What follows a `<` that opens a block ending at a terminator rather than a blank line. */
  predicate OpensBlock(s: string, isWord: char -> bool) {
    && s != ""
    && (|| StartsFolded(s, "!--")
        || s[0] == '?'
        || StartsFolded(s, "![cdata[")
        || (s[0] == '!' && |s| > 1 && 'a' <= Fold(s[1]) <= 'z')
        || var rest := if s[0] == '/' then s[1..] else s;
           || StartsTag(rest, "script", isWord) || StartsTag(rest, "pre", isWord)
           || StartsTag(rest, "style", isWord) || StartsTag(rest, "textarea", isWord))
  }

  function WithoutBlockOpeners(s: string, isWord: char -> bool): string {
    if s == "" then ""
    else (if s[0] == '<' && OpensBlock(s[1..], isWord) then "" else [s[0]]) + WithoutBlockOpeners(s[1..], isWord)
  }

  /** Backticks first, then tilde fences, then the block openers removal may have woken. */
  function NeutralizeFences(fragment: string, isWord: char -> bool): string {
    WithoutBlockOpeners(WithoutTildeFences(WithoutBackticks(fragment)), isWord)
  }

  /** No three tildes in a row. */
  ghost predicate NoFence(s: string) {
    forall i :: 0 <= i < |s| - 2 && s[i] == '~' && s[i + 1] == '~' ==> s[i + 2] != '~'
  }

  lemma {:induction false} BackticksGone(s: string)
    ensures '`' !in WithoutBackticks(s) && |WithoutBackticks(s)| <= |s|
  {
    if s != "" {
      BackticksGone(s[1..]);
    }
  }

  lemma NoFenceOfCons(c: char, s: string)
    requires NoFence(s) && (c == '~' ==> TildeRun(s) < 2)
    ensures NoFence([c] + s)
  {
    var t := [c] + s;
    forall i | 0 <= i < |t| - 2 && t[i] == '~' && t[i + 1] == '~' ensures t[i + 2] != '~' {
      if i == 0 {
        assert s[0] == '~' && TildeRun(s) == 1 + TildeRun(s[1..]);
        assert s[1] != '~';
      } else {
        assert s[i - 1] == '~' && s[i - 1 + 1] == '~';
      }
    }
  }

  lemma {:induction false} TildeRunIsTildes(s: string)
    ensures forall i :: 0 <= i < TildeRun(s) ==> s[i] == '~'
  {
    if s != "" && s[0] == '~' {
      TildeRunIsTildes(s[1..]);
      forall i | 0 < i < TildeRun(s) ensures s[i] == '~' {
        assert s[i] == s[1..][i - 1];
      }
    }
  }

  lemma FenceFreeRun(s: string)
    requires NoFence(s)
    ensures TildeRun(s) < 3
  {
    TildeRunIsTildes(s);
    assert 0 < |s| - 2 && s[0] == '~' && s[0 + 1] == '~' ==> s[0 + 2] != '~';
  }

  lemma NoFenceOfSuffix(s: string, n: nat)
    requires NoFence(s) && n <= |s|
    ensures NoFence(s[n..])
  {
    var t := s[n..];
    forall i | 0 <= i < |t| - 2 && t[i] == '~' && t[i + 1] == '~' ensures t[i + 2] != '~' {
      assert s[n + i] == '~' && s[n + i + 1] == '~';
    }
  }

  lemma NoFenceOfTail(s: string)
    requires NoFence(s) && s != ""
    ensures NoFence(s[1..]) && (s[0] == '~' ==> TildeRun(s[1..]) < 2)
  {
    NoFenceOfSuffix(s, 1);
    FenceFreeRun(s);
  }

  lemma {:induction false} TildeFencesOnlyShrink(s: string)
    ensures |WithoutTildeFences(s)| <= |s|
    ensures forall c :: c in WithoutTildeFences(s) ==> c in s
    decreases |s|
  {
    if s != "" {
      var n := TildeRun(s);
      TildeFencesOnlyShrink(s[if n == 0 then 1 else n..]);
    }
  }

  /** A tilde run goes before `out`, which does not start with one. */
  lemma NoFenceOfShortRun(n: nat, s: string, out: string)
    requires 0 < n < 3 && n <= |s| && (forall i :: 0 <= i < n ==> s[i] == '~')
    requires NoFence(out) && TildeRun(out) == 0
    ensures NoFence(s[..n] + out) && TildeRun(s[..n] + out) == n
  {
    NoFenceOfCons('~', out);
    assert (['~'] + out)[1..] == out;
    if n == 1 {
      assert s[..n] == ['~'];
    } else {
      NoFenceOfCons('~', ['~'] + out);
      assert s[..n] + out == ['~'] + (['~'] + out);
      assert (['~'] + (['~'] + out))[1..] == ['~'] + out;
    }
  }

  /** Dropping a run leaves its neighbours adjacent, and neither of them is a tilde. */
  lemma {:induction false} TildeFencesGone(s: string)
    ensures NoFence(WithoutTildeFences(s))
    ensures TildeRun(WithoutTildeFences(s)) == if TildeRun(s) >= 3 then 0 else TildeRun(s)
    decreases |s|
  {
    if s != "" {
      var n := TildeRun(s);
      var rest := s[if n == 0 then 1 else n..];
      var out := WithoutTildeFences(rest);
      TildeFencesGone(rest);
      if n == 0 {
        NoFenceOfCons(s[0], out);
      } else if n < 3 {
        TildeRunIsTildes(s);
        NoFenceOfShortRun(n, s, out);
      }
    }
  }

  lemma {:induction false} OpenersOnlyShrink(s: string, isWord: char -> bool)
    ensures |WithoutBlockOpeners(s, isWord)| <= |s|
    ensures forall c :: c in WithoutBlockOpeners(s, isWord) ==> c in s
  {
    if s != "" {
      OpenersOnlyShrink(s[1..], isWord);
    }
  }

  lemma OpenerNotTilde(s: string, isWord: char -> bool)
    requires OpensBlock(s, isWord)
    ensures s[0] != '~'
  {
    assert Fold('~') == '~';
  }

  /** A deleted `<` is followed by something that is neither a tilde nor deleted itself, so no
      two tilde runs meet. */
  lemma {:induction false} OpenersKeepTildesApart(s: string, isWord: char -> bool)
    requires NoFence(s)
    ensures NoFence(WithoutBlockOpeners(s, isWord))
    ensures TildeRun(WithoutBlockOpeners(s, isWord)) == TildeRun(s)
  {
    if s != "" {
      var out := WithoutBlockOpeners(s[1..], isWord);
      NoFenceOfTail(s);
      OpenersKeepTildesApart(s[1..], isWord);
      if s[0] == '<' && OpensBlock(s[1..], isWord) {
        OpenerNotTilde(s[1..], isWord);
        assert WithoutBlockOpeners(s, isWord) == out;
      } else {
        NoFenceOfCons(s[0], out);
        assert WithoutBlockOpeners(s, isWord) == [s[0]] + out;
        assert ([s[0]] + out)[1..] == out;
      }
    }
  }

  /** After neutralizing, nothing can open code: no backtick anywhere, no fence of tildes, and
      nothing was added. */
  lemma NothingCanOpenCode(fragment: string, isWord: char -> bool)
    ensures var out := NeutralizeFences(fragment, isWord);
            '`' !in out && NoFence(out) && |out| <= |fragment|
  {
    var s := WithoutBackticks(fragment);
    BackticksGone(fragment);
    TildeFencesOnlyShrink(s);
    TildeFencesGone(s);
    OpenersOnlyShrink(WithoutTildeFences(s), isWord);
    OpenersKeepTildesApart(WithoutTildeFences(s), isWord);
  }

  lemma CommentOpens(isWord: char -> bool)
    ensures OpensBlock("!--", isWord)
  {
    assert StartsFolded("!--", "!--");
  }

  lemma CommentAlone(isWord: char -> bool)
    ensures !OpensBlock("<!--", isWord) && WithoutBlockOpeners("!--", isWord) == "!--"
  {
    assert Fold('<') == '<' && "<!--"[0] == '<';
    assert "!--"[1..] == "--" && "--"[1..] == "-" && "-"[1..] == "";
    assert WithoutBlockOpeners("-", isWord) == "-" + WithoutBlockOpeners("", isWord);
    assert WithoutBlockOpeners("--", isWord) == "-" + WithoutBlockOpeners("-", isWord);
    assert WithoutBlockOpeners("!--", isWord) == "!" + WithoutBlockOpeners("--", isWord);
  }

  lemma OpenerStep(s: string, isWord: char -> bool)
    requires s != "" && s[0] == '<'
    ensures OpensBlock(s[1..], isWord) ==> WithoutBlockOpeners(s, isWord) == WithoutBlockOpeners(s[1..], isWord)
    ensures !OpensBlock(s[1..], isWord) ==> WithoutBlockOpeners(s, isWord) == "<" + WithoutBlockOpeners(s[1..], isWord)
  {
  }

  /** Only code delimiters are promised gone: removing one `<` can complete another opener. */
  lemma BlockOpenersMayRemain(isWord: char -> bool)
    ensures NeutralizeFences("<<!--", isWord) == "<!--" && OpensBlock("!--", isWord)
  {
    NothingToRemove("<<!--");
    CommentOpens(isWord);
    CommentAlone(isWord);
    assert "<!--"[1..] == "!--" && "<<!--"[1..] == "<!--";
    OpenerStep("<!--", isWord);
    OpenerStep("<<!--", isWord);
  }

  lemma {:induction false} NothingToRemove(s: string)
    requires forall i :: 0 <= i < |s| ==> s[i] != '`' && s[i] != '~'
    ensures WithoutBackticks(s) == s && WithoutTildeFences(s) == s
  {
    if s != "" {
      NothingToRemove(s[1..]);
      assert s == [s[0]] + s[1..];
      assert TildeRun(s) == 0;
    }
  }

  predicate IsDelimiter(c: char) {
    c == '`' || c == '~' || c == '<'
  }

  /** Everything except the three delimiter characters. */
  function Prose(s: string): string {
    if s == "" then "" else if IsDelimiter(s[0]) then Prose(s[1..]) else [s[0]] + Prose(s[1..])
  }

  lemma ProseOfCons(c: char, s: string)
    ensures Prose([c] + s) == if IsDelimiter(c) then Prose(s) else [c] + Prose(s)
  {
    assert ([c] + s)[1..] == s;
  }

  lemma {:induction false} ProseOfTildes(s: string, n: nat, rest: string)
    requires n <= |s| && forall i :: 0 <= i < n ==> s[i] == '~'
    ensures Prose(s[..n] + rest) == Prose(rest)
  {
    if n == 0 {
      assert s[..n] + rest == rest;
    } else {
      ProseOfTildes(s[1..], n - 1, rest);
      assert s[..n] + rest == ['~'] + (s[1..][..n - 1] + rest);
      ProseOfCons('~', s[1..][..n - 1] + rest);
    }
  }

  lemma {:induction false} BackticksKeepProse(s: string)
    ensures Prose(WithoutBackticks(s)) == Prose(s)
  {
    if s != "" {
      var out := WithoutBackticks(s[1..]);
      BackticksKeepProse(s[1..]);
      if s[0] == '`' {
        assert WithoutBackticks(s) == out;
      } else {
        ProseOfCons(s[0], out);
      }
    }
  }

  lemma {:induction false} TildeFencesKeepProse(s: string)
    ensures Prose(WithoutTildeFences(s)) == Prose(s)
    decreases |s|
  {
    if s != "" {
      var n := TildeRun(s);
      var rest := s[if n == 0 then 1 else n..];
      var out := WithoutTildeFences(rest);
      TildeFencesKeepProse(rest);
      if n == 0 {
        ProseOfCons(s[0], out);
      } else {
        TildeRunIsTildes(s);
        ProseOfTildes(s, n, rest);
        ProseOfTildes(s, n, out);
        assert s[..n] + rest == s;
        assert WithoutTildeFences(s) == if n >= 3 then out else s[..n] + out;
      }
    }
  }

  lemma {:induction false} OpenersKeepProse(s: string, isWord: char -> bool)
    ensures Prose(WithoutBlockOpeners(s, isWord)) == Prose(s)
  {
    if s != "" {
      var out := WithoutBlockOpeners(s[1..], isWord);
      OpenersKeepProse(s[1..], isWord);
      if s[0] == '<' && OpensBlock(s[1..], isWord) {
        assert WithoutBlockOpeners(s, isWord) == out;
      } else {
        ProseOfCons(s[0], out);
      }
    }
  }

  /** Only delimiter characters are ever removed: the prose comes through whole and in order. */
  lemma NeutralizingKeepsProse(fragment: string, isWord: char -> bool)
    ensures Prose(NeutralizeFences(fragment, isWord)) == Prose(fragment)
  {
    BackticksKeepProse(fragment);
    TildeFencesKeepProse(WithoutBackticks(fragment));
    OpenersKeepProse(WithoutTildeFences(WithoutBackticks(fragment)), isWord);
  }

  ghost predicate NoOpener(s: string, isWord: char -> bool) {
    forall i :: 0 <= i < |s| && s[i] == '<' ==> !OpensBlock(s[i + 1..], isWord)
  }

  lemma {:induction false} BacktickFreeUnchanged(s: string)
    requires '`' !in s
    ensures WithoutBackticks(s) == s
  {
    if s != "" {
      BacktickFreeUnchanged(s[1..]);
    }
  }

  lemma TildeStep(s: string)
    requires s != "" && TildeRun(s) < 3
    ensures var k := if TildeRun(s) == 0 then 1 else TildeRun(s);
            WithoutTildeFences(s) == s[..k] + WithoutTildeFences(s[k..])
  {
    assert s[..1] == [s[0]];
  }

  lemma {:induction false} FenceFreeUnchanged(s: string)
    requires NoFence(s)
    ensures WithoutTildeFences(s) == s
    decreases |s|
  {
    if s != "" {
      var k := if TildeRun(s) == 0 then 1 else TildeRun(s);
      FenceFreeRun(s);
      TildeStep(s);
      NoFenceOfSuffix(s, k);
      FenceFreeUnchanged(s[k..]);
      assert s[..k] + s[k..] == s;
    }
  }

  lemma {:induction false} OpenerFreeUnchanged(s: string, isWord: char -> bool)
    ensures WithoutBlockOpeners(s, isWord) == s <==> NoOpener(s, isWord)
  {
    if s != "" {
      var t := s[1..];
      OpenerFreeUnchanged(t, isWord);
      OpenersOnlyShrink(t, isWord);
      assert forall i :: 0 <= i < |t| ==> t[i] == s[i + 1] && t[i + 1..] == s[i + 2..];
      if NoOpener(s, isWord) {
        forall i | 0 <= i < |t| && t[i] == '<' ensures !OpensBlock(t[i + 1..], isWord) {
          assert s[i + 1] == '<';
        }
      } else if !(s[0] == '<' && OpensBlock(t, isWord)) {
        var i :| 0 <= i < |s| && s[i] == '<' && OpensBlock(s[i + 1..], isWord);
        assert t[i - 1] == '<';
        assert WithoutBlockOpeners(s, isWord)[1..] == WithoutBlockOpeners(t, isWord);
      }
    }
  }

  /** A fragment is left alone exactly when it holds nothing to remove. An autolink is no opener,
      so a link in such a fragment stays a link. */
  lemma LeftAloneExactly(fragment: string, isWord: char -> bool)
    ensures NeutralizeFences(fragment, isWord) == fragment
            <==> '`' !in fragment && NoFence(fragment) && NoOpener(fragment, isWord)
  {
    if '`' !in fragment && NoFence(fragment) {
      BacktickFreeUnchanged(fragment);
      FenceFreeUnchanged(fragment);
      OpenerFreeUnchanged(fragment, isWord);
    } else {
      NothingCanOpenCode(fragment, isWord);
    }
  }

  // ----- The normalizers ------------------------------------------------------------------

  const NOTIFIER_BODY_MAX_CHARS := 10000
  const ROLLBACK_REASON_MAX_CHARS := 2000
  const CLOSE_REASON_MAX_CHARS := 1000

  const ROLLBACK_REASON_ABSENT :=
    "DriftScribe proposed this rollback " + "without a model rationale. Inspect " + "the recorded change evidence and " +
    "target revision before approving."
  const CLOSE_REASON_ABSENT :=
    "Closed via DriftScribe at the " + "operator's request; no reason " + "was supplied."

  /** A cut text has both of its fragments neutralized, each on its own. */
  function ClampNeutralized(text: string, cap: int, isWord: char -> bool): string {
    var parts := ClampMiddleOut(text, cap, 0);
    if parts.Err? || parts.value.None? then text
    else
      var Split(head, marker, tail) := parts.value.value;
      NeutralizeFences(head, isWord) + marker + NeutralizeFences(tail, isWord)
  }

  function NormalizeNotifierBody(body: string, isWord: char -> bool): string {
    ClampNeutralized(body, NOTIFIER_BODY_MAX_CHARS, isWord)
  }

  lemma NoFenceOfConcat(a: string, b: string)
    requires NoFence(a) && NoFence(b)
    requires a == "" || b == "" || a[|a| - 1] != '~' || b[0] != '~'
    ensures NoFence(a + b)
  {
    var t := a + b;
    forall i | 0 <= i < |t| - 2 && t[i] == '~' && t[i + 1] == '~' ensures t[i + 2] != '~' {
      if i + 2 < |a| {
        assert a[i] == '~' && a[i + 1] == '~';
      } else if i >= |a| {
        assert b[i - |a|] == '~' && b[i - |a| + 1] == '~';
      } else if i + 2 == |a| {
        assert a[|a| - 1] == '~' && t[i + 2] == b[0];
      }
    }
  }

  lemma {:induction false} DecimalIsDigits(n: nat)
    ensures forall c :: c in Decimal(n) ==> '0' <= c <= '9'
  {
    if n >= 10 {
      DecimalIsDigits(n / 10);
    }
  }

  lemma NoFenceWithoutTilde(s: string)
    requires '~' !in s
    ensures NoFence(s)
  {
    forall i | 0 <= i < |s| ensures s[i] != '~' {
      assert s[i] in s;
    }
  }

  lemma MarkerOpensNothing(n: nat)
    ensures '`' !in OmissionMarker(n) && '~' !in OmissionMarker(n)
  {
    var before := "\n\n[… ";
    var after := " characters omitted by DriftScribe …]\n\n";
    assert '`' !in before && '~' !in before;
    assert '`' !in after && '~' !in after;
    DecimalIsDigits(n);
    assert OmissionMarker(n) == before + Decimal(n) + after;
  }

  lemma JoinedAtMarker(head: string, n: nat, tail: string)
    requires '`' !in head && NoFence(head) && '`' !in tail && NoFence(tail)
    ensures var out := head + OmissionMarker(n) + tail; '`' !in out && NoFence(out)
  {
    var marker := OmissionMarker(n);
    MarkerOpensNothing(n);
    NoFenceWithoutTilde(marker);
    NoFenceOfConcat(head, marker);
    assert (head + marker)[|head + marker| - 1] == marker[|marker| - 1];
    NoFenceOfConcat(head + marker, tail);
  }

  lemma CutParts(text: string, cap: int)
    requires 0 < cap < |text|
    ensures var room := cap - |OmissionMarker(|text|)|;
            ClampMiddleOut(text, cap, 0).value.value
            == if room <= 0 then Split(text[..cap], "", "")
               else Split(text[..room / 2], OmissionMarker(|text| - room), text[|text| - (room - room / 2)..])
    ensures ClampMiddleOut(text, cap, 0).Ok? && ClampMiddleOut(text, cap, 0).value.Some?
  {
    var room := cap - |OmissionMarker(|text|)|;
    assert |text| - room / 2 - (room - room / 2) == |text| - room;
  }

  lemma NeutralizedParts(text: string, cap: int, isWord: char -> bool)
    requires 0 < cap < |text|
    ensures var parts := ClampMiddleOut(text, cap, 0).value.value;
            ClampNeutralized(text, cap, isWord)
            == NeutralizeFences(parts.head, isWord) + parts.marker + NeutralizeFences(parts.tail, isWord)
  {
    CutParts(text, cap);
  }

  lemma HeadAlone(text: string, cap: int, isWord: char -> bool)
    requires 0 < cap < |text| && cap <= |OmissionMarker(|text|)|
    ensures ClampNeutralized(text, cap, isWord) == NeutralizeFences(text[..cap], isWord)
  {
    CutParts(text, cap);
    NeutralizedParts(text, cap, isWord);
    NothingCanOpenCode("", isWord);
    Padded(NeutralizeFences(text[..cap], isWord), NeutralizeFences("", isWord));
  }

  lemma Padded(head: string, tail: string)
    requires tail == ""
    ensures head + "" + tail == head
  {
  }

  lemma BothEnds(text: string, cap: int, isWord: char -> bool) returns (head: string, tail: string, n: nat)
    requires |OmissionMarker(|text|)| < cap < |text|
    ensures var room := cap - |OmissionMarker(|text|)|;
            head == text[..room / 2] && tail == text[|text| - (room - room / 2)..] && n == |text| - room
    ensures |head| + |tail| + n == |text| && |head| + |tail| + |OmissionMarker(n)| <= cap
    ensures ClampNeutralized(text, cap, isWord)
         == NeutralizeFences(head, isWord) + OmissionMarker(n) + NeutralizeFences(tail, isWord)
  {
    var room := cap - |OmissionMarker(|text|)|;
    head, tail, n := text[..room / 2], text[|text| - (room - room / 2)..], |text| - room;
    CutParts(text, cap);
    NeutralizedParts(text, cap, isWord);
    MarkerWidth(n, |text|);
  }

  /** Never over the cap, whole when it fits, and unable to open code when it was cut. */
  lemma ClampNeutralizedIsSafe(text: string, cap: int, isWord: char -> bool)
    requires cap > 0
    ensures var out := ClampNeutralized(text, cap, isWord);
            && |out| <= cap
            && (|text| <= cap ==> out == text)
            && (|text| > cap ==> '`' !in out && NoFence(out))
  {
    if |text| > cap {
      if cap <= |OmissionMarker(|text|)| {
        HeadIsSafe(text, cap, isWord);
      } else {
        CutIsSafe(text, cap, isWord);
      }
    }
  }

  lemma HeadIsSafe(text: string, cap: int, isWord: char -> bool)
    requires 0 < cap < |text| && cap <= |OmissionMarker(|text|)|
    ensures var out := ClampNeutralized(text, cap, isWord); |out| <= cap && '`' !in out && NoFence(out)
  {
    HeadAlone(text, cap, isWord);
    NothingCanOpenCode(text[..cap], isWord);
  }

  lemma CutIsSafe(text: string, cap: int, isWord: char -> bool)
    requires |OmissionMarker(|text|)| < cap < |text|
    ensures var out := ClampNeutralized(text, cap, isWord); |out| <= cap && '`' !in out && NoFence(out)
  {
    var head, tail, n := BothEnds(text, cap, isWord);
    EndsAreSafe(head, tail, n, isWord);
  }

  lemma EndsAreSafe(head: string, tail: string, n: nat, isWord: char -> bool)
    ensures var out := NeutralizeFences(head, isWord) + OmissionMarker(n) + NeutralizeFences(tail, isWord);
            && |out| <= |head| + |OmissionMarker(n)| + |tail|
            && '`' !in out && NoFence(out)
  {
    NothingCanOpenCode(head, isWord);
    NothingCanOpenCode(tail, isWord);
    JoinedAtMarker(NeutralizeFences(head, isWord), n, NeutralizeFences(tail, isWord));
  }

  /** Head and tail around the marker, with nothing taken from either but delimiters. */
  ghost predicate ShownCut(text: string, room: int, shown: string, head: string, tail: string)
    requires 0 < room <= |text|
  {
    && shown == head + OmissionMarker(|text| - room) + tail
    && Prose(head) == Prose(text[..room / 2])
    && Prose(tail) == Prose(text[|text| - (room - room / 2)..])
  }

  /** What is shown of a text under a cap: the text itself when it fits; otherwise as much of its
      head and of its tail as the cap leaves beside the marker, the odd character to the tail, and
      the marker stating exactly how much lies between; and its head alone under a cap too small
      for a marker. */
  ghost predicate ShownUnder(text: string, cap: int, shown: string)
    requires cap > 0
  {
    var room := cap - |OmissionMarker(|text|)|;
    if |text| <= cap then shown == text
    else if room <= 0 then Prose(shown) == Prose(text[..cap])
    else exists head, tail :: ShownCut(text, room, shown, head, tail)
  }

  lemma HeadAloneShown(text: string, cap: int, isWord: char -> bool)
    requires 0 < cap < |text| && cap <= |OmissionMarker(|text|)|
    ensures Prose(ClampNeutralized(text, cap, isWord)) == Prose(text[..cap])
  {
    HeadAlone(text, cap, isWord);
    NeutralizingKeepsProse(text[..cap], isWord);
  }

  lemma BothEndsShown(text: string, cap: int, isWord: char -> bool)
    requires |OmissionMarker(|text|)| < cap < |text|
    ensures var room := cap - |OmissionMarker(|text|)|;
            var shown := ClampNeutralized(text, cap, isWord);
            exists head, tail :: ShownCut(text, room, shown, head, tail)
  {
    var head, tail, n := BothEnds(text, cap, isWord);
    EndsKeepProse(head, tail, isWord);
    assert ShownCut(text, cap - |OmissionMarker(|text|)|, ClampNeutralized(text, cap, isWord),
                    NeutralizeFences(head, isWord), NeutralizeFences(tail, isWord));
  }

  lemma EndsKeepProse(head: string, tail: string, isWord: char -> bool)
    ensures Prose(NeutralizeFences(head, isWord)) == Prose(head) && Prose(NeutralizeFences(tail, isWord)) == Prose(tail)
  {
    NeutralizingKeepsProse(head, isWord);
    NeutralizingKeepsProse(tail, isWord);
  }

  lemma ClampShows(text: string, cap: int, isWord: char -> bool)
    requires cap > 0
    ensures ShownUnder(text, cap, ClampNeutralized(text, cap, isWord))
  {
    if |text| > cap {
      if cap <= |OmissionMarker(|text|)| {
        HeadAloneShown(text, cap, isWord);
      } else {
        BothEndsShown(text, cap, isWord);
      }
    }
  }

  /** A body reaches the worker at most 10000 characters long: untouched when it fits, and with
      nothing left in it that opens code when it was cut, both of its ends still there. */
  lemma NotifierBodyIsSafe(body: string, isWord: char -> bool)
    ensures var out := NormalizeNotifierBody(body, isWord);
            && |out| <= 10000
            && (|body| <= 10000 ==> out == body)
            && (|body| > 10000 ==> '`' !in out && NoFence(out))
            && ShownUnder(body, 10000, out)
  {
    ClampNeutralizedIsSafe(body, NOTIFIER_BODY_MAX_CHARS, isWord);
    ClampShows(body, NOTIFIER_BODY_MAX_CHARS, isWord);
  }

  // ----- Reasons --------------------------------------------------------------------------

  /** Whitespace, for stripping and for patterns alike. */
  predicate IsSpace(c: char) {
    || '\t' <= c <= '\r' || '\U{1C}' <= c <= ' ' || c == '\U{85}' || c == '\U{A0}' || c == '\U{1680}'
    || '\U{2000}' <= c <= '\U{200A}' || c == '\U{2028}' || c == '\U{2029}' || c == '\U{202F}'
    || c == '\U{205F}' || c == '\U{3000}'
  }

  /** The twenty-nine characters of whitespace, by code point. */
  lemma SpacesExactly(c: char)
    ensures IsSpace(c) <==>
              c as int in {9, 10, 11, 12, 13, 28, 29, 30, 31, 32, 133, 160, 5760, 8192, 8193, 8194, 8195, 8196, 8197,
                           8198, 8199, 8200, 8201, 8202, 8232, 8233, 8239, 8287, 12288}
  {
  }

  function StripLeft(s: string, isSpace: char -> bool): string {
    if s != "" && isSpace(s[0]) then StripLeft(s[1..], isSpace) else s
  }

  function StripRight(s: string, isSpace: char -> bool): string {
    if s != "" && isSpace(s[|s| - 1]) then StripRight(s[..|s| - 1], isSpace) else s
  }

  function Strip(s: string, isSpace: char -> bool): string {
    StripRight(StripLeft(s, isSpace), isSpace)
  }

  function NormalizeReason(reason: string, absent: string, cap: int, isSpace: char -> bool): string {
    var text := Strip(reason, isSpace);
    if text == "" then absent
    else
      var parts := ClampMiddleOut(text, cap, 0);
      if parts.Err? || parts.value.None? then text
      else parts.value.value.head + parts.value.value.marker + parts.value.value.tail
  }

  function NormalizeRollbackReason(scrubbed: string, isSpace: char -> bool): string {
    NormalizeReason(scrubbed, ROLLBACK_REASON_ABSENT, ROLLBACK_REASON_MAX_CHARS, isSpace)
  }

  function NormalizeCloseReason(reason: string, isSpace: char -> bool): string {
    NormalizeReason(reason, CLOSE_REASON_ABSENT, CLOSE_REASON_MAX_CHARS, isSpace)
  }

  lemma {:induction false} StripLeftReads(s: string, isSpace: char -> bool) returns (k: nat)
    ensures k <= |s| && StripLeft(s, isSpace) == s[k..]
    ensures (forall i :: 0 <= i < k ==> isSpace(s[i])) && (k < |s| ==> !isSpace(s[k]))
  {
    if s != "" && isSpace(s[0]) {
      k := StripLeftReads(s[1..], isSpace);
      k := k + 1;
    } else {
      k := 0;
    }
  }

  lemma {:induction false} StripRightReads(s: string, isSpace: char -> bool) returns (n: nat)
    ensures n <= |s| && StripRight(s, isSpace) == s[..n]
    ensures (forall i :: n <= i < |s| ==> isSpace(s[i])) && (n > 0 ==> !isSpace(s[n - 1]))
  {
    if s != "" && isSpace(s[|s| - 1]) {
      n := StripRightReads(s[..|s| - 1], isSpace);
    } else {
      n := |s|;
    }
  }

  /** Stripping takes whitespace off both ends and nothing else. */
  lemma StripReads(s: string, isSpace: char -> bool)
    ensures var out := Strip(s, isSpace);
            && (exists k, n :: 0 <= k <= n <= |s| && out == s[k..n]
                               && (forall i :: 0 <= i < k || n <= i < |s| ==> isSpace(s[i])))
            && (out != "" ==> !isSpace(out[0]) && !isSpace(out[|out| - 1]))
  {
    var k := StripLeftReads(s, isSpace);
    var n := StripRightReads(s[k..], isSpace);
    assert Strip(s, isSpace) == s[k..k + n];
    forall i | 0 <= i < k || k + n <= i < |s| ensures isSpace(s[i]) {
      assert i >= k ==> s[k..][i - k] == s[i];
    }
    if n > 0 {
      assert s[k..][n - 1] == s[k + n - 1];
    }
  }

  lemma StripKeepsSomething(s: string, isSpace: char -> bool)
    ensures Strip(s, isSpace) == "" <==> forall c :: c in s ==> isSpace(c)
  {
    StripLeftIsSuffix(s, isSpace);
    var t := StripLeft(s, isSpace);
    if t != "" {
      StripRightKeepsFirst(t, isSpace);
    }
  }

  lemma {:induction false} StripLeftIsSuffix(s: string, isSpace: char -> bool)
    ensures var t := StripLeft(s, isSpace);
            && (t != "" ==> t[0] in s && !isSpace(t[0]))
            && (t == "" ==> forall c :: c in s ==> isSpace(c))
  {
    if s != "" && isSpace(s[0]) {
      StripLeftIsSuffix(s[1..], isSpace);
      assert s == [s[0]] + s[1..];
    }
  }

  lemma {:induction false} StripRightKeepsFirst(s: string, isSpace: char -> bool)
    requires s != "" && !isSpace(s[0])
    ensures StripRight(s, isSpace) != ""
  {
    if isSpace(s[|s| - 1]) {
      StripRightKeepsFirst(s[..|s| - 1], isSpace);
    }
  }

  /** A reason is never empty and never over its bound. A blank one becomes the disclosure and a
      fitting one goes through stripped and otherwise whole. */
  lemma ReasonConforms(reason: string, absent: string, cap: int, isSpace: char -> bool)
    requires 0 < |absent| <= cap
    ensures var out := NormalizeReason(reason, absent, cap, isSpace);
            var text := Strip(reason, isSpace);
            && 1 <= |out| <= cap
            && ((forall c :: c in reason ==> isSpace(c)) ==> out == absent)
            && (1 <= |text| <= cap ==> out == text)
  {
    StripKeepsSomething(reason, isSpace);
    var text := Strip(reason, isSpace);
    if text != "" {
      ClampFits(text, cap, 0);
      var parts := ClampMiddleOut(text, cap, 0).value;
      if parts.Some? {
        var Split(head, marker, tail) := parts.value;
        assert |head| + |marker| >= 1;
      }
    }
  }

  /** A long reason keeps as much of both ends as fits and says how much lies between them. */
  lemma LongReasonKeepsBothEnds(reason: string, absent: string, cap: int, isSpace: char -> bool)
    requires |Strip(reason, isSpace)| > cap > |OmissionMarker(|Strip(reason, isSpace)|)|
    ensures var text := Strip(reason, isSpace);
            var room := cap - |OmissionMarker(|text|)|;
            NormalizeReason(reason, absent, cap, isSpace)
            == text[..room / 2] + OmissionMarker(|text| - room) + text[|text| - (room - room / 2)..]
  {
    var text := Strip(reason, isSpace);
    var room := cap - |OmissionMarker(|text|)|;
    assert |text| - room / 2 - (room - room / 2) == |text| - room;
  }

  /** The disclosure stands for a blank reason, and for a reason that says just that. */
  lemma DisclosedExactly(reason: string, absent: string, cap: int, isSpace: char -> bool)
    requires 0 < |absent| < cap && '\n' !in absent
    ensures NormalizeReason(reason, absent, cap, isSpace) == absent
            <==> (forall c :: c in reason ==> isSpace(c)) || Strip(reason, isSpace) == absent
  {
    ReasonConforms(reason, absent, cap, isSpace);
    StripKeepsSomething(reason, isSpace);
    var text := Strip(reason, isSpace);
    if |text| > cap {
      LongReasonIsNot(text, absent, cap);
    }
  }

  /** A cut text is as long as the cap, or holds the line ends of the marker. */
  lemma LongReasonIsNot(text: string, absent: string, cap: int)
    requires 0 < |absent| < cap < |text| && '\n' !in absent
    ensures var parts := ClampMiddleOut(text, cap, 0).value.value;
            parts.head + parts.marker + parts.tail != absent
  {
    ClampFits(text, cap, 0);
    var Split(head, marker, tail) := ClampMiddleOut(text, cap, 0).value.value;
    if marker != "" {
      assert (head + marker + tail)[|head|] == marker[0] == '\n';
    }
  }

  lemma RollbackDisclosureIsOneLine()
    ensures '\n' !in ROLLBACK_REASON_ABSENT
  {
    assert '\n' !in "DriftScribe proposed this rollback " && '\n' !in "without a model rationale. Inspect ";
    assert '\n' !in "the recorded change evidence and " && '\n' !in "target revision before approving.";
  }

  lemma CloseDisclosureIsOneLine()
    ensures '\n' !in CLOSE_REASON_ABSENT
  {
    assert '\n' !in "Closed via DriftScribe at the " && '\n' !in "operator's request; no reason ";
  }

  lemma RollbackReasonConforms(scrubbed: string, isSpace: char -> bool)
    ensures 1 <= |NormalizeRollbackReason(scrubbed, isSpace)| <= 2000
    ensures 1 <= |NormalizeCloseReason(scrubbed, isSpace)| <= 1000
  {
    ReasonConforms(scrubbed, ROLLBACK_REASON_ABSENT, ROLLBACK_REASON_MAX_CHARS, isSpace);
    ReasonConforms(scrubbed, CLOSE_REASON_ABSENT, CLOSE_REASON_MAX_CHARS, isSpace);
  }

  /** Both disclosures are given exactly for a blank reason, or one that already says them. */
  lemma ReasonsDisclosedExactly(reason: string, isSpace: char -> bool)
    ensures NormalizeRollbackReason(reason, isSpace) == ROLLBACK_REASON_ABSENT
            <==> (forall c :: c in reason ==> isSpace(c)) || Strip(reason, isSpace) == ROLLBACK_REASON_ABSENT
    ensures NormalizeCloseReason(reason, isSpace) == CLOSE_REASON_ABSENT
            <==> (forall c :: c in reason ==> isSpace(c)) || Strip(reason, isSpace) == CLOSE_REASON_ABSENT
  {
    RollbackDisclosureIsOneLine();
    CloseDisclosureIsOneLine();
    DisclosedExactly(reason, ROLLBACK_REASON_ABSENT, ROLLBACK_REASON_MAX_CHARS, isSpace);
    DisclosedExactly(reason, CLOSE_REASON_ABSENT, CLOSE_REASON_MAX_CHARS, isSpace);
  }
}
