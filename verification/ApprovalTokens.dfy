/** Removing single-use approval tokens from served text: a leftmost scan over one string, and its
    walk over a JSON-like value with a bounded depth. */
module ApprovalTokens {
  import opened Wrappers

  // ----- The link pattern -----------------------------------------------------------------

  const LINK_PATH := "/approvals/"
  const LINK_QUERY := "?t="
  const REDACTED := "<redacted>"

  predicate IsIdChar(c: char) {
    'A' <= c <= 'Z' || 'a' <= c <= 'z' || '0' <= c <= '9' || c == '_' || c == '-'
  }

  /** What a token may hold: everything but whitespace and the characters that end a link. */
  predicate IsTokenChar(c: char, isSpace: char -> bool) {
    !isSpace(c) && c !in "&<>\"'()[]"
  }

  function IdRun(s: string): (n: nat)
    ensures n <= |s|
    ensures forall i :: 0 <= i < n ==> IsIdChar(s[i])
    ensures n < |s| ==> !IsIdChar(s[n])
  {
    if s == "" || !IsIdChar(s[0]) then 0 else 1 + IdRun(s[1..])
  }

  function TokenRun(s: string, isSpace: char -> bool): (n: nat)
    ensures n <= |s|
    ensures forall i :: 0 <= i < n ==> IsTokenChar(s[i], isSpace)
    ensures n < |s| ==> !IsTokenChar(s[n], isSpace)
  {
    if s == "" || !IsTokenChar(s[0], isSpace) then 0 else 1 + TokenRun(s[1..], isSpace)
  }

  /** `s` starts with a link of `e` characters, up to and including the `=`. */
  predicate StartsLink(s: string, e: nat) {
    && |LINK_PATH| + 1 + |LINK_QUERY| <= e <= |s|
    && (forall i :: 0 <= i < |LINK_PATH| ==> s[i] == LINK_PATH[i])
    && (forall i :: |LINK_PATH| <= i < e - |LINK_QUERY| ==> IsIdChar(s[i]))
    && s[e - 3] == '?' && s[e - 2] == 't' && s[e - 1] == '='
  }

  function LinkLength(s: string): nat {
    if LINK_PATH <= s then |LINK_PATH| + IdRun(s[|LINK_PATH|..]) + |LINK_QUERY| else 0
  }

  predicate Matches(s: string, isSpace: char -> bool) {
    var e := LinkLength(s);
    StartsLink(s, e) && e < |s| && IsTokenChar(s[e], isSpace)
  }

  /** Where the token after the link ends. */
  function TokenEnd(s: string, isSpace: char -> bool): (f: nat)
    requires Matches(s, isSpace)
    ensures LinkLength(s) < f <= |s|
  {
    var e := LinkLength(s);
    assert s[e..][0] == s[e];
    e + TokenRun(s[e..], isSpace)
  }

  function Scrub(s: string, isSpace: char -> bool): string
    decreases |s|
  {
    if s == "" then ""
    else if Matches(s, isSpace) then
      s[..LinkLength(s)] + REDACTED + Scrub(s[TokenEnd(s, isSpace)..], isSpace)
    else [s[0]] + Scrub(s[1..], isSpace)
  }

  ghost predicate NoMatch(s: string, isSpace: char -> bool) {
    forall i :: 0 <= i <= |s| ==> !Matches(s[i..], isSpace)
  }

  // ----- The scan leaves nothing ----------------------------------------------------------

  lemma PathAndMarkerChars()
    ensures forall i :: 0 <= i < |LINK_PATH| ==> LINK_PATH[i] != '<' && LINK_PATH[i] != '?'
    ensures LINK_PATH[0] == '/'
    ensures REDACTED[0] == '<' && forall i :: 0 <= i < |REDACTED| ==> REDACTED[i] != '/'
    ensures forall i :: 0 <= i < |DEPTH_MARKER| ==> DEPTH_MARKER[i] != '/'
  {
  }

  /** A link has one length: its identifier ends where the query starts. */
  lemma LinkLengthUnique(s: string, e: nat)
    requires StartsLink(s, e)
    ensures LinkLength(s) == e
  {
    var n := IdRun(s[|LINK_PATH|..]);
    var q := e - |LINK_QUERY|;
    assert !IsIdChar(s[q]);
    assert forall k :: 0 <= k < |s| - |LINK_PATH| ==> s[|LINK_PATH|..][k] == s[|LINK_PATH| + k];
  }

  /** A match is decided by its link and the one character after it. */
  lemma MatchIsLocal(s: string, t: string, isSpace: char -> bool)
    requires Matches(s, isSpace)
    requires LinkLength(s) < |t| && forall i :: 0 <= i <= LinkLength(s) ==> t[i] == s[i]
    ensures Matches(t, isSpace)
  {
    LinkLengthUnique(t, LinkLength(s));
  }

  lemma NoAngleInMatch(s: string, isSpace: char -> bool)
    requires Matches(s, isSpace)
    ensures forall i :: 0 <= i <= LinkLength(s) ==> s[i] != '<'
  {
    PathAndMarkerChars();
  }

  /** The sole `?` of a link starts its query. */
  lemma OneQuestionMark(s: string, e: nat)
    requires StartsLink(s, e)
    ensures forall i :: 0 <= i < e && i != e - 3 ==> s[i] != '?'
  {
    PathAndMarkerChars();
  }

  lemma AngleEndsMatch(s: string, p: nat, isSpace: char -> bool)
    requires p < |s| && s[p] == '<'
    ensures Matches(s, isSpace) ==> LinkLength(s) < p
  {
    if Matches(s, isSpace) {
      NoAngleInMatch(s, isSpace);
    }
  }

  lemma ScrubOfMatch(s: string, isSpace: char -> bool)
    requires Matches(s, isSpace)
    ensures var out, e := Scrub(s, isSpace), LinkLength(s);
            e < |out| && out[e] == '<' && forall i :: 0 <= i < e ==> out[i] == s[i]
  {
    PathAndMarkerChars();
  }

  /** What the scan emits agrees with its input up to the first `<` it writes. */
  lemma {:induction false} AngleFreePrefix(s: string, isSpace: char -> bool, k: nat)
    requires k <= |Scrub(s, isSpace)| && forall i :: 0 <= i < k ==> Scrub(s, isSpace)[i] != '<'
    ensures k <= |s| && forall i :: 0 <= i < k ==> Scrub(s, isSpace)[i] == s[i]
    decreases |s|
  {
    if k > 0 {
      if Matches(s, isSpace) {
        ScrubOfMatch(s, isSpace);
      } else {
        var rest := Scrub(s[1..], isSpace);
        PrefixOfCons(s[0], rest, k);
        AngleFreePrefix(s[1..], isSpace, k - 1);
      }
    }
  }

  lemma PrefixOfCons(c: char, rest: string, k: nat)
    requires 0 < k <= |rest| + 1
    ensures (forall i :: 0 <= i < k ==> ([c] + rest)[i] != '<') ==> forall i :: 0 <= i < k - 1 ==> rest[i] != '<'
  {
    assert forall i :: 0 <= i < k - 1 ==> rest[i] == ([c] + rest)[i + 1];
  }

  lemma NoMatchAtFront(s: string, isSpace: char -> bool)
    requires !Matches(s, isSpace)
    ensures !Matches(Scrub(s, isSpace), isSpace)
  {
    var out := Scrub(s, isSpace);
    if Matches(out, isSpace) {
      NoAngleInMatch(out, isSpace);
      AngleFreePrefix(s, isSpace, LinkLength(out) + 1);
      MatchIsLocal(out, s, isSpace);
    }
  }

  /** Before and inside the marker nothing matches: a match would have to end, with a token
      character, before the marker's `<`, and the only `?` there is followed by it too soon. */
  lemma NoMatchInsideLink(s: string, e: nat, rest: string, i: nat, isSpace: char -> bool)
    requires StartsLink(s, e) && i < e + |REDACTED|
    ensures !Matches((s[..e] + REDACTED + rest)[i..], isSpace)
  {
    var out := s[..e] + REDACTED + rest;
    var t := out[i..];
    PathAndMarkerChars();
    if i >= e {
      assert t[0] == REDACTED[i - e];
    } else {
      assert t[e - i] == REDACTED[0];
      AngleEndsMatch(t, e - i, isSpace);
      OneQuestionMark(s, e);
      assert forall k :: 0 <= k < e - i ==> t[k] == s[i + k];
    }
  }

  lemma NoMatchAfterLink(s: string, e: nat, rest: string, isSpace: char -> bool)
    requires StartsLink(s, e) && NoMatch(rest, isSpace)
    ensures NoMatch(s[..e] + REDACTED + rest, isSpace)
  {
    var out := s[..e] + REDACTED + rest;
    var start := e + |REDACTED|;
    forall i | 0 <= i <= |out| ensures !Matches(out[i..], isSpace) {
      if i >= start {
        assert out[i..] == rest[i - start..];
      } else {
        NoMatchInsideLink(s, e, rest, i, isSpace);
      }
    }
  }

  lemma NoMatchOfCons(c: char, rest: string, isSpace: char -> bool)
    requires NoMatch(rest, isSpace) && !Matches([c] + rest, isSpace)
    ensures NoMatch([c] + rest, isSpace)
  {
    var out := [c] + rest;
    forall i | 0 <= i <= |out| ensures !Matches(out[i..], isSpace) {
      if i > 0 {
        assert out[i..] == rest[i - 1..];
      } else {
        assert out[0..] == out;
      }
    }
  }

  /** Nothing is left to match, and no new match is made by what the scan writes. */
  lemma {:induction false} NothingLeft(s: string, isSpace: char -> bool)
    ensures NoMatch(Scrub(s, isSpace), isSpace)
    decreases |s|
  {
    if s != "" {
      if Matches(s, isSpace) {
        var tail := s[TokenEnd(s, isSpace)..];
        NothingLeft(tail, isSpace);
        NoMatchAfterLink(s, LinkLength(s), Scrub(tail, isSpace), isSpace);
      } else {
        NothingLeft(s[1..], isSpace);
        NoMatchAtFront(s, isSpace);
        NoMatchOfCons(s[0], Scrub(s[1..], isSpace), isSpace);
      }
    }
  }

  lemma {:induction false} UnmatchedIsUnchanged(s: string, isSpace: char -> bool)
    requires NoMatch(s, isSpace)
    ensures Scrub(s, isSpace) == s
  {
    if s != "" {
      assert s[0..] == s;
      forall i | 0 <= i <= |s[1..]| ensures !Matches(s[1..][i..], isSpace) {
        assert s[1..][i..] == s[i + 1..];
      }
      UnmatchedIsUnchanged(s[1..], isSpace);
    }
  }

  /** A string comes back as it was exactly when it holds no tokenized link. */
  lemma UnchangedExactly(s: string, isSpace: char -> bool)
    ensures Scrub(s, isSpace) == s <==> NoMatch(s, isSpace)
    ensures Scrub(Scrub(s, isSpace), isSpace) == Scrub(s, isSpace)
  {
    NothingLeft(s, isSpace);
    UnmatchedIsUnchanged(Scrub(s, isSpace), isSpace);
    if NoMatch(s, isSpace) {
      UnmatchedIsUnchanged(s, isSpace);
    }
  }

  // ----- The scan changes nothing but tokens ----------------------------------------------

  datatype Piece = Plain(c: char) | Tokenized(link: string, token: string)

  function Pieces(s: string, isSpace: char -> bool): seq<Piece>
    decreases |s|
  {
    if s == "" then []
    else if Matches(s, isSpace) then
      var e, f := LinkLength(s), TokenEnd(s, isSpace);
      [Tokenized(s[..e], s[e..f])] + Pieces(s[f..], isSpace)
    else [Plain(s[0])] + Pieces(s[1..], isSpace)
  }

  function Written(p: Piece, masked: bool): string {
    if p.Plain? then [p.c] else p.link + (if masked then REDACTED else p.token)
  }

  function Join(ps: seq<Piece>, masked: bool): string {
    if ps == [] then "" else Written(ps[0], masked) + Join(ps[1..], masked)
  }

  predicate AllTokenChars(s: string, isSpace: char -> bool) {
    forall i :: 0 <= i < |s| ==> IsTokenChar(s[i], isSpace)
  }

  /** Every removed token follows a link, is not empty, and is as long as it can be. */
  predicate Proper(ps: seq<Piece>, isSpace: char -> bool) {
    ps != [] ==>
      && Proper(ps[1..], isSpace)
      && (ps[0].Tokenized? ==>
            && StartsLink(ps[0].link, |ps[0].link|)
            && ps[0].token != "" && AllTokenChars(ps[0].token, isSpace)
            && (Join(ps[1..], false) != "" ==> !IsTokenChar(Join(ps[1..], false)[0], isSpace)))
  }

  lemma MatchedPiece(s: string, isSpace: char -> bool)
    requires Matches(s, isSpace)
    ensures var e, f := LinkLength(s), TokenEnd(s, isSpace);
            && StartsLink(s[..e], e)
            && AllTokenChars(s[e..f], isSpace)
            && (s[f..] != "" ==> !IsTokenChar(s[f..][0], isSpace))
  {
  }

  lemma JoinOfCons(p: Piece, ps: seq<Piece>, masked: bool)
    ensures Join([p] + ps, masked) == Written(p, masked) + Join(ps, masked)
  {
    assert ([p] + ps)[1..] == ps;
  }

  lemma JoinOfLink(s: string, e: nat, f: nat, ps: seq<Piece>, masked: bool)
    requires e <= f <= |s|
    ensures masked ==> Join([Tokenized(s[..e], s[e..f])] + ps, masked) == s[..e] + REDACTED + Join(ps, masked)
    ensures !masked && Join(ps, masked) == s[f..] ==> Join([Tokenized(s[..e], s[e..f])] + ps, masked) == s
  {
    JoinOfCons(Tokenized(s[..e], s[e..f]), ps, masked);
    assert s[..e] + s[e..f] + s[f..] == s;
  }

  lemma {:induction false} PiecesRejoin(s: string, masked: bool, isSpace: char -> bool)
    ensures Join(Pieces(s, isSpace), masked) == if masked then Scrub(s, isSpace) else s
    decreases |s|
  {
    if s != "" {
      if Matches(s, isSpace) {
        var e, f := LinkLength(s), TokenEnd(s, isSpace);
        PiecesRejoin(s[f..], masked, isSpace);
        JoinOfLink(s, e, f, Pieces(s[f..], isSpace), masked);
      } else {
        PiecesRejoin(s[1..], masked, isSpace);
        JoinOfCons(Plain(s[0]), Pieces(s[1..], isSpace), masked);
      }
    }
  }

  lemma ProperOfCons(p: Piece, ps: seq<Piece>, isSpace: char -> bool)
    requires Proper(ps, isSpace)
    requires p.Tokenized? ==>
               && StartsLink(p.link, |p.link|)
               && p.token != "" && AllTokenChars(p.token, isSpace)
               && (Join(ps, false) != "" ==> !IsTokenChar(Join(ps, false)[0], isSpace))
    ensures Proper([p] + ps, isSpace)
  {
    assert ([p] + ps)[1..] == ps;
  }

  lemma {:induction false} PiecesAreProper(s: string, isSpace: char -> bool)
    ensures Proper(Pieces(s, isSpace), isSpace)
    decreases |s|
  {
    if s != "" {
      if Matches(s, isSpace) {
        var e, f := LinkLength(s), TokenEnd(s, isSpace);
        MatchedPiece(s, isSpace);
        PiecesAreProper(s[f..], isSpace);
        PiecesRejoin(s[f..], false, isSpace);
        ProperOfCons(Tokenized(s[..e], s[e..f]), Pieces(s[f..], isSpace), isSpace);
      } else {
        PiecesAreProper(s[1..], isSpace);
        ProperOfCons(Plain(s[0]), Pieces(s[1..], isSpace), isSpace);
      }
    }
  }

  /** The text splits into characters and tokenized links; the scan writes the same pieces with
      each whole token, and nothing else, replaced. */
  lemma OnlyTokensChange(s: string, isSpace: char -> bool)
    ensures exists ps :: && Proper(ps, isSpace)
                         && Join(ps, false) == s
                         && Join(ps, true) == Scrub(s, isSpace)
  {
    PiecesRejoin(s, false, isSpace);
    PiecesRejoin(s, true, isSpace);
    PiecesAreProper(s, isSpace);
  }

  // ----- Links, spelled out ---------------------------------------------------------------

  /** An approval's path and the start of its token query. */
  ghost predicate IsLink(s: string, id: string) {
    && s == "/approvals/" + id + "?t=" && id != ""
    && forall c :: c in id ==> 'A' <= c <= 'Z' || 'a' <= c <= 'z' || '0' <= c <= '9' || c in "_-"
  }

  ghost predicate MayBeInToken(c: char, isSpace: char -> bool) {
    !isSpace(c) && c != '&' && c != '<' && c != '>' && c != '"' && c != '\'' && c !in "()[]"
  }

  lemma TokenCharsExactly(c: char, isSpace: char -> bool)
    ensures IsTokenChar(c, isSpace) <==> MayBeInToken(c, isSpace)
  {
  }

  lemma LinkStarts(s: string, id: string, rest: string)
    requires IsLink(s, id)
    ensures StartsLink(s + rest, |s|)
  {
    var n := |"/approvals/"|;
    assert forall i :: 0 <= i < |id| ==> s[n + i] == id[i] && id[i] in id;
    assert s[n + |id|..] == "?t=";
  }

  lemma StartIsLink(s: string, e: nat)
    requires StartsLink(s, e)
    ensures IsLink(s[..e], s[11..e - 3])
  {
    var id := s[11..e - 3];
    assert forall i :: 0 <= i < |id| ==> id[i] == s[11 + i];
    assert s[..11] == "/approvals/";
    assert s[e - 3..e] == "?t=";
    assert s[..e] == s[..11] + id + s[e - 3..e];
  }

  /** What the scan looks for: a link, and one more character that may stand in a token. */
  lemma MatchesExactly(s: string, isSpace: char -> bool)
    ensures Matches(s, isSpace) <==> exists at, id, rest ::
              IsLink(at, id) && s == at + rest && rest != "" && MayBeInToken(rest[0], isSpace)
  {
    if Matches(s, isSpace) {
      var e := LinkLength(s);
      StartIsLink(s, e);
      TokenCharsExactly(s[e], isSpace);
      assert s == s[..e] + s[e..] && s[e..][0] == s[e];
    }
    if at, id, rest :| IsLink(at, id) && s == at + rest && rest != "" && MayBeInToken(rest[0], isSpace) {
      LinkStarts(at, id, rest);
      LinkLengthUnique(s, |at|);
      TokenCharsExactly(rest[0], isSpace);
    }
  }

  lemma {:induction false} TokenRunOf(token: string, after: string, isSpace: char -> bool)
    requires forall c :: c in token ==> MayBeInToken(c, isSpace)
    requires after != "" ==> !MayBeInToken(after[0], isSpace)
    ensures TokenRun(token + after, isSpace) == |token|
  {
    var s := token + after;
    if token == "" {
      if after != "" {
        TokenCharsExactly(after[0], isSpace);
      }
      assert s == after;
    } else {
      assert s[0] == token[0] && token[0] in token && s[1..] == token[1..] + after;
      TokenCharsExactly(token[0], isSpace);
      TokenRunOf(token[1..], after, isSpace);
    }
  }

  lemma LinkIsScrubbed(at: string, id: string, token: string, after: string, isSpace: char -> bool)
    requires IsLink(at, id) && token != "" && forall c :: c in token ==> MayBeInToken(c, isSpace)
    requires after != "" ==> !MayBeInToken(after[0], isSpace)
    ensures Scrub(at + token + after, isSpace) == at + "<redacted>" + Scrub(after, isSpace)
  {
    var rest := token + after;
    var s := at + token + after;
    assert s == at + rest && rest[0] == token[0] && token[0] in token;
    MatchesExactly(s, isSpace);
    LinkStarts(at, id, rest);
    LinkLengthUnique(s, |at|);
    TokenRunOf(token, after, isSpace);
    assert s[|at|..] == rest && s[..|at|] == at;
    assert s[|at| + |token|..] == after;
  }

  lemma {:induction false} SlashFreeIsKept(before: string, rest: string, isSpace: char -> bool)
    requires '/' !in before
    ensures Scrub(before + rest, isSpace) == before + Scrub(rest, isSpace)
  {
    var s := before + rest;
    if before == "" {
      assert s == rest;
    } else {
      assert s[0] == before[0] && before[0] in before && LINK_PATH[0] == '/';
      assert s[1..] == before[1..] + rest && !Matches(s, isSpace);
      SlashFreeIsKept(before[1..], rest, isSpace);
      Prepended(before, Scrub(rest, isSpace));
    }
  }

  lemma Prepended(before: string, rest: string)
    requires before != ""
    ensures [before[0]] + (before[1..] + rest) == before + rest
  {
  }

  /** A token after a link goes, whole, and what is around it stays. */
  lemma TokenIsScrubbed(before: string, at: string, id: string, token: string, after: string, isSpace: char -> bool)
    requires IsLink(at, id) && token != "" && forall c :: c in token ==> MayBeInToken(c, isSpace)
    requires '/' !in before && (after != "" ==> !MayBeInToken(after[0], isSpace))
    ensures Scrub(before + (at + token + after), isSpace) == before + (at + "<redacted>" + Scrub(after, isSpace))
  {
    SlashFreeIsKept(before, at + token + after, isSpace);
    LinkIsScrubbed(at, id, token, after, isSpace);
  }

  /** No tokenized link is left, wherever it may have stood. */
  lemma NoTokenizedLink(s: string, before: string, at: string, id: string, rest: string, isSpace: char -> bool)
    requires IsLink(at, id) && rest != "" && MayBeInToken(rest[0], isSpace)
    ensures Scrub(s, isSpace) != before + (at + rest)
  {
    NothingLeft(s, isSpace);
    MatchesExactly(at + rest, isSpace);
    MatchBelow(before, at + rest, isSpace);
  }

  lemma MatchBelow(before: string, rest: string, isSpace: char -> bool)
    requires Matches(rest, isSpace)
    ensures !NoMatch(before + rest, isSpace)
  {
    assert (before + rest)[|before|..] == rest;
  }

  // ----- Nested values --------------------------------------------------------------------

  datatype Entry = Entry(key: string, value: Json)
  datatype Json = JString(text: string) | JList(items: seq<Json>) | JObject(entries: seq<Entry>) | JScalar(id: int)

  const MAX_DEPTH: nat := 64
  const DEPTH_MARKER := "<redacted:depth>"

  function Redact(j: Json, depth: nat, isSpace: char -> bool): Json {
    if depth > MAX_DEPTH then JString(DEPTH_MARKER)
    else
      match j
      case JString(text) => JString(Scrub(text, isSpace))
      case JObject(entries) =>
        JObject(seq(|entries|, i requires 0 <= i < |entries| =>
          Entry(entries[i].key, Redact(entries[i].value, depth + 1, isSpace))))
      case JList(items) =>
        JList(seq(|items|, i requires 0 <= i < |items| => Redact(items[i], depth + 1, isSpace)))
      case JScalar(_) => j
  }

  function Child(j: Json, i: nat): Option<Json> {
    match j
    case JList(items) => if i < |items| then Some(items[i]) else None
    case JObject(entries) => if i < |entries| then Some(entries[i].value) else None
    case _ => None
  }

  /** The value reached by following positions down from the root. */
  function At(j: Json, path: seq<nat>): Option<Json> {
    if path == [] then Some(j)
    else if Child(j, path[0]).None? then None
    else At(Child(j, path[0]).value, path[1..])
  }

  /** Same kind, same keys in the same order, same scalar; strings are compared elsewhere. */
  predicate SameNode(a: Json, b: Json) {
    match a
    case JString(_) => b.JString?
    case JScalar(_) => a == b
    case JList(items) => b.JList? && |b.items| == |items|
    case JObject(entries) =>
      && b.JObject? && |b.entries| == |entries|
      && forall i :: 0 <= i < |entries| ==> b.entries[i].key == entries[i].key
  }

  lemma ChildOfRedacted(j: Json, i: nat, depth: nat, isSpace: char -> bool)
    requires depth <= MAX_DEPTH
    ensures Child(Redact(j, depth, isSpace), i)
         == if Child(j, i).None? then None else Some(Redact(Child(j, i).value, depth + 1, isSpace))
  {
  }

  /** Every position of the value, compared before and after: within the bound nothing changes but
      the tokens in strings, one level below it stands the marker, and deeper there is nothing. */
  lemma {:induction false} RedactedAt(j: Json, path: seq<nat>, depth: nat, isSpace: char -> bool)
    requires depth <= MAX_DEPTH + 1
    ensures var before := At(j, path);
            var after := At(Redact(j, depth, isSpace), path);
            if before.None? || depth + |path| > 65 then after.None?
            else if depth + |path| == 65 then after == Some(JString("<redacted:depth>"))
            else && after.Some? && SameNode(before.value, after.value)
                 && (before.value.JString? ==> after.value.text == Scrub(before.value.text, isSpace))
    decreases |path|
  {
    if depth <= MAX_DEPTH && path != [] {
      ChildOfRedacted(j, path[0], depth, isSpace);
      if Child(j, path[0]).Some? {
        RedactedAt(Child(j, path[0]).value, path[1..], depth + 1, isSpace);
      }
    }
  }

  lemma MarkerIsClean(isSpace: char -> bool)
    ensures NoMatch(DEPTH_MARKER, isSpace)
  {
    PathAndMarkerChars();
    forall i | 0 <= i <= |DEPTH_MARKER| ensures !Matches(DEPTH_MARKER[i..], isSpace) {
      assert i < |DEPTH_MARKER| ==> DEPTH_MARKER[i..][0] == DEPTH_MARKER[i];
    }
  }

  /** No string at any position of a redacted value holds a tokenized link. */
  lemma NoTokenAnywhere(j: Json, path: seq<nat>, isSpace: char -> bool)
    ensures var found := At(Redact(j, 0, isSpace), path);
            found.Some? && found.value.JString? ==> NoMatch(found.value.text, isSpace)
  {
    RedactedAt(j, path, 0, isSpace);
    MarkerIsClean(isSpace);
    var before := At(j, path);
    if before.Some? && before.value.JString? {
      NothingLeft(before.value.text, isSpace);
    }
  }

  /** Redacting again changes nothing, at the depth cut-off included. */
  lemma {:induction false} RedactIdempotent(j: Json, depth: nat, isSpace: char -> bool)
    ensures Redact(Redact(j, depth, isSpace), depth, isSpace) == Redact(j, depth, isSpace)
  {
    if depth <= MAX_DEPTH {
      var r := Redact(j, depth, isSpace);
      match j
      case JString(text) => UnchangedExactly(text, isSpace);
      case JScalar(_) =>
      case JList(items) =>
        forall i | 0 <= i < |items|
          ensures Redact(r.items[i], depth + 1, isSpace) == r.items[i]
        {
          RedactIdempotent(items[i], depth + 1, isSpace);
        }
        assert Redact(r, depth, isSpace).items == r.items;
      case JObject(entries) =>
        forall i | 0 <= i < |entries|
          ensures Redact(r.entries[i].value, depth + 1, isSpace) == r.entries[i].value
        {
          RedactIdempotent(entries[i].value, depth + 1, isSpace);
        }
        assert Redact(r, depth, isSpace).entries == r.entries;
    }
  }
}
