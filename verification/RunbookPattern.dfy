/** The line model of a runbook's sections against the pattern it stands for: two hashes, whitespace,
    the section's name, whitespace up to a last line end, and then the body up to the next line that
    starts with two hashes and whitespace. */
module RunbookPattern {
  import opened Wrappers
  import opened BoundedText
  import opened RunbookPatcher
  import opened RunbookIdempotence
  import opened RunbookFences

  // ----- Positions ------------------------------------------------------------------------

  /** Where a line starts in the text. */
  function Off(ls: seq<string>, m: nat): nat
    requires m <= |ls|
  {
    if m == 0 then 0 else Off(ls, m - 1) + |ls[m - 1]| + 1
  }

  lemma {:induction false} OffOfTail(ls: seq<string>, m: nat)
    requires 1 <= m <= |ls|
    ensures Off(ls, m) == |ls[0]| + 1 + Off(ls[1..], m - 1)
  {
    if m > 1 {
      OffOfTail(ls, m - 1);
    } else {
      assert Off(ls, 0) == 0;
    }
  }

  /** Each line stands in the text at its place. */
  lemma {:induction false} TextAt(ls: seq<string>, m: nat)
    requires m < |ls|
    ensures Off(ls, m) + |ls[m]| <= |Text(ls)|
    ensures Text(ls)[Off(ls, m)..Off(ls, m) + |ls[m]|] == ls[m]
  {
    if m > 0 {
      var head, tail := ls[0] + "\n", Text(ls[1..]);
      TextAt(ls[1..], m - 1);
      OffOfTail(ls, m);
      SliceBelow(Text(ls), head, tail, Off(ls[1..], m - 1), |ls[m]|);
    }
  }

  lemma SliceBelow(t: string, head: string, tail: string, o: nat, n: nat)
    requires t == head + tail && o + n <= |tail|
    ensures t[|head| + o..|head| + o + n] == tail[o..o + n]
  {
  }

  /** A line end stands after each line but the last. */
  lemma {:induction false} TextLineEnd(ls: seq<string>, m: nat)
    requires m < |ls|
    ensures Off(ls, m) + |ls[m]| <= |Text(ls)|
    ensures m + 1 < |ls| ==> Off(ls, m) + |ls[m]| < |Text(ls)| && Text(ls)[Off(ls, m) + |ls[m]|] == '\n'
    ensures m + 1 == |ls| ==> Off(ls, m) + |ls[m]| == |Text(ls)|
  {
    if m > 0 {
      TextLineEnd(ls[1..], m - 1);
      OffOfTail(ls, m);
      assert Text(ls) == ls[0] + "\n" + Text(ls[1..]);
    } else if |ls| > 1 {
      assert Text(ls) == ls[0] + "\n" + Text(ls[1..]);
    }
  }

  /** A text laid out in lines: each at its place, with a line end after each but the last. */
  ghost predicate Laid(t: string, ls: seq<string>) {
    && ls != [] && |t| + 1 == Off(ls, |ls|)
    && forall m :: 0 <= m < |ls| ==> LineAt(t, ls, m)
  }

  ghost predicate LineAt(t: string, ls: seq<string>, m: nat)
    requires m < |ls|
  {
    && Off(ls, m) + |ls[m]| <= |t| && t[Off(ls, m)..Off(ls, m) + |ls[m]|] == ls[m]
    && (m + 1 < |ls| ==> Off(ls, m) + |ls[m]| < |t| && t[Off(ls, m) + |ls[m]|] == '\n')
  }

  lemma TextIsLaid(ls: seq<string>)
    requires ls != []
    ensures Laid(Text(ls), ls)
  {
    forall m | 0 <= m < |ls| ensures LineAt(Text(ls), ls, m) {
      TextAt(ls, m);
      TextLineEnd(ls, m);
    }
    TextLineEnd(ls, |ls| - 1);
  }

  lemma LineEnd(t: string, ls: seq<string>, m: nat)
    requires Laid(t, ls) && m < |ls|
    ensures Off(ls, m) + |ls[m]| <= |t|
    ensures m + 1 < |ls| ==> Off(ls, m) + |ls[m]| < |t| && t[Off(ls, m) + |ls[m]|] == '\n'
    ensures m + 1 == |ls| ==> Off(ls, m) + |ls[m]| == |t|
  {
    assert LineAt(t, ls, m);
  }

  lemma CharAt(t: string, ls: seq<string>, m: nat, k: nat)
    requires Laid(t, ls)
    requires m < |ls| && k < |ls[m]|
    ensures Off(ls, m) + k < |t| && t[Off(ls, m) + k] == ls[m][k]
  {
    assert LineAt(t, ls, m);
    assert t[Off(ls, m)..Off(ls, m) + |ls[m]|][k] == ls[m][k];
  }

  lemma {:induction false} OffGrows(ls: seq<string>, m: nat, n: nat)
    requires m < n <= |ls|
    ensures Off(ls, m) + |ls[m]| < Off(ls, n)
    decreases n - m
  {
    if m + 1 < n {
      OffGrows(ls, m, n - 1);
    }
  }

  /** Every position is in a line or at its end. */
  lemma {:induction false} LineOf(ls: seq<string>, i: nat, last: nat) returns (m: nat)
    requires last < |ls| && i <= Off(ls, last) + |ls[last]|
    ensures m <= last && Off(ls, m) <= i <= Off(ls, m) + |ls[m]|
  {
    if Off(ls, last) <= i {
      m := last;
    } else {
      m := LineOf(ls, i, last - 1);
    }
  }

  ghost predicate BlankBetween(t: string, x: int, y: int) {
    0 <= x && y <= |t| && forall k :: x <= k < y ==> IsSpace(t[k])
  }

  /** Whitespace in a line is whitespace in the text. */
  lemma BlankUp(t: string, ls: seq<string>, m: nat, k: nat, l: nat)
    requires Laid(t, ls)
    requires m < |ls| && k <= l <= |ls[m]| && Blank(ls[m][k..l])
    ensures BlankBetween(t, Off(ls, m) + k, Off(ls, m) + l)
  {
    LineEnd(t, ls, m);
    BlankAt(ls[m], k, l);
    forall i | Off(ls, m) + k <= i < Off(ls, m) + l ensures IsSpace(t[i]) {
      CharAt(t, ls, m, i - Off(ls, m));
    }
  }

  lemma BlankDown(t: string, ls: seq<string>, m: nat, k: nat, l: nat, x: int, y: int)
    requires Laid(t, ls)
    requires m < |ls| && k <= l <= |ls[m]| && BlankBetween(t, x, y)
    requires x <= Off(ls, m) + k && Off(ls, m) + l <= y
    ensures Blank(ls[m][k..l])
  {
    BlankAt(ls[m], k, l);
    forall j | k <= j < l ensures IsSpace(ls[m][j]) {
      CharAt(t, ls, m, j);
    }
  }

  /** From inside a line over blank lines into another one. */
  lemma BlankAcross(t: string, ls: seq<string>, p: nat, k: nat, q: nat, c: nat)
    requires Laid(t, ls)
    requires p < q < |ls| && k <= |ls[p]| && c <= |ls[q]|
    requires Blank(ls[p][k..]) && Blank(ls[q][..c]) && forall m :: p < m < q ==> Blank(ls[m])
    ensures BlankBetween(t, Off(ls, p) + k, Off(ls, q) + c)
  {
    LineEnd(t, ls, q);
    assert ls[p][k..|ls[p]|] == ls[p][k..] && ls[q][0..c] == ls[q][..c];
    BlankUp(t, ls, p, k, |ls[p]|);
    BlankUp(t, ls, q, 0, c);
    forall i | Off(ls, p) + k <= i < Off(ls, q) + c ensures IsSpace(t[i]) {
      var m := LineOf(ls, i, q);
      BlankAcrossAt(t, ls, p, k, q, c, i, m);
    }
  }

  lemma BlankAcrossAt(t: string, ls: seq<string>, p: nat, k: nat, q: nat, c: nat, i: nat, m: nat)
    requires Laid(t, ls)
    requires p < q < |ls| && k <= |ls[p]| && c <= |ls[q]| && m <= q && Off(ls, m) <= i <= Off(ls, m) + |ls[m]|
    requires BlankBetween(t, Off(ls, p) + k, Off(ls, p) + |ls[p]|)
    requires BlankBetween(t, Off(ls, q), Off(ls, q) + c)
    requires forall j :: p < j < q ==> Blank(ls[j])
    requires Off(ls, p) + k <= i < Off(ls, q) + c
    ensures i < |t| && IsSpace(t[i])
  {
    if m < p {
      OffGrows(ls, m, p);
    } else if p < m < q || (m == p && i == Off(ls, m) + |ls[m]|) {
      BlankLineAt(t, ls, m, i);
    }
  }

  lemma BlankLineAt(t: string, ls: seq<string>, m: nat, i: nat)
    requires Laid(t, ls)
    requires m + 1 < |ls| && Off(ls, m) <= i <= Off(ls, m) + |ls[m]|
    requires Blank(ls[m]) || i == Off(ls, m) + |ls[m]|
    ensures i < |t| && IsSpace(t[i])
  {
    LineEnd(t, ls, m);
    if i < Off(ls, m) + |ls[m]| {
      CharAt(t, ls, m, i - Off(ls, m));
    }
  }

  // ----- A heading in the text ------------------------------------------------------------

  /** Two hashes at `i`, whitespace, the section's name at `a`, and whitespace up to `b`, which is
      just after a line end. */
  ghost predicate Heads(t: string, i: int, a: int, b: int, section: string) {
    && 0 <= i && i + 2 < a && a + |section| < b <= |t|
    && t[i] == '#' && t[i + 1] == '#' && BlankBetween(t, i + 2, a)
    && t[a..a + |section|] == section
    && BlankBetween(t, a + |section|, b) && t[b - 1] == '\n'
  }

  ghost predicate HeadsAt(t: string, i: int, section: string) {
    exists a, b :: Heads(t, i, a, b, section)
  }

  /** The name at its place in a line, and nothing but whitespace up to the line's end. */
  lemma NameInLine(t: string, ls: seq<string>, q: nat, c: nat, section: string)
    requires Laid(t, ls)
    requires q + 1 < |ls| && c + |section| <= |ls[q]| && ls[q][c..c + |section|] == section
    requires Blank(ls[q][c + |section|..])
    ensures var a := Off(ls, q) + c;
            && a + |section| < Off(ls, q + 1) <= |t| && t[a..a + |section|] == section
            && BlankBetween(t, a + |section|, Off(ls, q + 1)) && t[Off(ls, q + 1) - 1] == '\n'
  {
    LineEnd(t, ls, q);
    var line, end := ls[q], |ls[q]|;
    assert line[c + |section|..end] == line[c + |section|..];
    BlankUp(t, ls, q, c + |section|, end);
    assert IsSpace('\n');
    assert LineAt(t, ls, q);
    PartOfSlice(t, Off(ls, q), line, c, |section|);
  }

  lemma PartOfSlice(t: string, o: nat, line: string, c: nat, n: nat)
    requires o + |line| <= |t| && t[o..o + |line|] == line && c + n <= |line|
    ensures t[o + c..o + c + n] == line[c..c + n]
  {
    var x, y := t[o + c..o + c + n], line[c..c + n];
    forall k | 0 <= k < n ensures x[k] == y[k] {
      assert t[o..o + |line|][c + k] == x[k];
    }
  }

  lemma MarksInLine(t: string, ls: seq<string>, p: nat, o: nat)
    requires Laid(t, ls)
    requires p < |ls| && MarksAt(ls[p], o)
    ensures var i := Off(ls, p) + o; i + 1 < |t| && t[i] == '#' && t[i + 1] == '#'
  {
    CharAt(t, ls, p, o);
    CharAt(t, ls, p, o + 1);
  }

  lemma HeaderHeads(t: string, ls: seq<string>, p: nat, section: string, o: nat, c: nat)
    requires Laid(t, ls)
    requires p + 1 < |ls| && c <= |ls[p]| && HeaderCut(ls[p], section, o, c)
    ensures Heads(t, Off(ls, p) + o, Off(ls, p) + c, Off(ls, p + 1), section)
  {
    var i, a := Off(ls, p) + o, Off(ls, p) + c;
    assert t[i] == '#' && t[i + 1] == '#' by {
      MarksInLine(t, ls, p, o);
    }
    assert BlankBetween(t, i + 2, a) by {
      BlankUp(t, ls, p, o + 2, c);
    }
    NameInLine(t, ls, p, c, section);
  }

  lemma NameBelowHeads(t: string, ls: seq<string>, p: nat, o: nat, q: nat, c: nat, section: string)
    requires Laid(t, ls)
    requires p < q && q + 1 < |ls| && MarksAt(ls[p], o) && Blank(ls[p][o + 2..]) && NameCut(ls[q], section, c)
    requires forall m :: p < m < q ==> Blank(ls[m])
    ensures Heads(t, Off(ls, p) + o, Off(ls, q) + c, Off(ls, q + 1), section)
  {
    MarksInLine(t, ls, p, o);
    BlankAcross(t, ls, p, o + 2, q, c);
    NameInLine(t, ls, q, c, section);
    OffGrows(ls, p, q);
  }

  /** Where the lines have a heading, the text has one. */
  lemma LineHeads(t: string, ls: seq<string>, p: nat, section: string) returns (i: nat, a: nat)
    requires Laid(t, ls)
    requires p < |ls| && NameLine(ls, p, section).Some?
    ensures var q := NameLine(ls, p, section).value;
            && Off(ls, p) <= i < Off(ls, p) + |ls[p]| && Heads(t, i, a, Off(ls, q + 1), section)
  {
    if EndsInHeader(ls[p], section) && p + 1 < |ls| {
      var o, c := CutOf(ls[p], section);
      i, a := Off(ls, p) + o, Off(ls, p) + c;
      HeaderHeads(t, ls, p, section, o, c);
    } else {
      var q := NextText(ls, p + 1);
      var o := MarksOf(ls[p]);
      var c: nat :| c <= |ls[q]| && NameCut(ls[q], section, c);
      i, a := Off(ls, p) + o, Off(ls, q) + c;
      NameBelowHeads(t, ls, p, o, q, c, section);
    }
  }

  lemma CutOf(line: string, section: string) returns (o: nat, c: nat)
    requires EndsInHeader(line, section)
    ensures c <= |line| && o + 2 < c && HeaderCut(line, section, o, c)
  {
    o, c :| o <= |line| && c <= |line| && HeaderCut(line, section, o, c);
  }

  lemma MarksOf(line: string) returns (o: nat)
    requires EndsInMarks(line)
    ensures o + 1 < |line| && MarksAt(line, o) && Blank(line[o + 2..])
  {
    o :| o < |line| && MarksAt(line, o) && Blank(line[o + 2..]);
  }

  // ----- From the text back to the lines --------------------------------------------------

  lemma NoLineEndInside(t: string, ls: seq<string>, m: nat, i: nat)
    requires Laid(t, ls)
    requires OneLiners(ls) && m < |ls| && Off(ls, m) <= i < Off(ls, m) + |ls[m]|
    ensures i < |t| && t[i] != '\n'
  {
    var k := i - Off(ls, m);
    CharAt(t, ls, m, k);
    assert ls[m][k] in ls[m];
  }

  lemma MarksFromText(t: string, ls: seq<string>, p: nat, i: nat)
    requires Laid(t, ls)
    requires p < |ls| && Off(ls, p) <= i <= Off(ls, p) + |ls[p]|
    requires i + 1 < |t| && t[i] == '#' && t[i + 1] == '#'
    ensures MarksAt(ls[p], i - Off(ls, p)) && i + 1 < Off(ls, p) + |ls[p]|
  {
    LineEnd(t, ls, p);
    CharAt(t, ls, p, i - Off(ls, p));
    CharAt(t, ls, p, i + 1 - Off(ls, p));
  }

  lemma NameStaysInLine(t: string, ls: seq<string>, q: nat, a: nat, section: string)
    requires Laid(t, ls)
    requires q < |ls| && Off(ls, q) <= a <= Off(ls, q) + |ls[q]| && '\n' !in section
    requires a + |section| <= |t| && t[a..a + |section|] == section
    ensures a + |section| <= Off(ls, q) + |ls[q]|
  {
    var end := Off(ls, q) + |ls[q]|;
    LineEnd(t, ls, q);
    if q + 1 < |ls| && end < a + |section| {
      NoLineEndIn(t, a, section, end);
    }
  }

  lemma NameFits(t: string, ls: seq<string>, q: nat, a: nat, section: string)
    requires Laid(t, ls)
    requires q < |ls| && Off(ls, q) <= a <= Off(ls, q) + |ls[q]| && '\n' !in section
    requires a + |section| <= |t| && t[a..a + |section|] == section
    ensures var c := a - Off(ls, q); c + |section| <= |ls[q]| && ls[q][c..c + |section|] == section
  {
    NameStaysInLine(t, ls, q, a, section);
    assert LineAt(t, ls, q);
    SliceOfLine(t, Off(ls, q), ls[q], a, section);
  }

  lemma NoLineEndIn(t: string, a: nat, s: string, i: nat)
    requires a <= i < a + |s| <= |t| && t[a..a + |s|] == s && '\n' !in s
    ensures t[i] != '\n'
  {
    assert s[i - a] == t[i] && s[i - a] in s;
  }

  lemma SliceOfLine(t: string, o: nat, line: string, a: nat, part: string)
    requires o + |line| <= |t| && t[o..o + |line|] == line && o <= a && a + |part| <= o + |line|
    requires t[a..a + |part|] == part
    ensures line[a - o..a - o + |part|] == part
  {
    var k, n := a - o, |part|;
    forall j | 0 <= j < n ensures line[k..k + n][j] == part[j] {
      assert t[o..o + |line|][k + j] == t[a..a + n][j];
    }
  }

  lemma LineEndAfter(t: string, ls: seq<string>, q: nat, from: nat, b: nat)
    requires Laid(t, ls)
    requires OneLiners(ls) && q < |ls| && Off(ls, q) <= from < b <= |t| && t[b - 1] == '\n'
    ensures q + 1 < |ls| && Off(ls, q) + |ls[q]| <= b - 1
  {
    LineEnd(t, ls, q);
    if b - 1 < Off(ls, q) + |ls[q]| {
      NoLineEndInside(t, ls, q, b - 1);
    }
  }

  /** Where the name of a heading of the text stands among the lines. */
  lemma NameOfHead(t: string, ls: seq<string>, p: nat, i: nat, a: nat, b: nat, section: string) returns (q: nat, c: nat)
    requires Laid(t, ls)
    requires OneLiners(ls) && p < |ls| && Off(ls, p) <= i && '\n' !in section
    requires Heads(t, i, a, b, section)
    ensures p <= q && q + 1 < |ls| && a == Off(ls, q) + c && NameEnds(ls[q], c, section)
    ensures Off(ls, q) + |ls[q]| < b
  {
    LineEnd(t, ls, |ls| - 1);
    q := LineOf(ls, a, |ls| - 1);
    c := a - Off(ls, q);
    if q < p {
      OffGrows(ls, q, p);
    }
    NameFits(t, ls, q, a, section);
    LineEndAfter(t, ls, q, a + |section|, b);
    BlankDown(t, ls, q, c + |section|, |ls[q]|, a + |section|, b);
    assert ls[q][c + |section|..] == ls[q][c + |section|..|ls[q]|];
  }

  ghost predicate NameEnds(line: string, c: int, section: string) {
    0 <= c && c + |section| <= |line| && line[c..c + |section|] == section && Blank(line[c + |section|..])
  }

  lemma MarksAreNoHeader(line: string, section: string)
    requires Plain(section) && EndsInMarks(line)
    ensures !EndsInHeader(line, section)
  {
    var o :| 0 <= o < |line| && MarksAt(line, o) && Blank(line[o + 2..]);
    forall h, a ensures !HeaderCut(line, section, h, a) {
      MarksAfterName(line, section, o, h, a);
    }
  }

  lemma MarksAfterName(line: string, section: string, o: nat, h: int, a: int)
    requires Plain(section) && MarksAt(line, o) && Blank(line[o + 2..])
    ensures !HeaderCut(line, section, h, a)
  {
    if MarksAt(line, h) && h + 2 < a && a + |section| <= |line| && line[a..a + |section|] == section {
      var n := |section|;
      assert line[a + n - 1] == section[n - 1];
      BlankAt(line, o + 2, |line|);
      BlankAt(line, h + 2, a);
      BlankAt(line, a + n, |line|);
      assert line[o + 2..|line|] == line[o + 2..] && line[a + n..|line|] == line[a + n..];
      if n > 1 {
        assert line[a + n - 2] == section[n - 2] && !MarksAt(section, n - 2);
      }
    }
  }

  /** Where in its line a heading starts: whitespace follows the two hashes to the line's end, or
      to the name. */
  ghost predicate MarkColumn(line: string, o: int, section: string) {
    && MarksAt(line, o)
    && (Blank(line[o + 2..]) || exists c :: o + 2 < c <= |line| && NameEnds(line, c, section) && Blank(line[o + 2..c]))
  }

  /** A heading starts in one place of its line. */
  lemma OneColumn(line: string, o: nat, o': nat, section: string)
    requires Plain(section) && MarkColumn(line, o, section) && MarkColumn(line, o', section)
    ensures o == o'
  {
    if Blank(line[o + 2..]) && Blank(line[o' + 2..]) {
      LastMarks(line, o, o', |line|);
    } else if Blank(line[o + 2..]) {
      NameBeforeMarks(line, o, o', section);
    } else if Blank(line[o' + 2..]) {
      NameBeforeMarks(line, o', o, section);
    } else {
      var c :| o + 2 < c <= |line| && NameEnds(line, c, section) && Blank(line[o + 2..c]);
      var c' :| o' + 2 < c' <= |line| && NameEnds(line, c', section) && Blank(line[o' + 2..c']);
      SameName(line, c, c', section);
      LastMarks(line, o, o', c);
    }
  }

  lemma LastMarks(line: string, o: nat, o': nat, c: nat)
    requires MarksAt(line, o) && MarksAt(line, o') && o + 2 <= c <= |line| && o' + 2 <= c
    requires Blank(line[o + 2..c]) && Blank(line[o' + 2..c])
    ensures o == o'
  {
    BlankAt(line, o + 2, c);
    BlankAt(line, o' + 2, c);
    assert !IsSpace(line[o + 1]) && !IsSpace(line[o' + 1]);
  }

  lemma NameBeforeMarks(line: string, o: nat, o': nat, section: string)
    requires Plain(section) && MarksAt(line, o) && Blank(line[o + 2..])
    ensures !MarkColumn(line, o', section) || Blank(line[o' + 2..])
  {
    if MarkColumn(line, o', section) && !Blank(line[o' + 2..]) {
      var c :| o' + 2 < c <= |line| && NameEnds(line, c, section) && Blank(line[o' + 2..c]);
      MarksAfterName(line, section, o, o', c);
    }
  }

  lemma SameName(line: string, c: nat, c': nat, section: string)
    requires Plain(section) && NameEnds(line, c, section) && NameEnds(line, c', section)
    ensures c == c'
  {
    var n := |section|;
    BlankAt(line, c + n, |line|);
    BlankAt(line, c' + n, |line|);
    assert line[c + n..|line|] == line[c + n..] && line[c' + n..|line|] == line[c' + n..];
    assert line[c + n - 1] == section[n - 1] == line[c' + n - 1];
  }

  lemma HeadIsHeader(ls: seq<string>, p: nat, o: nat, c: nat, section: string)
    requires p + 1 < |ls| && MarksAt(ls[p], o) && o + 2 < c && NameEnds(ls[p], c, section) && Blank(ls[p][o + 2..c])
    ensures NameLine(ls, p, section) == Some(p)
  {
    assert HeaderCut(ls[p], section, o, c);
  }

  lemma HeadIsBelow(ls: seq<string>, p: nat, o: nat, q: nat, c: nat, section: string)
    requires p < q && q + 1 < |ls| && Plain(section) && MarksAt(ls[p], o) && Blank(ls[p][o + 2..])
    requires (forall m :: p < m < q ==> Blank(ls[m])) && c <= |ls[q]| && Blank(ls[q][..c]) && NameEnds(ls[q], c, section)
    ensures NameLine(ls, p, section) == Some(q)
  {
    assert EndsInMarks(ls[p]);
    MarksAreNoHeader(ls[p], section);
    assert NameCut(ls[q], section, c);
    assert ls[q][c] == section[0];
    var r := NextText(ls, p + 1);
    assert r >= q && !Blank(ls[q]);
  }

  /** Where the text has a heading, so have the lines. */
  lemma TextHeads(t: string, ls: seq<string>, p: nat, i: nat, a: nat, b: nat, section: string) returns (q: nat, c: nat)
    requires Laid(t, ls)
    requires OneLiners(ls) && Plain(section) && p < |ls| && Off(ls, p) <= i <= Off(ls, p) + |ls[p]|
    requires Heads(t, i, a, b, section)
    ensures NameLine(ls, p, section) == Some(q) && q + 1 < |ls| && a == Off(ls, q) + c && NameEnds(ls[q], c, section)
    ensures Off(ls, q) + |ls[q]| < b && MarkColumn(ls[p], i - Off(ls, p), section)
  {
    var o := i - Off(ls, p);
    MarksFromText(t, ls, p, i);
    q, c := NameOfHead(t, ls, p, i, a, b, section);
    if p == q {
      BlankDown(t, ls, p, o + 2, c, i + 2, a);
      HeadIsHeader(ls, p, o, c, section);
    } else {
      BlanksBelow(t, ls, p, o, q, c, i, a);
      HeadIsBelow(ls, p, o, q, c, section);
    }
  }

  lemma BlanksBelow(t: string, ls: seq<string>, p: nat, o: nat, q: nat, c: nat, i: nat, a: nat)
    requires Laid(t, ls)
    requires p < q < |ls| && i == Off(ls, p) + o && a == Off(ls, q) + c && o + 2 <= |ls[p]| && c <= |ls[q]|
    requires BlankBetween(t, i + 2, a)
    ensures Blank(ls[p][o + 2..]) && Blank(ls[q][..c]) && forall m :: p < m < q ==> Blank(ls[m])
  {
    OffGrows(ls, p, q);
    BlankDown(t, ls, p, o + 2, |ls[p]|, i + 2, a);
    BlankDown(t, ls, q, 0, c, i + 2, a);
    assert ls[p][o + 2..|ls[p]|] == ls[p][o + 2..] && ls[q][0..c] == ls[q][..c];
    forall m | p < m < q ensures Blank(ls[m]) {
      OffGrows(ls, p, m);
      OffGrows(ls, m, q);
      BlankDown(t, ls, m, 0, |ls[m]|, i + 2, a);
      assert ls[m][0..|ls[m]|] == ls[m];
    }
  }

  // ----- Where the heading ends -----------------------------------------------------------

  lemma BlankUpToBody(ls: seq<string>, q: nat)
    requires q + 1 < |ls|
    ensures var b := BodyStart(ls, q);
            && (forall m :: q < m < b ==> Blank(ls[m]))
            && (b + 1 < |ls| ==> !Blank(ls[b]))
  {
    var r := NextText(ls, q + 1);
  }

  /** The heading takes every line end it can: it ends where the body starts. */
  lemma HeadingReaches(t: string, ls: seq<string>, i: nat, a: nat, b: nat, section: string, q: nat, c: nat)
    requires Laid(t, ls)
    requires q + 1 < |ls| && c <= |ls[q]| && a == Off(ls, q) + c && NameEnds(ls[q], c, section)
    requires Heads(t, i, a, b, section)
    ensures Heads(t, i, a, Off(ls, BodyStart(ls, q)), section)
  {
    var start := BodyStart(ls, q);
    BlankUpToBody(ls, q);
    BlankAcross(t, ls, q, c + |section|, start, 0);
    OffGrows(ls, q, start);
    LineEnd(t, ls, start - 1);
    LineEnd(t, ls, start);
  }

  lemma HeadingStops(t: string, ls: seq<string>, i: nat, a: nat, section: string, q: nat, c: nat, b: nat)
    requires Laid(t, ls)
    requires OneLiners(ls) && q + 1 < |ls| && c <= |ls[q]| && a == Off(ls, q) + c && NameEnds(ls[q], c, section)
    requires b > Off(ls, BodyStart(ls, q))
    ensures !Heads(t, i, a, b, section)
  {
    var start := BodyStart(ls, q);
    assert ls[start][0..|ls[start]|] == ls[start];
    BlankUpToBody(ls, q);
    OffGrows(ls, q, start);
    if Heads(t, i, a, b, section) {
      LineEndAfter(t, ls, start, Off(ls, start), b);
      BlankDown(t, ls, start, 0, |ls[start]|, a + |section|, b);
    }
  }

  // ----- Where the body ends --------------------------------------------------------------

  /** The end of the text, or a line end before a line that starts with two hashes and
      whitespace. */
  ghost predicate EndsBody(t: string, x: int) {
    || x == |t|
    || (0 <= x && x + 3 < |t| && t[x] == '\n' && t[x + 1] == '#' && t[x + 2] == '#' && IsSpace(t[x + 3]))
  }

  ghost predicate MarksLine(t: string, o: int) {
    0 <= o && o + 2 < |t| && t[o] == '#' && t[o + 1] == '#' && IsSpace(t[o + 2])
  }

  lemma LineMarks(t: string, o: nat, line: string, last: bool)
    requires o + |line| <= |t| && t[o..o + |line|] == line
    requires if last then o + |line| == |t| else o + |line| < |t| && t[o + |line|] == '\n'
    ensures MarksLine(t, o) <==> MarksAt(line, 0) && if |line| > 2 then IsSpace(line[2]) else !last
  {
    assert forall k :: 0 <= k < |line| ==> t[o + k] == line[k];
    assert IsSpace('\n');
    if |line| > 2 {
      assert t[o] == line[0] && t[o + 1] == line[1] && t[o + 2] == line[2];
    } else if |line| == 2 {
      assert t[o] == line[0] && t[o + 1] == line[1];
    } else if |line| == 1 {
      assert t[o] == line[0];
    }
  }

  lemma HeadingMarks(t: string, ls: seq<string>, m: nat)
    requires Laid(t, ls) && m < |ls|
    ensures MarksLine(t, Off(ls, m)) <==> IsHeading(ls, m)
  {
    assert LineAt(t, ls, m);
    LineEnd(t, ls, m);
    LineMarks(t, Off(ls, m), ls[m], m + 1 == |ls|);
  }

  lemma HeadingEndsBody(t: string, ls: seq<string>, m: nat)
    requires Laid(t, ls) && m + 1 < |ls|
    ensures EndsBody(t, Off(ls, m) + |ls[m]|) <==> IsHeading(ls, m + 1)
  {
    LineEnd(t, ls, m);
    HeadingMarks(t, ls, m + 1);
  }

  /** The line end that ends the body at `y` is that of a line above a heading. */
  lemma BodyEndLine(t: string, ls: seq<string>, y: nat) returns (m: nat)
    requires Laid(t, ls)
    requires OneLiners(ls) && y < |t| && EndsBody(t, y)
    ensures m + 1 < |ls| && y == Off(ls, m) + |ls[m]| && IsHeading(ls, m + 1)
  {
    LineEnd(t, ls, |ls| - 1);
    m := LineOf(ls, y, |ls| - 1);
    if y < Off(ls, m) + |ls[m]| {
      NoLineEndInside(t, ls, m, y);
    }
    LineEnd(t, ls, m);
    HeadingEndsBody(t, ls, m);
  }

  lemma BodyReaches(t: string, ls: seq<string>, b: nat, e: nat)
    requires Laid(t, ls)
    requires b < e <= |ls| && (e < |ls| ==> IsHeading(ls, e))
    ensures Off(ls, b) <= Off(ls, e) - 1 <= |t| && EndsBody(t, Off(ls, e) - 1)
  {
    OffGrows(ls, b, e);
    LineEnd(t, ls, e - 1);
    if e < |ls| {
      HeadingEndsBody(t, ls, e - 1);
    }
  }

  lemma BodyStopsNowhere(t: string, ls: seq<string>, b: nat, e: nat, y: nat)
    requires Laid(t, ls)
    requires OneLiners(ls) && b < e <= |ls| && forall m :: b < m < e ==> !IsHeading(ls, m)
    requires Off(ls, b) <= y < Off(ls, e) - 1
    ensures !EndsBody(t, y)
  {
    LineEnd(t, ls, e - 1);
    if EndsBody(t, y) {
      var m := BodyEndLine(t, ls, y);
      if m < b {
        OffGrows(ls, m, b);
      } else if e <= m {
        OffGrows(ls, e, m + 1);
      }
    }
  }

  lemma {:induction false} BodyText(t: string, ls: seq<string>, b: nat, e: nat)
    requires Laid(t, ls)
    requires b < e <= |ls|
    ensures Off(ls, b) <= Off(ls, e) - 1 <= |t| && Text(ls[b..e]) == t[Off(ls, b)..Off(ls, e) - 1]
    decreases e - b
  {
    LinePart(t, ls, b);
    OffGrows(ls, b, e);
    LineEnd(t, ls, e - 1);
    if b + 1 < e {
      BodyText(t, ls, b + 1, e);
      LinesFrom(ls, b, e);
      SliceOfThree(t, Off(ls, b), ls[b], Off(ls, e) - 1);
    } else {
      assert ls[b..e] == [ls[b]];
    }
  }

  lemma LinePart(t: string, ls: seq<string>, b: nat)
    requires Laid(t, ls) && b < |ls|
    ensures Off(ls, b) + |ls[b]| <= |t| && t[Off(ls, b)..Off(ls, b) + |ls[b]|] == ls[b]
    ensures b + 1 < |ls| ==> Off(ls, b) + |ls[b]| < |t| && t[Off(ls, b) + |ls[b]|] == '\n'
  {
    assert LineAt(t, ls, b);
  }

  lemma LinesFrom(ls: seq<string>, b: nat, e: nat)
    requires b + 1 < e <= |ls|
    ensures Text(ls[b..e]) == ls[b] + "\n" + Text(ls[b + 1..e])
  {
    assert ls[b..e] == [ls[b]] + ls[b + 1..e];
    TextOfCons(ls[b], ls[b + 1..e]);
  }

  lemma SliceOfThree(t: string, o: nat, line: string, x: nat)
    requires o + |line| + 1 <= x <= |t| && t[o..o + |line|] == line && t[o + |line|] == '\n'
    ensures line + "\n" + t[o + |line| + 1..x] == t[o..x]
  {
    assert t[o..x] == t[o..o + |line|] + [t[o + |line|]] + t[o + |line| + 1..x];
  }

  // ----- The pattern ----------------------------------------------------------------------

  /** The pattern's first match from `start` on: its heading starts at `i`, names the section at `a`
      and ends, as late as it can, at `j`; its body ends, as early as it can, at `x`. */
  ghost predicate IsMatch(t: string, start: int, section: string, i: int, a: int, j: int, x: int) {
    && start <= i && Heads(t, i, a, j, section)
    && (forall h :: start <= h < i ==> !HeadsAt(t, h, section))
    && (forall b :: b > j ==> !Heads(t, i, a, b, section))
    && j <= x <= |t| && EndsBody(t, x) && forall y :: j <= y < x ==> !EndsBody(t, y)
  }

  lemma LeastHead(t: string, start: int, h: int, section: string) returns (i: int)
    requires start <= h && HeadsAt(t, h, section)
    ensures start <= i <= h && HeadsAt(t, i, section)
    ensures forall k :: start <= k < i ==> !HeadsAt(t, k, section)
    decreases h - start
  {
    if k :| start <= k < h && HeadsAt(t, k, section) {
      i := LeastHead(t, start, k, section);
    } else {
      i := h;
    }
  }

  /** The line a heading of the text starts in is one the line search sees. */
  lemma HeadLine(t: string, ls: seq<string>, from: nat, i: nat, section: string) returns (p: nat)
    requires Laid(t, ls)
    requires OneLiners(ls) && Plain(section) && from < |ls| && Off(ls, from) <= i && HeadsAt(t, i, section)
    ensures from <= p < |ls| && Off(ls, p) <= i <= Off(ls, p) + |ls[p]| && NameLine(ls, p, section).Some?
  {
    var a, b :| Heads(t, i, a, b, section);
    LineEnd(t, ls, |ls| - 1);
    p := LineOf(ls, i, |ls| - 1);
    if p < from {
      OffGrows(ls, p, from);
    }
    var q, c := TextHeads(t, ls, p, i, a, b, section);
  }

  /** The first heading of the text, in the line the line search finds. */
  lemma FirstHead(t: string, ls: seq<string>, from: nat, section: string) returns (i: nat)
    requires Laid(t, ls)
    requires OneLiners(ls) && Plain(section) && from < |ls| && FindFrom(ls, from, section).Some?
    ensures var p := FindFrom(ls, from, section).value;
            Off(ls, from) <= i && Off(ls, p) <= i <= Off(ls, p) + |ls[p]| && HeadsAt(t, i, section)
    ensures forall h :: Off(ls, from) <= h < i ==> !HeadsAt(t, h, section)
  {
    var p := FindFrom(ls, from, section).value;
    var h, a := LineHeads(t, ls, p, section);
    if from < p {
      OffGrows(ls, from, p);
    }
    i := LeastHead(t, Off(ls, from), h, section);
    var p' := HeadLine(t, ls, from, i, section);
    if p < p' {
      OffGrows(ls, p, p');
    }
  }

  lemma SectionMatches(t: string, ls: seq<string>, from: nat, section: string) returns (i: nat, a: nat)
    requires Laid(t, ls)
    requires OneLiners(ls) && Plain(section) && from < |ls| && SectionFrom(ls, from, section).Some?
    ensures var s := SectionFrom(ls, from, section).value;
            IsMatch(t, Off(ls, from), section, i, a, Off(ls, s.start), Off(ls, s.end) - 1)
  {
    var s := SectionFrom(ls, from, section).value;
    i := FirstHead(t, ls, from, section);
    var a', b :| Heads(t, i, a', b, section);
    var q, c := TextHeads(t, ls, FindFrom(ls, from, section).value, i, a', b, section);
    a := a';
    HeadingReaches(t, ls, i, a, b, section, q, c);
    forall k: int | k > Off(ls, s.start) ensures !Heads(t, i, a, k, section) {
      HeadingStops(t, ls, i, a, section, q, c, k);
    }
    BodyReaches(t, ls, s.start, s.end);
    forall y: int | Off(ls, s.start) <= y < Off(ls, s.end) - 1 ensures !EndsBody(t, y) {
      BodyStopsNowhere(t, ls, s.start, s.end, y);
    }
  }

  /** The section is the pattern's first match from the given line on, body and all. */
  ghost predicate Matched(t: string, ls: seq<string>, from: nat, section: string, s: Section)
    requires from <= |ls| && s.start <= s.end <= |ls|
  {
    var j, x := Off(ls, s.start), Off(ls, s.end) - 1;
    && (exists i, a :: IsMatch(t, Off(ls, from), section, i, a, j, x))
    && j <= x <= |t| && Text(ls[s.start..s.end]) == t[j..x]
  }

  lemma FoundIsMatched(t: string, ls: seq<string>, from: nat, section: string, s: Section)
    requires Laid(t, ls) && OneLiners(ls) && Plain(section) && from < |ls|
    requires SectionFrom(ls, from, section) == Some(s)
    ensures Matched(t, ls, from, section, s)
  {
    var i, a := SectionMatches(t, ls, from, section);
    BodyText(t, ls, s.start, s.end);
  }

  lemma NotFoundIsUnmatched(t: string, ls: seq<string>, from: nat, section: string)
    requires Laid(t, ls) && OneLiners(ls) && Plain(section) && from < |ls|
    requires SectionFrom(ls, from, section).None?
    ensures forall i :: Off(ls, from) <= i ==> !HeadsAt(t, i, section)
  {
    forall i: int | Off(ls, from) <= i ensures !HeadsAt(t, i, section) {
      if HeadsAt(t, i, section) {
        var p := HeadLine(t, ls, from, i, section);
      }
    }
  }

  /** Finding a section by lines is matching the pattern on the text: nothing is found if and only if
      nothing matches, and what is found is the first match, body and all. */
  lemma SectionIsMatch(ls: seq<string>, from: nat, section: string)
    requires OneLiners(ls) && Plain(section) && from < |ls|
    ensures var found := SectionFrom(ls, from, section);
            if found.None? then forall i :: Off(ls, from) <= i ==> !HeadsAt(Text(ls), i, section)
            else Matched(Text(ls), ls, from, section, found.value)
  {
    TextIsLaid(ls);
    if SectionFrom(ls, from, section).None? {
      NotFoundIsUnmatched(Text(ls), ls, from, section);
    } else {
      FoundIsMatched(Text(ls), ls, from, section, SectionFrom(ls, from, section).value);
    }
  }

  /** A heading names its section in one place. */
  lemma OneName(t: string, i: int, a: int, b: int, a': int, b': int, section: string)
    requires Plain(section) && Heads(t, i, a, b, section) && Heads(t, i, a', b', section)
    ensures a == a'
  {
    assert t[a] == section[0] && t[a'] == section[0];
  }

  // ----- With code fences -----------------------------------------------------------------

  lemma {:induction false} SameOff(ls: seq<string>, masked: seq<string>, m: nat)
    requires m <= |ls| == |masked| && forall k :: 0 <= k < |ls| ==> |masked[k]| == |ls[k]|
    ensures Off(masked, m) == Off(ls, m)
  {
    if m > 0 {
      SameOff(ls, masked, m - 1);
    }
  }

  lemma MaskedLines(ls: seq<string>)
    requires OneLiners(ls)
    ensures OneLiners(Masked(ls, false)) && forall m :: 0 <= m < |ls| ==> |Masked(ls, false)[m]| == |ls[m]|
  {
    forall m | 0 <= m < |ls| ensures '\n' !in Masked(ls, false)[m] && |Masked(ls, false)[m]| == |ls[m]| {
      MaskedAt(ls, m);
      assert forall k :: 0 <= k < |Spaces(|ls[m]|)| ==> Spaces(|ls[m]|)[k] == ' ';
    }
  }

  /** A heading of the text starts in this column of that line. */
  ghost predicate StartsAtColumn(t: string, line: string, off: nat, i: nat, section: string) {
    off <= i <= off + |line| && MarkColumn(line, i - off, section)
  }

  lemma ColumnOf(t: string, ls: seq<string>, p: nat, i: nat, section: string)
    requires Laid(t, ls) && OneLiners(ls) && Plain(section) && p < |ls|
    requires Off(ls, p) <= i <= Off(ls, p) + |ls[p]| && HeadsAt(t, i, section)
    ensures StartsAtColumn(t, ls[p], Off(ls, p), i, section)
  {
    var a, b :| Heads(t, i, a, b, section);
    var q, c := TextHeads(t, ls, p, i, a, b, section);
  }

  /** In two texts with one line in the same place, a heading that starts there starts in the same
      place. */
  lemma SameStart(t: string, t': string, line: string, off: nat, i: nat, i': nat, section: string)
    requires Plain(section) && StartsAtColumn(t, line, off, i, section) && StartsAtColumn(t', line, off, i', section)
    ensures i == i'
  {
    OneColumn(line, i - off, i' - off, section);
  }

  /** The first place at which the masked text has a heading of the section. */
  ghost predicate MaskedStart(masked: string, i: int, section: string) {
    0 <= i && HeadsAt(masked, i, section) && forall h :: 0 <= h < i ==> !HeadsAt(masked, h, section)
  }

  /** The search in the text from where the masked one found a heading. */
  lemma SearchFromMasked(t: string, ls: seq<string>, t': string, ls': seq<string>, p: nat, section: string)
    returns (i: nat, a: nat)
    requires Laid(t, ls) && Laid(t', ls') && OneLiners(ls) && OneLiners(ls') && Plain(section)
    requires p < |ls| == |ls'| && ls'[p] == ls[p] && Off(ls', p) == Off(ls, p)
    requires FindFrom(ls', 0, section) == Some(p) && SectionFrom(ls, p, section).Some? && NameLine(ls, p, section).Some?
    ensures var s := SectionFrom(ls, p, section).value;
            && MaskedStart(t', i, section)
            && IsMatch(t, i, section, i, a, Off(ls, s.start), Off(ls, s.end) - 1)
  {
    var start := FirstHead(t', ls', 0, section);
    i, a := SectionMatches(t, ls, p, section);
    assert HeadsAt(t, i, section);
    StartsInLine(t, ls, p, i, section);
    ColumnOf(t, ls, p, i, section);
    ColumnOf(t', ls', p, start, section);
    SameStart(t, t', ls[p], Off(ls, p), i, start, section);
  }

  lemma StartsInLine(t: string, ls: seq<string>, p: nat, i: nat, section: string)
    requires Laid(t, ls) && OneLiners(ls) && Plain(section) && p < |ls| && NameLine(ls, p, section).Some?
    requires Off(ls, p) <= i && HeadsAt(t, i, section) && forall h :: Off(ls, p) <= h < i ==> !HeadsAt(t, h, section)
    ensures i <= Off(ls, p) + |ls[p]|
  {
    var h, a := LineHeads(t, ls, p, section);
    assert HeadsAt(t, h, section);
  }

  /** The pattern, looked for in the text with its fences masked, and from where it is found there, in
      the text itself. */
  ghost predicate Searched(masked: string, t: string, section: string, j: int, x: int) {
    exists i, a :: MaskedStart(masked, i, section) && IsMatch(t, i, section, i, a, j, x)
  }

  lemma MaskedHeadingLine(ls: seq<string>, section: string, p: nat)
    requires OneLiners(ls) && Plain(section) && !IsFence(section) && FindFrom(Masked(ls, false), 0, section) == Some(p)
    ensures p < |ls| && Masked(ls, false)[p] == ls[p] && Off(Masked(ls, false), p) == Off(ls, p)
    ensures NameLine(ls, p, section).Some?
  {
    var masked := Masked(ls, false);
    MaskedLines(ls);
    SameOff(ls, masked, p);
    MaskedReads(ls);
    HeadingLineNotBlank(masked, p, section);
    MaskedHeadingIsReal(ls, masked, p, section);
  }

  lemma FoundIsSearched(t: string, ls: seq<string>, t': string, ls': seq<string>, p: nat, section: string)
    requires Laid(t, ls) && Laid(t', ls') && OneLiners(ls) && OneLiners(ls') && Plain(section)
    requires p < |ls| == |ls'| && ls'[p] == ls[p] && Off(ls', p) == Off(ls, p)
    requires FindFrom(ls', 0, section) == Some(p) && SectionFrom(ls, p, section).Some? && NameLine(ls, p, section).Some?
    ensures var s := SectionFrom(ls, p, section).value;
            Searched(t', t, section, Off(ls, s.start), Off(ls, s.end) - 1)
  {
    var i, a := SearchFromMasked(t, ls, t', ls', p, section);
  }

  lemma HeadingHasSection(ls: seq<string>, p: nat, section: string)
    requires p < |ls| && NameLine(ls, p, section).Some?
    ensures SectionFrom(ls, p, section).Some?
  {
  }

  /** What the search finds, given the text and its masked form. */
  ghost predicate RightlySearched(t: string, masked: string, ls: seq<string>, section: string) {
    var found := FindSection(ls, section);
    if found.None? then forall i :: 0 <= i ==> !HeadsAt(masked, i, section)
    else Searched(masked, t, section, Off(ls, found.value.start), Off(ls, found.value.end) - 1)
  }

  lemma SearchIsRight(t: string, masked: string, ls: seq<string>, section: string)
    requires Laid(t, ls) && Laid(masked, Masked(ls, false))
    requires OneLiners(ls) && Plain(section) && !IsFence(section)
    ensures RightlySearched(t, masked, ls, section)
  {
    var p := FindFrom(Masked(ls, false), 0, section);
    MaskedLines(ls);
    if p.Some? {
      MaskedHeadingLine(ls, section, p.value);
      HeadingHasSection(ls, p.value, section);
      FoundIsSearched(t, ls, masked, Masked(ls, false), p.value, section);
    } else {
      NotFoundIsUnmatched(masked, Masked(ls, false), 0, section);
    }
  }

  /** The whole search, fences and all: nothing is found if and only if the masked text has no heading
      of the section, and what is found is the pattern's match in the text itself. */
  lemma FindSectionIsMatch(ls: seq<string>, section: string)
    requires OneLiners(ls) && Plain(section) && !IsFence(section)
    ensures RightlySearched(Text(ls), Text(Masked(ls, false)), ls, section)
  {
    TextIsLaid(ls);
    TextIsLaid(Masked(ls, false));
    SearchIsRight(Text(ls), Text(Masked(ls, false)), ls, section);
  }
}
