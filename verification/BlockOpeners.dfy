/** Which block openers survive their own removal: the pass over HTML block openers is no fixpoint,
    and this is exactly where it is not. */
module BlockOpeners {
  import opened BoundedText

  predicate IsLetterLike(c: char) {
    'a' <= Fold(c) <= 'z'
  }

  /** What word characters are stays open, as long as letters are and an opener's marks are not. */
  ghost predicate WordClass(isWord: char -> bool) {
    && !isWord('<') && !isWord('!') && !isWord('?') && !isWord('/')
    && forall c :: IsLetterLike(c) ==> isWord(c)
  }

  predicate IsTagName(name: string) {
    name == "script" || name == "pre" || name == "style" || name == "textarea"
  }

  predicate StartsSomeTag(s: string, isWord: char -> bool) {
    StartsTag(s, "script", isWord) || StartsTag(s, "pre", isWord)
    || StartsTag(s, "style", isWord) || StartsTag(s, "textarea", isWord)
  }

  /** A `<` that is removed. */
  predicate Goes(s: string, i: nat, isWord: char -> bool) {
    i < |s| && s[i] == '<' && OpensBlock(s[i + 1..], isWord)
  }

  /** A tag whose end is not lost: no removed `<` has a letter after it there. */
  predicate StaysTag(s: string, name: string, isWord: char -> bool) {
    StartsTag(s, name, isWord) && !(Goes(s, |name|, isWord) && IsLetterLike(s[|name| + 1..][0]))
  }

  predicate StaysSomeTag(s: string, isWord: char -> bool) {
    StaysTag(s, "script", isWord) || StaysTag(s, "pre", isWord)
    || StaysTag(s, "style", isWord) || StaysTag(s, "textarea", isWord)
  }

  /** A comment, an instruction, a CDATA section or a declaration: no removal undoes it. */
  predicate OpensForGood(s: string) {
    && s != ""
    && (|| StartsFolded(s, "!--") || s[0] == '?' || StartsFolded(s, "![cdata[")
        || (s[0] == '!' && |s| > 1 && IsLetterLike(s[1])))
  }

  /** What follows a `<` opens a block, and still does once the openers in it are gone. */
  predicate StaysOpener(s: string, isWord: char -> bool) {
    OpensForGood(s) || StaysSomeTag(s, isWord) || (s != "" && s[0] == '/' && StaysSomeTag(s[1..], isWord))
  }

  /** What follows a `<` opens nothing, and does once the openers in it are gone: another `<` goes
      and leaves its own opener here, or stands between `!` or `/` and a tag. */
  predicate Revives(s: string, isWord: char -> bool) {
    && s != ""
    && (|| (Goes(s, 0, isWord) && StaysOpener(s[1..], isWord))
        || (s[0] == '!' && Goes(s, 1, isWord) && IsLetterLike(s[2..][0]))
        || (s[0] == '/' && Goes(s, 1, isWord) && StaysSomeTag(s[2..], isWord)))
  }

  // ----- What an opener starts with -------------------------------------------------------

  lemma OpenerStart(s: string, isWord: char -> bool)
    requires OpensBlock(s, isWord)
    ensures s != "" && s[0] != '<' && (s[0] in {'!', '?', '/'} || IsLetterLike(s[0]))
    ensures IsLetterLike(s[0]) <==> StartsSomeTag(s, isWord)
  {
    assert Fold('<') == '<' && Fold('!') == '!' && Fold('?') == '?' && Fold('/') == '/';
  }

  lemma KeptStep(s: string, isWord: char -> bool)
    requires s != "" && !Goes(s, 0, isWord)
    ensures WithoutBlockOpeners(s, isWord) == [s[0]] + WithoutBlockOpeners(s[1..], isWord)
  {
  }

  lemma GoneStep(s: string, isWord: char -> bool)
    requires Goes(s, 0, isWord)
    ensures WithoutBlockOpeners(s, isWord) == WithoutBlockOpeners(s[1..], isWord)
    ensures |s| > 1 && s[1] == s[1..][0] != '<'
    ensures WithoutBlockOpeners(s, isWord) == [s[1]] + WithoutBlockOpeners(s[2..], isWord)
  {
    OpenerStart(s[1..], isWord);
    KeptStep(s[1..], isWord);
    assert s[1..][1..] == s[2..];
  }

  /** Text without `<` comes through as it is. */
  lemma {:induction false} Through(s: string, k: nat, isWord: char -> bool)
    requires k <= |s| && forall i :: 0 <= i < k ==> s[i] != '<'
    ensures WithoutBlockOpeners(s, isWord) == s[..k] + WithoutBlockOpeners(s[k..], isWord)
  {
    if k == 0 {
      assert s[..0] == "" && s[0..] == s;
    } else {
      Through(s, k - 1, isWord);
      KeptAt(s, k - 1, isWord);
      MovedBoundary(s, k, WithoutBlockOpeners(s[k..], isWord));
    }
  }

  lemma MovedBoundary(s: string, k: nat, rest: string)
    requires 0 < k <= |s|
    ensures s[..k - 1] + ([s[k - 1]] + rest) == s[..k] + rest
  {
  }

  lemma KeptAt(s: string, i: nat, isWord: char -> bool)
    requires i < |s| && s[i] != '<'
    ensures WithoutBlockOpeners(s[i..], isWord) == [s[i]] + WithoutBlockOpeners(s[i + 1..], isWord)
  {
    KeptStep(s[i..], isWord);
    assert s[i..][1..] == s[i + 1..];
  }

  // ----- Words that are read through ------------------------------------------------------

  /** No opener starts inside the word and agrees with it from there. */
  ghost predicate Robust(word: string) {
    && word != ""
    && (forall k :: 0 <= k < |word| ==> word[k] != '<')
    && (forall k :: 1 <= k < |word| ==> word[k] !in {'!', '?', '/'})
    && (forall k :: 1 <= k < |word| - 1 ==>
          && !(word[k] == 's' && (word[k + 1] == 'c' || word[k + 1] == 't'))
          && !(word[k] == 'p' && word[k + 1] == 'r')
          && !(word[k] == 't' && word[k + 1] == 'e'))
  }

  lemma TheWordsAreRobust(name: string)
    requires IsTagName(name) || name == "!--" || name == "![cdata["
    ensures Robust(name)
  {
  }

  lemma SecondLetter(s: string, isWord: char -> bool)
    requires StartsSomeTag(s, isWord)
    ensures |s| > 1 && s[1] != '<' && IsLetterLike(s[1])
    ensures || (Fold(s[0]) == 's' && (Fold(s[1]) == 'c' || Fold(s[1]) == 't'))
            || (Fold(s[0]) == 'p' && Fold(s[1]) == 'r') || (Fold(s[0]) == 't' && Fold(s[1]) == 'e')
  {
    assert Fold('<') == '<';
  }

  /** The word, read from the result, stands in the text itself: a removed `<` inside it would
      bring the first two letters of a tag, which no word has there. */
  lemma {:induction false} WordThrough(s: string, word: string, k: nat, isWord: char -> bool)
    requires WordClass(isWord) && Robust(word) && 1 <= k <= |word| && k <= |s|
    requires forall i :: 0 <= i < k ==> s[i] != '<' && Fold(s[i]) == word[i]
    requires var out := WithoutBlockOpeners(s, isWord);
             && StartsFolded(out, word)
             && (IsLetterLike(word[|word| - 1]) ==> |out| == |word| || !isWord(out[|word|]))
    ensures StartsFolded(s, word)
    decreases |word| - k
  {
    if k < |word| {
      var out := WithoutBlockOpeners(s, isWord);
      Through(s, k, isWord);
      var rest := s[k..];
      assert out == s[..k] + WithoutBlockOpeners(rest, isWord) && out[k] == WithoutBlockOpeners(rest, isWord)[0];
      if Goes(rest, 0, isWord) {
        NoTagInside(s, word, k, out, isWord);
      } else {
        KeptStep(rest, isWord);
        assert out[k] == s[k];
        assert Fold('<') == '<';
        WordThrough(s, word, k + 1, isWord);
      }
    }
  }

  lemma NoTagInside(s: string, word: string, k: nat, out: string, isWord: char -> bool)
    requires WordClass(isWord) && Robust(word) && 1 <= k < |word| && k < |s| && Goes(s[k..], 0, isWord)
    requires out == s[..k] + WithoutBlockOpeners(s[k..], isWord)
    requires StartsFolded(out, word)
    ensures IsLetterLike(word[|word| - 1]) && |out| > |word| && isWord(out[|word|])
  {
    var rest := s[k..];
    GoneStep(rest, isWord);
    OpenerStart(rest[1..], isWord);
    assert out[k] == rest[1];
    assert Fold('!') == '!' && Fold('?') == '?' && Fold('/') == '/';
    assert Fold(rest[1]) == word[k];
    FoldedMarks(rest[1]);
    SecondLetter(rest[1..], isWord);
    KeptStep(rest[2..], isWord);
    assert rest[1..][1] == rest[2] == rest[2..][0];
    assert out[k + 1] == rest[2];
  }

  lemma FoldedMarks(c: char)
    ensures Fold(c) in {'!', '?', '/', '<'} ==> Fold(c) == c
    ensures c in {'!', '?', '/', '<'} ==> Fold(c) == c && !IsLetterLike(c)
  {
  }

  lemma FoldedWordHasNoAngle(s: string, word: string)
    requires StartsFolded(s, word) && Robust(word)
    ensures forall i :: 0 <= i < |word| ==> s[i] != '<'
  {
    assert Fold('<') == '<';
  }

  /** The first character of a result, given that of the text. */
  lemma FirstOf(s: string, isWord: char -> bool)
    requires s != ""
    ensures WithoutBlockOpeners(s, isWord) != ""
    ensures WithoutBlockOpeners(s, isWord)[0] == if Goes(s, 0, isWord) then s[1..][0] else s[0]
    ensures Goes(s, 0, isWord) ==> s[1..][0] in {'!', '?', '/'} || IsLetterLike(s[1..][0])
  {
    if Goes(s, 0, isWord) {
      GoneStep(s, isWord);
      OpenerStart(s[1..], isWord);
    } else {
      KeptStep(s, isWord);
    }
  }

  /** Where a word ends in the result, given that it stands in the text. */
  lemma EndThrough(s: string, word: string, isWord: char -> bool)
    requires WordClass(isWord) && StartsFolded(s, word) && Robust(word)
    ensures var out := WithoutBlockOpeners(s, isWord);
            && StartsFolded(out, word)
            && ((|out| == |word| || !isWord(out[|word|]))
                <==> (|s| == |word| || !isWord(s[|word|])) && !(Goes(s, |word|, isWord) && IsLetterLike(s[|word| + 1..][0])))
  {
    var n := |word|;
    var rest := s[n..];
    var tail := WithoutBlockOpeners(rest, isWord);
    FoldedWordHasNoAngle(s, word);
    Through(s, n, isWord);
    PrefixIsFolded(s, word, tail);
    if rest != "" {
      FirstOf(rest, isWord);
      assert rest[0] == s[n] && rest[1..] == s[n + 1..];
      assert (s[..n] + tail)[n] == tail[0];
      assert Goes(s, n, isWord) == Goes(rest, 0, isWord);
    } else {
      assert tail == "";
    }
  }

  lemma PrefixIsFolded(s: string, word: string, tail: string)
    requires StartsFolded(s, word)
    ensures StartsFolded(s[..|word|] + tail, word)
  {
    assert forall i :: 0 <= i < |word| ==> (s[..|word|] + tail)[i] == s[i];
  }

  lemma WordFromResult(s: string, word: string, isWord: char -> bool)
    requires WordClass(isWord) && Robust(word) && s != "" && s[0] != '<'
    requires var out := WithoutBlockOpeners(s, isWord);
             && StartsFolded(out, word)
             && (IsLetterLike(word[|word| - 1]) ==> |out| == |word| || !isWord(out[|word|]))
    ensures StartsFolded(s, word)
  {
    FirstOf(s, isWord);
    WordThrough(s, word, 1, isWord);
  }

  lemma TagThrough(s: string, name: string, isWord: char -> bool)
    requires WordClass(isWord) && IsTagName(name) && s != "" && s[0] != '<'
    ensures StartsTag(WithoutBlockOpeners(s, isWord), name, isWord) <==> StaysTag(s, name, isWord)
  {
    TheWordsAreRobust(name);
    if StartsFolded(s, name) {
      EndThrough(s, name, isWord);
    } else if StartsTag(WithoutBlockOpeners(s, isWord), name, isWord) {
      WordFromResult(s, name, isWord);
    }
  }

  lemma SomeTagThrough(s: string, isWord: char -> bool)
    requires WordClass(isWord) && s != "" && s[0] != '<'
    ensures StartsSomeTag(WithoutBlockOpeners(s, isWord), isWord) <==> StaysSomeTag(s, isWord)
  {
    TagThrough(s, "script", isWord);
    TagThrough(s, "pre", isWord);
    TagThrough(s, "style", isWord);
    TagThrough(s, "textarea", isWord);
  }

  lemma MarkThrough(s: string, word: string, isWord: char -> bool)
    requires WordClass(isWord) && Robust(word) && !IsLetterLike(word[|word| - 1]) && s != "" && s[0] != '<'
    ensures StartsFolded(WithoutBlockOpeners(s, isWord), word) <==> StartsFolded(s, word)
  {
    if StartsFolded(s, word) {
      EndThrough(s, word, isWord);
    } else if StartsFolded(WithoutBlockOpeners(s, isWord), word) {
      WordFromResult(s, word, isWord);
    }
  }

  lemma MarksAreRobust()
    ensures Robust("!--") && !IsLetterLike("!--"[2])
    ensures Robust("![cdata[") && !IsLetterLike("![cdata["[7])
  {
    TheWordsAreRobust("!--");
    TheWordsAreRobust("![cdata[");
  }

  lemma FirstLetter(s: string, isWord: char -> bool)
    requires WordClass(isWord)
    ensures var out := WithoutBlockOpeners(s, isWord);
            out != "" && IsLetterLike(out[0])
            <==> s != "" && (IsLetterLike(s[0]) || (Goes(s, 0, isWord) && IsLetterLike(s[1..][0])))
  {
    assert !IsLetterLike('<') by { FoldedMarks('<'); }
    if s != "" {
      if Goes(s, 0, isWord) {
        GoneStep(s, isWord);
      } else {
        KeptStep(s, isWord);
      }
    }
  }

  // ----- The result of removing ------------------------------------------------------------

  lemma ForGoodThrough(s: string, isWord: char -> bool)
    requires WordClass(isWord) && s != "" && s[0] != '<'
    ensures OpensForGood(WithoutBlockOpeners(s, isWord))
            <==> OpensForGood(s) || (s[0] == '!' && Goes(s, 1, isWord) && IsLetterLike(s[2..][0]))
  {
    MarksAreRobust();
    MarkThrough(s, "!--", isWord);
    MarkThrough(s, "![cdata[", isWord);
    KeptStep(s, isWord);
    FirstLetter(s[1..], isWord);
    var out := WithoutBlockOpeners(s, isWord);
    assert out[1..] == WithoutBlockOpeners(s[1..], isWord);
    assert |out| > 1 ==> out[1] == out[1..][0];
    assert |s| > 1 ==> s[1] == s[1..][0] && s[1..][1..] == s[2..];
    assert Goes(s, 1, isWord) == Goes(s[1..], 0, isWord);
  }

  lemma ClosingTagThrough(s: string, isWord: char -> bool)
    requires WordClass(isWord) && s != "" && s[0] == '/'
    ensures StartsSomeTag(WithoutBlockOpeners(s, isWord)[1..], isWord)
            <==> StaysSomeTag(s[1..], isWord) || (Goes(s, 1, isWord) && StaysSomeTag(s[2..], isWord))
  {
    var v := s[1..];
    KeptStep(s, isWord);
    assert WithoutBlockOpeners(s, isWord)[1..] == WithoutBlockOpeners(v, isWord);
    assert Goes(s, 1, isWord) == Goes(v, 0, isWord);
    if v == "" {
      assert !StartsSomeTag("", isWord);
    } else if v[0] != '<' {
      SomeTagThrough(v, isWord);
    } else {
      AngleIsNoTag(v, isWord);
      if Goes(v, 0, isWord) {
        GoneStep(v, isWord);
        assert v[1..] == s[2..];
        SomeTagThrough(v[1..], isWord);
      } else {
        KeptStep(v, isWord);
        AngleIsNoTag(WithoutBlockOpeners(v, isWord), isWord);
      }
    }
  }

  lemma AngleIsNoTag(s: string, isWord: char -> bool)
    requires s != "" && s[0] == '<'
    ensures !StartsSomeTag(s, isWord) && !StaysSomeTag(s, isWord) && !OpensBlock(s, isWord)
  {
    assert Fold('<') == '<';
  }

  lemma OpensBlockParts(s: string, isWord: char -> bool)
    requires s != ""
    ensures OpensBlock(s, isWord)
            <==> OpensForGood(s) || StartsSomeTag(if s[0] == '/' then s[1..] else s, isWord)
  {
  }

  lemma SlashIsNoTag(s: string, isWord: char -> bool)
    requires s != "" && s[0] in {'/', '!'}
    ensures !StartsSomeTag(s, isWord) && !StaysSomeTag(s, isWord)
  {
    FoldedMarks(s[0]);
  }

  /** What follows a kept `<` opens a block in the result if and only if it stays one or revives. */
  lemma OpensAfterwards(s: string, isWord: char -> bool)
    requires WordClass(isWord) && s != "" && s[0] != '<'
    ensures OpensBlock(WithoutBlockOpeners(s, isWord), isWord) <==> StaysOpener(s, isWord) || Revives(s, isWord)
  {
    var out := WithoutBlockOpeners(s, isWord);
    KeptStep(s, isWord);
    OpensBlockParts(out, isWord);
    ForGoodThrough(s, isWord);
    if s[0] == '/' {
      ClosingTagThrough(s, isWord);
      SlashIsNoTag(s, isWord);
    } else {
      SomeTagThrough(s, isWord);
    }
  }

  lemma StayingOpens(s: string, isWord: char -> bool)
    requires WordClass(isWord)
    ensures StaysOpener(s, isWord) ==> OpensBlock(s, isWord)
    ensures Revives(s, isWord) ==> !OpensBlock(s, isWord)
  {
    FoldedMarks('!');
    FoldedMarks('/');
    FoldedMarks('<');
    if s != "" {
      if s[0] in {'/', '!'} {
        SlashIsNoTag(s, isWord);
      }
      if |s| > 1 && s[1] == '<' {
        AngleIsNoTag(s[1..], isWord);
        assert s[1..][0] == '<';
      }
      if s[0] == '<' {
        AngleIsNoTag(s, isWord);
      }
    }
  }

  /** A `<` that is kept is an opener in the result if and only if it revives. */
  lemma RevivesExactly(s: string, isWord: char -> bool)
    requires WordClass(isWord) && !OpensBlock(s, isWord)
    ensures OpensBlock(WithoutBlockOpeners(s, isWord), isWord) <==> Revives(s, isWord)
  {
    StayingOpens(s, isWord);
    if s != "" {
      if s[0] != '<' {
        OpensAfterwards(s, isWord);
      } else if Goes(s, 0, isWord) {
        GoneStep(s, isWord);
        OpensAfterwards(s[1..], isWord);
        StayingOpens(s[1..], isWord);
      } else {
        KeptStep(s, isWord);
        AngleIsNoTag(WithoutBlockOpeners(s, isWord), isWord);
      }
    }
  }

  ghost predicate SomeRevives(s: string, isWord: char -> bool) {
    exists i :: 0 <= i < |s| && s[i] == '<' && Revives(s[i + 1..], isWord)
  }

  lemma NoOpenerOfCons(c: char, s: string, isWord: char -> bool)
    ensures NoOpener([c] + s, isWord) <==> NoOpener(s, isWord) && !(c == '<' && OpensBlock(s, isWord))
  {
    var t := [c] + s;
    forall i | 0 <= i < |s| ensures t[i + 1] == s[i] && t[i + 1 + 1..] == s[i + 1..] {
    }
    assert t[0] == c && t[0 + 1..] == s;
    if NoOpener(t, isWord) {
      forall i | 0 <= i < |s| && s[i] == '<' ensures !OpensBlock(s[i + 1..], isWord) {
        assert t[i + 1] == '<' && t[i + 1 + 1..] == s[i + 1..];
      }
      assert t[0] == '<' ==> !OpensBlock(t[0 + 1..], isWord);
    } else {
      var j :| 0 <= j < |t| && t[j] == '<' && OpensBlock(t[j + 1..], isWord);
      assert j > 0 ==> s[j - 1] == '<' && t[j - 1 + 1 + 1..] == s[j - 1 + 1..];
    }
  }

  lemma SomeRevivesOfCons(s: string, isWord: char -> bool)
    requires s != ""
    ensures SomeRevives(s, isWord) <==> SomeRevives(s[1..], isWord) || (s[0] == '<' && Revives(s[1..], isWord))
  {
    var t := s[1..];
    assert forall i :: 0 <= i < |t| ==> t[i] == s[i + 1] && t[i + 1..] == s[i + 1 + 1..];
    if SomeRevives(t, isWord) {
      var i :| 0 <= i < |t| && t[i] == '<' && Revives(t[i + 1..], isWord);
      assert s[i + 1] == '<';
    }
    if i :| 0 <= i < |s| && s[i] == '<' && Revives(s[i + 1..], isWord) {
      assert i > 0 ==> t[i - 1] == '<' && t[i - 1 + 1..] == s[i + 1..];
    }
    assert s[0 + 1..] == t;
  }

  lemma GoneLeaves(s: string, isWord: char -> bool)
    requires WordClass(isWord) && Goes(s, 0, isWord)
    requires !NoOpener(WithoutBlockOpeners(s[1..], isWord), isWord) <==> SomeRevives(s[1..], isWord)
    ensures !NoOpener(WithoutBlockOpeners(s, isWord), isWord) <==> SomeRevives(s, isWord)
  {
    GoneStep(s, isWord);
    SomeRevivesOfCons(s, isWord);
    StayingOpens(s[1..], isWord);
  }

  lemma KeptLeaves(s: string, isWord: char -> bool)
    requires WordClass(isWord) && s != "" && !Goes(s, 0, isWord)
    requires !NoOpener(WithoutBlockOpeners(s[1..], isWord), isWord) <==> SomeRevives(s[1..], isWord)
    ensures !NoOpener(WithoutBlockOpeners(s, isWord), isWord) <==> SomeRevives(s, isWord)
  {
    KeptStep(s, isWord);
    NoOpenerOfCons(s[0], WithoutBlockOpeners(s[1..], isWord), isWord);
    SomeRevivesOfCons(s, isWord);
    if s[0] == '<' {
      RevivesExactly(s[1..], isWord);
    }
  }

  /** An opener is left if and only if somewhere in the text one revives. */
  lemma {:induction false} OpenersLeftExactly(s: string, isWord: char -> bool)
    requires WordClass(isWord)
    ensures !NoOpener(WithoutBlockOpeners(s, isWord), isWord) <==> SomeRevives(s, isWord)
  {
    if s != "" {
      OpenersLeftExactly(s[1..], isWord);
      if Goes(s, 0, isWord) {
        GoneLeaves(s, isWord);
      } else {
        KeptLeaves(s, isWord);
      }
    }
  }

  /** The same of a whole fragment: openers are left if and only if one revives once its code
      delimiters are gone. */
  lemma NeutralizedOpenersExactly(fragment: string, isWord: char -> bool)
    requires WordClass(isWord)
    ensures !NoOpener(NeutralizeFences(fragment, isWord), isWord)
            <==> SomeRevives(WithoutTildeFences(WithoutBackticks(fragment)), isWord)
  {
    OpenersLeftExactly(WithoutTildeFences(WithoutBackticks(fragment)), isWord);
  }

  /** So a fragment whose `<` are never followed, at once or after one `!` or `/`, by another one
      is free of openers afterwards. */
  lemma ApartAnglesLeaveNone(fragment: string, isWord: char -> bool)
    requires WordClass(isWord)
    requires var t := WithoutTildeFences(WithoutBackticks(fragment));
             && (forall i :: 0 <= i < |t| - 1 && t[i] == '<' ==> t[i + 1] != '<')
             && (forall i :: 0 <= i < |t| - 2 && t[i] == '<' && (t[i + 1] == '!' || t[i + 1] == '/') ==> t[i + 2] != '<')
    ensures NoOpener(NeutralizeFences(fragment, isWord), isWord)
  {
    var t := WithoutTildeFences(WithoutBackticks(fragment));
    NeutralizedOpenersExactly(fragment, isWord);
    forall i | 0 <= i < |t| && t[i] == '<' ensures !Revives(t[i + 1..], isWord) {
      assert i + 1 < |t| ==> t[i + 1..][0] == t[i + 1];
      assert i + 2 < |t| ==> t[i + 1..][1] == t[i + 2];
    }
  }
}
