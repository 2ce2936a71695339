/** The word-level behaviour of the monotonic conversion on the examples
    its documentation and tests give. The Unicode Alphabetic property is
    left open: each example states the few values of it that it needs. */
module MonotonicExamples {
  import opened Wrappers
  import opened Chars
  import opened Monotonic

  /** Greek letters belong to the word whatever the Alphabetic property
      says; other characters by that property, so a Latin letter does and a
      full stop, a digit and the psili do not. */
  lemma NotPunctExamples(isAlphabetic: char -> bool)
    requires isAlphabetic('a')
    requires !isAlphabetic('.') && !isAlphabetic('2') && !isAlphabetic('\U{1FBF}')
    ensures NotPunct('α', isAlphabetic) && NotPunct('a', isAlphabetic) && NotPunct('ή', isAlphabetic)
    ensures !NotPunct('.', isAlphabetic) && !NotPunct('2', isAlphabetic)
    ensures !NotPunct('\U{1FBF}', isAlphabetic)
  {
  }

  /** Punctuation on the right is split off. */
  lemma SplitTrailingDots(isAlphabetic: char -> bool)
    requires !isAlphabetic('.')
    ensures SplitPunctuation("λέξη...", isAlphabetic) == ("", "λέξη", "...")
  {
    var l, c, r := "", "λέξη", "...";
    assert NotPunct(c[0], isAlphabetic) && NotPunct(c[3], isAlphabetic);
    assert forall j :: 0 <= j < |r| ==> r[j] == '.';
    SplitPunctuationOf(l, c, r, isAlphabetic);
    assert l + c + r == "λέξη...";
  }

  lemma LambdaEtaLetters()
    ensures IsGreekLetter('λ') && IsGreekLetter('η')
  {
  }

  /** Punctuation on both sides is split off, and a hyphen inside the word
      stays in the core. */
  lemma SplitInnerHyphen(isAlphabetic: char -> bool)
    requires !isAlphabetic(';') && !isAlphabetic('?') && !isAlphabetic('-') && !isAlphabetic('.')
    ensures SplitPunctuation(";?λέ-ξη...", isAlphabetic) == (";?", "λέ-ξη", "...")
  {
    var l, c, r := ";?", "λέ-ξη", "...";
    assert c[0] == 'λ' && c[4] == 'η';
    LambdaEtaLetters();
    assert forall j :: 0 <= j < |l| ==> l[j] == ';' || l[j] == '?';
    assert forall j :: 0 <= j < |r| ==> r[j] == '.';
    SplitPunctuationOf(l, c, r, isAlphabetic);
    assert l + c + r == ";?λέ-ξη...";
  }

  /** Without word characters everything is left punctuation. */
  lemma SplitAllPunctuation(isAlphabetic: char -> bool)
    requires !isAlphabetic(';') && !isAlphabetic('?') && !isAlphabetic('.')
    ensures SplitPunctuation(";?...", isAlphabetic) == (";?...", "", "")
  {
  }

  /** A digit before the word is punctuation. */
  lemma SplitDigit(isAlphabetic: char -> bool)
    requires !isAlphabetic('2')
    ensures SplitPunctuation("2ος", isAlphabetic) == ("2", "ος", "")
  {
    var l, c, r := "2", "ος", "";
    assert NotPunct(c[0], isAlphabetic) && NotPunct(c[1], isAlphabetic);
    SplitPunctuationOf(l, c, r, isAlphabetic);
    assert l + c + r == "2ος";
  }

  /** ποὺ becomes που through the fixed replacements. */
  lemma PouSpecialCase(u: Unicode)
    ensures ToMonotonicWord("ποὺ", u) == "που"
  {
    var s := "ποὺ";
    assert IsGreekWordChar(s[0], u.isAlphabetic) && IsGreekWordChar(s[1], u.isAlphabetic)
      && IsGreekWordChar(s[2], u.isAlphabetic);
    assert IsGreekWord(s, u.isAlphabetic);
    assert NotPunct(s[0], u.isAlphabetic) && NotPunct(s[2], u.isAlphabetic);
    SplitPunctuationOf("", s, "", u.isAlphabetic);
    assert "" + s + "" == s;
    assert SpecialCases(s) == Some("που");
  }

  /** A word with a Latin letter is not Greek and is kept. */
  lemma PoeteKept(u: Unicode)
    requires u.isAlphabetic('P')
    ensures ToMonotonicWord("Poète", u) == "Poète"
  {
  }
}
