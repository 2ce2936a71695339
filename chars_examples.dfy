/** The character classifiers on the inputs their documentation and tests
    name, and what the base-letter table does on its own outputs. */
module CharsExamples {
  import opened Chars

  /** The spacing marks that `BaseLower` gives for the spacing diacritics
      of the two blocks. */
  const BASE_MARKS: set<char> := {
    '\U{0060}', '\U{00A8}', '\U{00B4}', '\U{02B9}', '\U{1FBF}', '\U{1FFE}'
  }

  /** What `BaseLower` returns: the character itself, a lowercase base
      letter, or a spacing mark. */
  predicate IsBaseOf(r: char, ch: char)
  {
    r == ch || 'α' <= r <= 'ω' || r in BASE_MARKS
  }

  lemma BaseLowerShapeGc(ch: char)
    requires IsGreekAndCopticChar(ch)
    ensures IsBaseOf(BaseLower(ch), ch)
  {
  }

  lemma BaseLowerShapeGe(ch: char)
    requires IsGreekExtendedChar(ch)
    ensures IsBaseOf(BaseLower(ch), ch)
  {
  }

  /** `BaseLower` maps every character to itself, a lowercase base letter
      or a spacing mark. */
  lemma BaseLowerShape(ch: char)
    ensures IsBaseOf(BaseLower(ch), ch)
  {
    if IsGreekAndCopticChar(ch) {
      BaseLowerShapeGc(ch);
    } else if IsGreekExtendedChar(ch) {
      BaseLowerShapeGe(ch);
    }
  }

  /** The spacing marks are their own base. */
  lemma BaseMarksFixed(m: char)
    requires m in BASE_MARKS
    ensures BaseLower(m) == m
  {
    if m == '\U{1FBF}' {
      PsiliFixed();
    } else if m == '\U{1FFE}' {
      DasiaFixed();
    }
  }

  lemma PsiliFixed()
    ensures BaseLower('\U{1FBF}') == '\U{1FBF}'
  {
  }

  lemma DasiaFixed()
    ensures BaseLower('\U{1FFE}') == '\U{1FFE}'
  {
  }

  /** Applying `BaseLower` twice is applying it once: a base letter is its
      own base letter. */
  lemma BaseLowerIdempotent(ch: char)
    ensures BaseLower(BaseLower(ch)) == BaseLower(ch)
  {
    var r := BaseLower(ch);
    BaseLowerShape(ch);
    if r in BASE_MARKS {
      BaseMarksFixed(r);
    }
  }

  lemma BaseLowerTonos()
    ensures BaseLower('Ά') == 'α'
  {
  }

  lemma BaseLowerDialytikaTonos()
    ensures BaseLower('ΐ') == 'ι'
  {
  }

  lemma BaseLowerPerispomeniYpogegrammeni()
    ensures BaseLower('ῷ') == 'ω'
  {
  }

  lemma BaseLowerDasia()
    ensures BaseLower('Ῥ') == 'ρ'
  {
  }

  /** Trailing consonants are skipped: Κάιν ends in a diphthong. */
  lemma KainEndsWithDiphthong()
    ensures EndsWithDiphthong("Κάιν")
  {
    assert 'Κ' in CONSONANTS;
    assert 'ά' !in CONSONANTS;
    assert 'ι' !in CONSONANTS;
    assert 'ν' in CONSONANTS;
    var s := "Κάιν";
    assert ExtractVowels(s[3..]) == [];
    assert ExtractVowels(s[2..]) == "ι";
    assert ExtractVowels(s[1..]) == "άι";
    assert ExtractVowels(s) == "άι";
    assert EndsWith("άι", DIPHTHONG_ENDINGS[4]);
  }

  lemma PlaiEndsWithDiphthong()
    ensures EndsWithDiphthong("πλάι")
  {
    assert 'π' in CONSONANTS;
    assert 'λ' in CONSONANTS;
    assert 'ά' !in CONSONANTS;
    assert 'ι' !in CONSONANTS;
    var s := "πλάι";
    assert ExtractVowels(s[3..]) == "ι";
    assert ExtractVowels(s[2..]) == "άι";
    assert ExtractVowels(s[1..]) == "άι";
    assert ExtractVowels(s) == "άι";
    assert EndsWith("άι", DIPHTHONG_ENDINGS[4]);
  }

  lemma GaidarosVowels()
    ensures ExtractVowels("γάιδαρος") == "άιαο"
  {
    assert 'γ' in CONSONANTS;
    assert 'ά' !in CONSONANTS;
    assert 'ι' !in CONSONANTS;
    assert 'δ' in CONSONANTS;
    assert 'α' !in CONSONANTS;
    assert 'ρ' in CONSONANTS;
    assert 'ο' !in CONSONANTS;
    assert 'ς' in CONSONANTS;
    var s := "γάιδαρος";
    assert ExtractVowels(s[7..]) == [];
    assert ExtractVowels(s[6..]) == "ο";
    assert ExtractVowels(s[5..]) == "ο";
    assert ExtractVowels(s[4..]) == "αο";
    assert ExtractVowels(s[3..]) == "αο";
    assert ExtractVowels(s[2..]) == "ιαο";
    assert ExtractVowels(s[1..]) == "άιαο";
  }

  /** γάιδαρος holds the pair άι, but not at its end. */
  lemma GaidarosDoesNotEndWithDiphthong()
    ensures !EndsWithDiphthong("γάιδαρος")
  {
    GaidarosVowels();
    var v := "άιαο";
    forall i | 0 <= i < |DIPHTHONG_ENDINGS|
      ensures !EndsWith(v, DIPHTHONG_ENDINGS[i])
    {
      assert |DIPHTHONG_ENDINGS[i]| == 2;
      assert v[2..] == "αο";
    }
  }

  /** καλημέρα is a Greek word whatever counts as alphabetic. */
  lemma KalimeraIsGreek(isAlphabetic: char -> bool)
    ensures IsGreekWord("καλημέρα", isAlphabetic)
  {
  }
}
