/** Conversion of one polytonic word to monotonic Greek: splitting off the
    punctuation around the word, a few fixed replacements, and the choice of
    which acute accents to drop by the number of syllables. The Unicode
    services the conversion relies on (the Alphabetic property, canonical
    decomposition and composition) and the modern syllabifier are not part
    of this model: they are passed in as functions. */
module Monotonic {
  import opened Wrappers
  import opened Seqs
  import opened Chars
  import Accents
  import Syllabify

  // ---------------------------------------------------------------------
  // Punctuation around a word

  /** A character that belongs to the word proper: a Greek letter, or any
      alphabetic character other than the modifier apostrophe.
      `isAlphabetic` stands for Unicode's Alphabetic property. */
  predicate NotPunct(ch: char, isAlphabetic: char -> bool)
  {
    IsGreekLetter(ch) || (ch != MODIFIER_APOSTROPHE && isAlphabetic(ch))
  }

  /** The index of the first character of `s` that satisfies `p`, if any. */
  function FirstIndexWhere(s: seq<char>, p: char -> bool): (r: Option<nat>)
    ensures r.Some? ==> r.value < |s| && p(s[r.value])
                        && forall k :: 0 <= k < r.value ==> !p(s[k])
    ensures r.None? ==> forall k :: 0 <= k < |s| ==> !p(s[k])
  {
    if s == [] then None
    else if p(s[0]) then Some(0)
    else match FirstIndexWhere(s[1..], p)
      case None => None
      case Some(i) => Some(i + 1)
  }

  /** Splits `s` into the punctuation before the first word character, the
      core from the first to the last word character, and the punctuation
      after it; a string without word characters is all left punctuation. */
  function SplitPunctuation(s: string, isAlphabetic: char -> bool): (r: (string, string, string))
  {
    var p := (ch: char) => NotPunct(ch, isAlphabetic);
    match FirstIndexWhere(s, p)
    case None => (s, "", "")
    case Some(start) =>
      // a word character at `start`, so there is a last one, at or after it
      assert p(s[start]);
      var end := Accents.LastIndexWhere(s, p).value + 1;
      (s[..start], s[start..end], s[end..])
  }

  /** The split is lossless, and a string without word characters is all
      left punctuation. */
  lemma SplitPunctuationLossless(s: string, isAlphabetic: char -> bool)
    ensures var (l, c, r) := SplitPunctuation(s, isAlphabetic);
            l + c + r == s
    ensures (forall k :: 0 <= k < |s| ==> !NotPunct(s[k], isAlphabetic)) ==>
              SplitPunctuation(s, isAlphabetic) == (s, "", "")
  {
    var p := (ch: char) => NotPunct(ch, isAlphabetic);
    match FirstIndexWhere(s, p)
    case None =>
      assert s + "" + "" == s;
    case Some(start) =>
      assert p(s[start]);
      var end := Accents.LastIndexWhere(s, p).value + 1;
      assert s[..start] + s[start..end] + s[end..] == s;
  }

  /** When `s` holds a word character the core is non-empty and starts and
      ends with one, and neither punctuation part holds any. Punctuation
      inside the core stays there. */
  lemma SplitPunctuationCore(s: string, isAlphabetic: char -> bool, k: nat)
    requires k < |s| && NotPunct(s[k], isAlphabetic)
    ensures var (l, c, r) := SplitPunctuation(s, isAlphabetic);
            && c != []
            && NotPunct(c[0], isAlphabetic) && NotPunct(c[|c| - 1], isAlphabetic)
            && (forall j :: 0 <= j < |l| ==> !NotPunct(l[j], isAlphabetic))
            && (forall j :: 0 <= j < |r| ==> !NotPunct(r[j], isAlphabetic))
  {
    var p := (ch: char) => NotPunct(ch, isAlphabetic);
    assert p(s[k]);
    var first, last := FirstIndexWhere(s, p), Accents.LastIndexWhere(s, p);
    var start, end := first.value, last.value + 1;
    assert start <= k < end;
    var (l, c, r) := SplitPunctuation(s, isAlphabetic);
    assert l == s[..start] && c == s[start..end] && r == s[end..];
    assert forall j :: 0 <= j < |l| ==> l[j] == s[j];
    assert forall j :: 0 <= j < |r| ==> r[j] == s[end + j];
  }

  /** The converse of the two lemmas above: punctuation `l` and `r` around
      a core `c` that starts and ends with a word character split back into
      exactly those three parts. */
  lemma SplitPunctuationOf(l: string, c: string, r: string, isAlphabetic: char -> bool)
    requires c != [] && NotPunct(c[0], isAlphabetic) && NotPunct(c[|c| - 1], isAlphabetic)
    requires forall j :: 0 <= j < |l| ==> !NotPunct(l[j], isAlphabetic)
    requires forall j :: 0 <= j < |r| ==> !NotPunct(r[j], isAlphabetic)
    ensures SplitPunctuation(l + c + r, isAlphabetic) == (l, c, r)
  {
    var s := l + c + r;
    var start, end := |l|, |l| + |c|;
    var p := (ch: char) => NotPunct(ch, isAlphabetic);
    assert p(s[start]) && p(s[end - 1]) by {
      assert s[start] == c[0] && s[end - 1] == c[|c| - 1];
    }
    assert forall j :: 0 <= j < start ==> !p(s[j]) by {
      assert forall j :: 0 <= j < start ==> s[j] == l[j];
    }
    assert forall j :: end <= j < |s| ==> !p(s[j]) by {
      assert forall j :: end <= j < |s| ==> s[j] == r[j - end];
    }
    FirstIndexIs(s, p, start);
    LastIndexIs(s, p, end - 1);
    assert s[..start] == l && s[start..end] == c && s[end..] == r;
  }

  lemma FirstIndexIs(s: seq<char>, p: char -> bool, k: nat)
    requires k < |s| && p(s[k]) && forall j :: 0 <= j < k ==> !p(s[j])
    ensures FirstIndexWhere(s, p) == Some(k)
  {
  }

  lemma LastIndexIs(s: seq<char>, p: char -> bool, k: nat)
    requires k < |s| && p(s[k]) && forall j :: k < j < |s| ==> !p(s[j])
    ensures Accents.LastIndexWhere(s, p) == Some(k)
  {
  }

  // ---------------------------------------------------------------------
  // Fixed replacements

  /** The eight words whose monotonic form is not obtained by the rules
      below, each with its replacement. */
  function SpecialCases(s: string): (r: Option<string>)
  {
    match s
    case "ποὺ" => Some("που")
    case "Ποὺ" => Some("Που")
    case "πὼς" => Some("πως")
    case "Πὼς" => Some("Πως")
    case "ποιὸς" => Some("ποιος")
    case "Ποιὸς" => Some("Ποιος")
    case "ποιὰ" => Some("ποια")
    case "Ποιὰ" => Some("Ποια")
    case _ => None
  }

  /** The words that have a fixed replacement. */
  const SPECIAL_FORMS: set<string> :=
    {"ποὺ", "Ποὺ", "πὼς", "Πὼς", "ποιὸς", "Ποιὸς", "ποιὰ", "Ποιὰ"}

  /** `t` is `s` with the character at `k` replaced by its lowercase base
      letter, which differs from it. */
  predicate DropsAccentAt(s: string, t: string, k: nat)
  {
    |t| == |s| && k < |s| && t[k] != s[k] && t[k] == BaseLower(s[k])
    && t[..k] == s[..k] && t[k + 1..] == s[k + 1..]
  }

  /** The fixed replacements apply to exactly the eight listed words. */
  lemma SpecialCasesDomain(s: string)
    ensures SpecialCases(s).Some? <==> s in SPECIAL_FORMS
  {
  }

  // The lowercase base letters of the four vowels with a grave accent that
  // the fixed replacements drop. Each is its own lemma: unfolding
  // `BaseLower` on all four at once is far costlier than on each alone.
  lemma AlphaVariaBase() ensures BaseLower('\U{1F70}') == 'α' {}
  lemma OmicronVariaBase() ensures BaseLower('\U{1F78}') == 'ο' {}
  lemma UpsilonVariaBase() ensures BaseLower('\U{1F7A}') == 'υ' {}
  lemma OmegaVariaBase() ensures BaseLower('\U{1F7C}') == 'ω' {}

  /** Each fixed replacement only drops the grave accent of one vowel: the
      replacement differs from the word in exactly one position, and holds
      the vowel's lowercase base letter there. */
  lemma SpecialCasesDropOneAccent(s: string)
    requires s in SPECIAL_FORMS
    ensures SpecialCases(s).Some? && exists k :: DropsAccentAt(s, SpecialCases(s).value, k)
  {
    AlphaVariaBase();
    OmicronVariaBase();
    UpsilonVariaBase();
    OmegaVariaBase();
    hide BaseLower;
    if s == "ποὺ" { assert DropsAccentAt(s, "που", 2); }
    else if s == "Ποὺ" { assert DropsAccentAt(s, "Που", 2); }
    else if s == "πὼς" { assert DropsAccentAt(s, "πως", 1); }
    else if s == "Πὼς" { assert DropsAccentAt(s, "Πως", 1); }
    else if s == "ποιὸς" { assert DropsAccentAt(s, "ποιος", 3); }
    else if s == "Ποιὸς" { assert DropsAccentAt(s, "Ποιος", 3); }
    else if s == "ποιὰ" { assert DropsAccentAt(s, "ποια", 3); }
    else { assert DropsAccentAt(s, "Ποια", 3); }
  }

  // ---------------------------------------------------------------------
  // Word lists

  /** The characters that mark an elided word when they follow it. */
  const APOSTROPHES: seq<char> :=
    ['\U{0027}', '\U{2019}', '\U{02BC}', '\U{1FBD}', '\U{1FBF}', '\U{2018}']

  /** Correctly accented monosyllables, each followed by its capitalized
      form. */
  const MONOSYLLABLE_ACCENTED: seq<string> := [
    "ή", "Ή", "πού", "Πού", "πώς", "Πώς", "είς", "Είς", "έν", "Έν", "έξ", "Έξ"
  ]

  /** Monosyllables that the polytonic spelling accents on a syllable of
      their own and that lose the accent, each followed by its capitalized
      form. */
  const MONOSYL_REMOVE_ACCENT: seq<string> := [
    "πιό", "Πιό", "πιά", "Πιά", "μιά", "Μιά", "μιάς", "Μιάς", "γιά", "Γιά", "γειά", "Γειά",
    "πιώ", "Πιώ", "πίεις", "Πίεις", "πίη", "Πίη", "πιή", "Πιή", "πίει", "Πίει",
    "πιεί", "Πιεί", "πίης", "Πίης", "πιής", "Πιής", "πιούν", "Πιούν", "πιές", "Πιές"
  ]

  // ---------------------------------------------------------------------
  // The conversion of one word

  /** The Unicode services the conversion relies on, none of them part of
      this model: the Alphabetic property, canonical decomposition and
      composition, and the modern syllabifier that positional accent edits
      consult. */
  datatype Unicode = Unicode(
    isAlphabetic: char -> bool,
    nfd: string -> string,
    nfc: string -> string,
    syllabifyEl: string -> seq<string>)

  /** The marks that monotonic spelling drops. */
  const DROPPED_MARKS: seq<char> := [Accents.IOTA_SUBSCRIPT, Accents.ROUGH, Accents.SMOOTH]

  /** The filter of the decomposed word: drops the iota subscript and both
      breathings, and turns the grave and the circumflex into the acute. */
  function AcuteOnly(s: string): (r: string)
    ensures |r| <= |s|
    ensures forall k :: 0 <= k < |r| ==>
              r[k] !in DROPPED_MARKS && r[k] != Accents.GRAVE && r[k] != Accents.CIRCUMFLEX
  {
    if s == [] then []
    else
      var c := s[0];
      var head := if c in DROPPED_MARKS then []
                  else if c == Accents.GRAVE || c == Accents.CIRCUMFLEX then [Accents.ACUTE]
                  else [c];
      head + AcuteOnly(s[1..])
  }

  /** What the filter keeps: every character that is not a dropped mark,
      in order, with the grave and circumflex replaced by the acute. */
  lemma {:induction false} AcuteOnlyKeeps(s: string)
    ensures |AcuteOnly(s)| == |Accents.Without(s, DROPPED_MARKS)|
    ensures forall k :: 0 <= k < |AcuteOnly(s)| ==>
              var c := Accents.Without(s, DROPPED_MARKS)[k];
              AcuteOnly(s)[k] == if c == Accents.GRAVE || c == Accents.CIRCUMFLEX then Accents.ACUTE else c
  {
    if s != [] {
      AcuteOnlyKeeps(s[1..]);
    }
  }

  /** The polytonic word with its ancient diacritics removed and its
      grave and circumflex accents turned into acutes. */
  function ConvertToAcute(s: string, u: Unicode): string
  {
    u.nfc(AcuteOnly(u.nfd(s)))
  }

  /** The first character of the right punctuation is an apostrophe: the
      word was cut short (έτσ᾿ είναι). */
  predicate EndsWithAbbreviation(rightPunct: string)
  {
    rightPunct != [] && rightPunct[0] in APOSTROPHES
  }

  /** The word without its acute accents, through the given normalization. */
  function RemoveAcute(s: string, u: Unicode): string
  {
    Accents.RemoveAcute(s, u.nfd, u.nfc)
  }

  /** The decomposed word holds an acute accent. */
  predicate HasAcute(s: string, u: Unicode)
  {
    Accents.HasDiacritic(s, Accents.ACUTE, u.nfd)
  }

  /** The acute rule on the core `out` of a word, already converted to
      acutes, by the number of its syllables. */
  function AccentRule(out: string, rightPunct: string, u: Unicode): string
  {
    AccentRuleOn(Syllabify.SyllablesKept(out), out, rightPunct, u)
  }

  /** The acute rule on `out` cut into `syllables`. */
  function AccentRuleOn(syllables: seq<string>, out: string, rightPunct: string, u: Unicode): string
  {
    if |syllables| == 1 then
      if syllables[0] !in MONOSYLLABLE_ACCENTED && !EndsWithAbbreviation(rightPunct)
         && !EndsWithDiphthong(out)
      then RemoveAcute(out, u)
      else out
    else if |syllables| >= 2 then
      if out in MONOSYL_REMOVE_ACCENT then RemoveAcute(out, u)
      else if HasAcute(syllables[|syllables| - 2], u) && HasAcute(syllables[|syllables| - 1], u)
      then Accents.DiacriticRemovedAt(out, 1, Accents.ACUTE, u.syllabifyEl,
                                      (t, ds) => Accents.RemoveDiacritics(t, ds, u.nfd, u.nfc))
      else out
    else out
  }

  /** On a core without U+0314 the acute rule is the same whether it cuts
      with the corrected scanner or with the scanner as written. */
  lemma AccentRuleCutsAsWritten(out: string, rightPunct: string, u: Unicode)
    requires forall k :: 0 <= k < |out| ==> out[k] != Accents.ROUGH
    ensures AccentRule(out, rightPunct, u) == AccentRuleOn(Syllabify.Syllables(out), out, rightPunct, u)
  {
    Syllabify.KeptAgreesWithoutRough(out);
  }

  /** A word in monotonic spelling: a word that is not Greek is kept;
      otherwise the punctuation around it is kept and its core is replaced
      as a special case or converted to acutes and passed through the accent
      rule. */
  function ToMonotonicWord(s: string, u: Unicode): string
  {
    if !IsGreekWord(s, u.isAlphabetic) then s
    else
      var (left, core, right) := SplitPunctuation(s, u.isAlphabetic);
      match SpecialCases(core)
      case Some(ret) => left + ret + right
      case None => left + AccentRule(ConvertToAcute(core, u), right, u) + right
  }

  // ---------------------------------------------------------------------
  // What the conversion keeps and what it changes

  /** A word that is not Greek comes back unchanged. */
  lemma NotGreekUnchanged(s: string, u: Unicode)
    requires !IsGreekWord(s, u.isAlphabetic)
    ensures ToMonotonicWord(s, u) == s
  {
  }

  /** The punctuation around a Greek word is kept verbatim on both sides;
      only the core between them is rewritten. */
  lemma PunctuationKept(s: string, u: Unicode)
    requires IsGreekWord(s, u.isAlphabetic)
    ensures var (left, _, right) := SplitPunctuation(s, u.isAlphabetic);
            var r := ToMonotonicWord(s, u);
            |left| + |right| <= |r| && r[..|left|] == left && r[|r| - |right|..] == right
  {
    var (left, core, right) := SplitPunctuation(s, u.isAlphabetic);
    var m := if SpecialCases(core).Some? then SpecialCases(core).value
             else AccentRule(ConvertToAcute(core, u), right, u);
    assert ToMonotonicWord(s, u) == left + m + right;
    assert (left + m + right)[..|left|] == left;
    assert (left + m + right)[|left + m|..] == right;
  }

  /** A word of one syllable is that syllable. */
  lemma OneSyllableIsWord(w: string)
    requires |Syllabify.SyllablesKept(w)| == 1
    ensures Syllabify.SyllablesKept(w)[0] == w
  {
    var ss := Syllabify.SyllablesKept(w);
    Syllabify.SyllablesKeptPartition(w);
    var e: seq<string> := [];
    assert ss == e + [ss[0]];
    ConcatSnoc(e, ss[0]);
  }

  /** The rule for one syllable: the acute is removed exactly when the
      word is not a correctly accented monosyllable, is not cut short by
      an apostrophe and does not end in a diphthong; otherwise the core is
      kept. */
  lemma MonosyllableRule(out: string, rightPunct: string, u: Unicode)
    requires |Syllabify.SyllablesKept(out)| == 1
    ensures var remove := out !in MONOSYLLABLE_ACCENTED && !EndsWithAbbreviation(rightPunct)
                          && !EndsWithDiphthong(out);
            AccentRule(out, rightPunct, u) == if remove then RemoveAcute(out, u) else out
  {
    OneSyllableIsWord(out);
  }

  /** The rule for two syllables or more, outside the fixed list of words
      that lose their accent: unless the last two syllables both carry an
      acute the core is kept; when they do, the acute is removed from the
      last syllable of the modern syllabification only, the syllables before
      it kept verbatim. */
  lemma PolysyllableRule(out: string, rightPunct: string, u: Unicode)
    requires |Syllabify.SyllablesKept(out)| >= 2 && out !in MONOSYL_REMOVE_ACCENT
    ensures var ss := Syllabify.SyllablesKept(out);
            var r := AccentRule(out, rightPunct, u);
            && (!(HasAcute(ss[|ss| - 2], u) && HasAcute(ss[|ss| - 1], u)) ==> r == out)
            && (HasAcute(ss[|ss| - 2], u) && HasAcute(ss[|ss| - 1], u) ==>
                  var el := u.syllabifyEl(out);
                  if el == [] then r == out
                  else r == Concat(el[..|el| - 1]) + RemoveAcute(el[|el| - 1], u))
  {
    var ss := Syllabify.SyllablesKept(out);
    if HasAcute(ss[|ss| - 2], u) && HasAcute(ss[|ss| - 1], u) {
      var el := u.syllabifyEl(out);
      if el != [] {
        var e: seq<string> := [];
        assert el[|el| - 1 + 1..] == e;
      }
    }
  }

  /** The words of the fixed list lose their acute whatever their
      syllables. */
  lemma RemoveAccentListRule(out: string, rightPunct: string, u: Unicode)
    requires |Syllabify.SyllablesKept(out)| >= 2 && out in MONOSYL_REMOVE_ACCENT
    ensures AccentRule(out, rightPunct, u) == RemoveAcute(out, u)
  {
  }

  /** An empty core is kept. */
  lemma EmptyCoreKept(rightPunct: string, u: Unicode)
    ensures AccentRule([], rightPunct, u) == []
  {
    Syllabify.SyllablesKeptPartition([]);
  }
}
