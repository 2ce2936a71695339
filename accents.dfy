/** Diacritics and positional accent edits. The syllabifier these edits
    consult and the Unicode composition they rely on are not part of this
    model: they are passed in as functions. */
module Accents {
  import opened Seqs
  import opened Wrappers

  // The combining diacritics of polytonic Greek.
  /** οξεία (oxia) */
  const ACUTE: char := '\U{0301}'
  /** βαρεία (varia) */
  const GRAVE: char := '\U{0300}'
  /** περισπωμένη (perispomeni) */
  const CIRCUMFLEX: char := '\U{0342}'
  /** υπογεγραμμένη (ypogegrammeni) */
  const IOTA_SUBSCRIPT: char := '\U{0345}'
  /** διαλυτικά (diaeresis) */
  const DIAERESIS: char := '\U{0308}'
  /** ψιλή (psili) */
  const SMOOTH: char := '\U{0313}'
  /** δασεία (dasia) */
  const ROUGH: char := '\U{0314}'

  /** The seven diacritics, in the order `remove_all_diacritics` lists them. */
  const DIACRITICS: seq<char> :=
    [CIRCUMFLEX, ACUTE, GRAVE, IOTA_SUBSCRIPT, DIAERESIS, SMOOTH, ROUGH]

  /** The diacritics are seven distinct characters of the "Combining
      Diacritical Marks" block, U+0300 to U+036F, so filtering them out of a
      decomposition never removes a base letter. */
  lemma DiacriticsAreCombining()
    ensures |DIACRITICS| == 7
    ensures forall i, j :: 0 <= i < j < |DIACRITICS| ==> DIACRITICS[i] != DIACRITICS[j]
    ensures forall i :: 0 <= i < |DIACRITICS| ==> '\U{0300}' <= DIACRITICS[i] <= '\U{036F}'
  {
  }

  /** The characters of the two Greek blocks whose canonical decomposition
      holds a diaeresis, and the combining diaeresis itself. */
  const WITH_DIAERESIS: set<char> := {
    DIAERESIS,
    '\U{0390}', '\U{03AA}', '\U{03AB}', '\U{03B0}', '\U{03CA}', '\U{03CB}', '\U{03D4}',
    '\U{1FD2}', '\U{1FD3}', '\U{1FD7}', '\U{1FE2}', '\U{1FE3}', '\U{1FE7}'
  }

  /** The canonical decomposition of `ch` holds a diaeresis. */
  predicate HasDiaeresis(ch: char)
  {
    ch in WITH_DIAERESIS
  }

  // ---------------------------------------------------------------------
  // Removing diacritics through the canonical decomposition

  /** The characters of `s` that are not in `ds`, in order. */
  function Without(s: seq<char>, ds: seq<char>): (r: seq<char>)
    ensures |r| <= |s|
    ensures forall k :: 0 <= k < |r| ==> r[k] !in ds
  {
    if s == [] then []
    else (if s[0] in ds then [] else [s[0]]) + Without(s[1..], ds)
  }

  /** Filtering distributes over concatenation: together with the
      one-character case this says `Without` keeps exactly the characters
      not in `ds`, in order. */
  lemma {:induction false} WithoutAppend(a: seq<char>, b: seq<char>, ds: seq<char>)
    ensures Without(a + b, ds) == Without(a, ds) + Without(b, ds)
    decreases |a|
  {
    if a == [] {
      assert a + b == b;
    } else {
      assert (a + b)[1..] == a[1..] + b;
      WithoutAppend(a[1..], b, ds);
    }
  }

  /** A string none of whose characters is in `ds` is kept whole. */
  lemma {:induction false} WithoutNone(s: seq<char>, ds: seq<char>)
    requires forall k :: 0 <= k < |s| ==> s[k] !in ds
    ensures Without(s, ds) == s
    decreases |s|
  {
    if s != [] {
      WithoutNone(s[1..], ds);
    }
  }

  /** `text` with the diacritics `ds` removed: the canonical decomposition
      `nfd` with those characters filtered out, recomposed by the canonical
      composition `nfc`. Both normalizations are not part of this model. */
  function RemoveDiacritics(text: seq<char>, ds: seq<char>,
                            nfd: seq<char> -> seq<char>, nfc: seq<char> -> seq<char>)
    : seq<char>
  {
    nfc(Without(nfd(text), ds))
  }

  /** Removing diacritics the text does not hold gives back the text, when
      the text is already in composed form (composing its decomposition
      gives it back). */
  lemma RemoveAbsentDiacritics(text: seq<char>, ds: seq<char>,
                               nfd: seq<char> -> seq<char>, nfc: seq<char> -> seq<char>)
    requires forall k :: 0 <= k < |nfd(text)| ==> nfd(text)[k] !in ds
    requires nfc(nfd(text)) == text
    ensures RemoveDiacritics(text, ds, nfd, nfc) == text
  {
    WithoutNone(nfd(text), ds);
  }

  /** The canonical decomposition of `word` holds `diacritic`. */
  predicate HasDiacritic(word: seq<char>, diacritic: char, nfd: seq<char> -> seq<char>)
  {
    diacritic in nfd(word)
  }

  /** `RemoveDiacritics` with the acute. */
  function RemoveAcute(text: seq<char>, nfd: seq<char> -> seq<char>,
                       nfc: seq<char> -> seq<char>): seq<char>
  {
    RemoveDiacritics(text, [ACUTE], nfd, nfc)
  }

  /** `RemoveDiacritics` with all seven diacritics. */
  function RemoveAllDiacritics(text: seq<char>, nfd: seq<char> -> seq<char>,
                               nfc: seq<char> -> seq<char>): seq<char>
  {
    RemoveDiacritics(text, DIACRITICS, nfd, nfc)
  }

  // ---------------------------------------------------------------------
  // The last vowel of a syllable

  /** The index of the last character of `s` that satisfies `p`, if any
      (what `rposition` finds). */
  function LastIndexWhere(s: seq<char>, p: char -> bool): (r: Option<nat>)
    ensures r.Some? ==> r.value < |s| && p(s[r.value])
                        && forall k :: r.value < k < |s| ==> !p(s[k])
    ensures r.None? ==> forall k :: 0 <= k < |s| ==> !p(s[k])
  {
    if s == [] then None
    else if p(s[|s| - 1]) then Some(|s| - 1)
    else LastIndexWhere(s[..|s| - 1], p)
  }

  /** `syllable` with `diacritic` composed onto its last vowel; unchanged
      when it has no vowel. */
  function WithDiacriticOnLastVowel(syllable: seq<char>, diacritic: char,
                                    isVowel: char -> bool,
                                    compose: (char, char) -> char): seq<char>
  {
    match LastIndexWhere(syllable, isVowel)
    case None => syllable
    case Some(p) => syllable[p := compose(syllable[p], diacritic)]
  }

  /** Only the last vowel changes, and it does: the length is kept, the
      last vowel becomes its composition with the diacritic, every other
      character stays where it was, and a syllable without a vowel comes
      back unchanged. */
  lemma LastVowelOnlyChanges(syllable: seq<char>, diacritic: char,
                             isVowel: char -> bool, compose: (char, char) -> char)
    ensures var r := WithDiacriticOnLastVowel(syllable, diacritic, isVowel, compose);
            && |r| == |syllable|
            && ((forall k :: 0 <= k < |syllable| ==> !isVowel(syllable[k])) ==> r == syllable)
            && (forall k :: 0 <= k < |syllable| && r[k] != syllable[k] ==>
                  isVowel(syllable[k]) && (forall j :: k < j < |syllable| ==> !isVowel(syllable[j]))
                  && r[k] == compose(syllable[k], diacritic))
            && forall k :: 0 <= k < |syllable| && isVowel(syllable[k])
                           && (forall j :: k < j < |syllable| ==> !isVowel(syllable[j])) ==>
                 r[k] == compose(syllable[k], diacritic)
  {
    var q := LastIndexWhere(syllable, isVowel);
    if q.None? {
      assert WithDiacriticOnLastVowel(syllable, diacritic, isVowel, compose) == syllable;
    }
  }

  /** Adds `diacritic` to the last vowel of `syllable`: finds the vowel
      from the end, then overwrites it with its composition with the
      diacritic. `isVowel` is the vowel test of the modern syllabifier and
      `compose` the canonical composition of a character and a diacritic;
      neither is part of this model. */
  method AddDiacriticAtSyllable(syllable: seq<char>, diacritic: char,
                                isVowel: char -> bool, compose: (char, char) -> char)
    returns (r: seq<char>)
    ensures r == WithDiacriticOnLastVowel(syllable, diacritic, isVowel, compose)
  {
    var chars := syllable;
    var pos: nat := |chars|;
    assert chars[..pos] == chars;
    while pos > 0 && !isVowel(chars[pos - 1])
      invariant pos <= |chars|
      invariant LastIndexWhere(chars, isVowel) == LastIndexWhere(chars[..pos], isVowel)
    {
      assert chars[..pos - 1] == chars[..pos][..pos - 1];
      pos := pos - 1;
    }
    assert pos == 0 ==> chars[..pos] == [];
    if pos > 0 {
      chars := chars[pos - 1 := compose(chars[pos - 1], diacritic)];
    }
    r := chars;
  }

  // ---------------------------------------------------------------------
  // Editing the syllable at a position counted from the end

  /** Joining after replacing one syllable: the syllables before it, the
      replacement, the syllables after it. */
  lemma ConcatReplace(ss: seq<seq<char>>, i: nat, x: seq<char>)
    requires i < |ss|
    ensures Concat(ss[i := x]) == Concat(ss[..i]) + x + Concat(ss[i + 1..])
  {
    var t := ss[i := x];
    assert t == ss[..i] + [x] + ss[i + 1..];
    ConcatAppend(ss[..i] + [x], ss[i + 1..]);
    ConcatAppend(ss[..i], [x]);
    assert Concat([x]) == x by {
      assert [x][..0] == [];
    }
  }

  /** Over a syllabification that joins back to the word, the result of the
      edits below rewrites only the span of syllable `i` in the word: what
      precedes and what follows it is kept verbatim. */
  lemma ReplaceKeepsTheRest(word: seq<char>, ss: seq<seq<char>>, i: nat, x: seq<char>)
    requires i < |ss| && Concat(ss) == word
    ensures var a := |Concat(ss[..i])|;
            && a + |ss[i]| <= |word|
            && Concat(ss[..i]) == word[..a]
            && Concat(ss[i + 1..]) == word[a + |ss[i]|..]
            && Concat(ss[..i]) + x + Concat(ss[i + 1..]) == word[..a] + x + word[a + |ss[i]|..]
  {
    ConcatReplace(ss, i, x);
    ConcatReplace(ss, i, ss[i]);
    assert ss[i := ss[i]] == ss;
  }

  /** The specification of `RemoveDiacriticAt`, for use inside functions:
      `word` with `diacritic` removed from the syllable at position `pos`,
      counted from the end and starting at one; `word` itself when there is
      no such syllable. `syllabify` is the modern syllabifier and
      `removeDiacritics` the removal through canonical decomposition,
      neither part of this model. */
  function DiacriticRemovedAt(word: seq<char>, pos: nat, diacritic: char,
                              syllabify: seq<char> -> seq<seq<char>>,
                              removeDiacritics: (seq<char>, seq<char>) -> seq<char>)
    : (r: seq<char>)
    ensures var ss := syllabify(word);
            if pos == 0 || pos > |ss| then r == word
            else var i := |ss| - pos;
                 r == Concat(ss[..i]) + removeDiacritics(ss[i], [diacritic]) + Concat(ss[i + 1..])
  {
    var ss := syllabify(word);
    if pos == 0 || pos > |ss| then word
    else
      var i := |ss| - pos;
      ConcatReplace(ss, i, removeDiacritics(ss[i], [diacritic]));
      Concat(ss[i := removeDiacritics(ss[i], [diacritic])])
  }

  /** Removes `diacritic` from the syllable at position `pos` of `word` by
      overwriting that syllable, and joins the syllables again. */
  method RemoveDiacriticAt(word: seq<char>, pos: nat, diacritic: char,
                           syllabify: seq<char> -> seq<seq<char>>,
                           removeDiacritics: (seq<char>, seq<char>) -> seq<char>)
    returns (r: seq<char>)
    ensures var ss := syllabify(word);
            if pos == 0 || pos > |ss| then r == word
            else var i := |ss| - pos;
                 r == Concat(ss[..i]) + removeDiacritics(ss[i], [diacritic]) + Concat(ss[i + 1..])
    ensures r == DiacriticRemovedAt(word, pos, diacritic, syllabify, removeDiacritics)
  {
    var syllables := syllabify(word);
    if pos == 0 || pos > |syllables| {
      r := word;
    } else {
      var idx := |syllables| - pos;
      var replaceWith := removeDiacritics(syllables[idx], [diacritic]);
      ConcatReplace(syllables, idx, replaceWith);
      syllables := syllables[idx := replaceWith];
      r := Concat(syllables);
    }
  }

  /** Adds `diacritic` to the last vowel of the syllable at position `pos`
      of `word`, counted from the end and starting at one, and joins the
      syllables again; returns `word` itself when there is no such
      syllable. */
  method AddDiacriticAt(word: seq<char>, pos: nat, diacritic: char,
                        syllabify: seq<char> -> seq<seq<char>>,
                        isVowel: char -> bool, compose: (char, char) -> char)
    returns (r: seq<char>)
    ensures var ss := syllabify(word);
            if pos == 0 || pos > |ss| then r == word
            else var i := |ss| - pos;
                 r == Concat(ss[..i]) + WithDiacriticOnLastVowel(ss[i], diacritic, isVowel, compose)
                      + Concat(ss[i + 1..])
  {
    var syllables := syllabify(word);
    if pos == 0 || pos > |syllables| {
      r := word;
    } else {
      var idx := |syllables| - pos;
      var replaceWith := AddDiacriticAtSyllable(syllables[idx], diacritic, isVowel, compose);
      ConcatReplace(syllables, idx, replaceWith);
      syllables := syllables[idx := replaceWith];
      r := Concat(syllables);
    }
  }

  /** `add_acute_at`: `AddDiacriticAt` with the acute. */
  method AddAcuteAt(word: seq<char>, pos: nat,
                    syllabify: seq<char> -> seq<seq<char>>,
                    isVowel: char -> bool, compose: (char, char) -> char)
    returns (r: seq<char>)
    ensures var ss := syllabify(word);
            if pos == 0 || pos > |ss| then r == word
            else var i := |ss| - pos;
                 r == Concat(ss[..i]) + WithDiacriticOnLastVowel(ss[i], ACUTE, isVowel, compose)
                      + Concat(ss[i + 1..])
  {
    r := AddDiacriticAt(word, pos, ACUTE, syllabify, isVowel, compose);
  }
}
