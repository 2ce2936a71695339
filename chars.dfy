/** Character classification for Greek text: the two Unicode Greek blocks,
    letters versus the marks those blocks also hold, Greek words, the
    lowercase base letter of a character, and the vowel skeleton of a
    syllable with its diphthong ending. */
module Chars {

  /** The "Greek and Coptic" block, U+0370 to U+03FF. */
  predicate IsGreekAndCopticChar(ch: char)
  {
    '\U{0370}' <= ch <= '\U{03FF}'
  }

  /** The "Greek Extended" block, U+1F00 to U+1FFF. */
  predicate IsGreekExtendedChar(ch: char)
  {
    '\U{1F00}' <= ch <= '\U{1FFF}'
  }

  /** Either Greek block, marks and punctuation included. */
  predicate IsGreekChar(ch: char)
  {
    IsGreekAndCopticChar(ch) || IsGreekExtendedChar(ch)
  }

  /** The non-alphabetic characters of the two Greek blocks: numeral sign,
      question mark, tonos, dialytika tonos, ano teleia and the reversed
      lunate epsilon symbol of "Greek and Coptic"; koronis, psili,
      perispomeni, dasia, varia, oxia and their combinations of
      "Greek Extended". */
  const NON_ALPHABETIC_GREEK: set<char> := {
    '\U{0375}', '\U{037E}', '\U{0384}', '\U{0385}', '\U{0387}', '\U{03F6}',
    '\U{1FBD}', '\U{1FBF}', '\U{1FC0}', '\U{1FC1}', '\U{1FCD}', '\U{1FCE}',
    '\U{1FCF}', '\U{1FDD}', '\U{1FDE}', '\U{1FDF}', '\U{1FED}', '\U{1FEE}',
    '\U{1FEF}', '\U{1FFD}', '\U{1FFE}'
  }

  /** A character of the Greek blocks that is not one of their marks. */
  predicate IsGreekLetter(ch: char)
    ensures IsGreekLetter(ch) <==> IsGreekChar(ch) && ch !in NON_ALPHABETIC_GREEK
  {
    match ch
    case '\U{0375}' | '\U{037E}' | '\U{0384}' | '\U{0385}' | '\U{0387}' | '\U{03F6}' | '\U{1FBD}'
      | '\U{1FBF}' | '\U{1FC0}' | '\U{1FC1}' | '\U{1FCD}' | '\U{1FCE}' | '\U{1FCF}'
      | '\U{1FDD}' | '\U{1FDE}' | '\U{1FDF}' | '\U{1FED}' | '\U{1FEE}' | '\U{1FEF}'
      | '\U{1FFD}' | '\U{1FFE}' => false
    case _ => IsGreekChar(ch)
  }

  /** The modifier letter apostrophe U+02BC, the one apostrophe that Unicode
      counts as alphabetic. */
  const MODIFIER_APOSTROPHE: char := '\U{02BC}'

  /** A character a Greek word may hold: Greek, the modifier apostrophe, or
      anything that is not alphabetic. `isAlphabetic` stands for Unicode's
      Alphabetic property. */
  predicate IsGreekWordChar(ch: char, isAlphabetic: char -> bool)
  {
    IsGreekChar(ch) || ch == MODIFIER_APOSTROPHE || !isAlphabetic(ch)
  }

  /** A word all of whose characters may occur in Greek text. */
  predicate IsGreekWord(s: seq<char>, isAlphabetic: char -> bool)
    ensures IsGreekWord(s, isAlphabetic) <==>
              forall i :: 0 <= i < |s| ==> IsGreekWordChar(s[i], isAlphabetic)
  {
    s == [] || (IsGreekWordChar(s[0], isAlphabetic) && IsGreekWord(s[1..], isAlphabetic))
  }

  /** Whatever counts as alphabetic, "ὑπ" followed by any of the three usual
      apostrophes is a Greek word, provided the first two apostrophes are not
      alphabetic (true of Unicode). */
  lemma ElidedHypoIsGreek(isAlphabetic: char -> bool, apostrophe: char)
    requires apostrophe in {'\U{0027}', '\U{2019}', MODIFIER_APOSTROPHE}
    requires !isAlphabetic('\U{0027}') && !isAlphabetic('\U{2019}')
    ensures IsGreekWord(['ὑ', 'π', apostrophe], isAlphabetic)
  {
    assert IsGreekWordChar(apostrophe, isAlphabetic);
  }

  // ---------------------------------------------------------------------
  // Vowel skeleton and diphthong endings

  /** The lowercase and uppercase consonants of the modern alphabet. */
  const CONSONANTS: set<char> := {
    'β', 'γ', 'δ', 'ζ', 'θ', 'κ', 'λ', 'μ', 'ν', 'ξ', 'π', 'ρ', 'σ', 'ς', 'τ', 'φ', 'χ', 'ψ',
    'Β', 'Γ', 'Δ', 'Ζ', 'Θ', 'Κ', 'Λ', 'Μ', 'Ν', 'Ξ', 'Π', 'Ρ', 'Σ', 'Τ', 'Φ', 'Χ', 'Ψ'
  }

  /** `s` with every listed consonant removed, the rest in order. */
  function ExtractVowels(s: seq<char>): (r: seq<char>)
    ensures |r| <= |s|
    ensures forall i :: 0 <= i < |r| ==> r[i] !in CONSONANTS
  {
    if s == [] then []
    else (if s[0] in CONSONANTS then [] else [s[0]]) + ExtractVowels(s[1..])
  }

  /** Filtering distributes over concatenation: together with the one-character
      case this says `ExtractVowels` keeps exactly the non-consonants, in order. */
  lemma {:induction false} ExtractVowelsAppend(a: seq<char>, b: seq<char>)
    ensures ExtractVowels(a + b) == ExtractVowels(a) + ExtractVowels(b)
    decreases |a|
  {
    if a == [] {
      assert a + b == b;
    } else {
      assert (a + b)[1..] == a[1..] + b;
      ExtractVowelsAppend(a[1..], b);
    }
  }

  /** The accented vowel pairs, lowercase and capitalised, that make a
      diphthong at the end of a word. */
  const DIPHTHONG_ENDINGS: seq<seq<char>> := [
    "όι", "Όι", "έι", "Έι", "άι", "Άι", "όυ", "Όυ", "έυ", "Έυ", "άυ", "Άυ"
  ]

  predicate EndsWith(s: seq<char>, suffix: seq<char>)
  {
    |suffix| <= |s| && s[|s| - |suffix|..] == suffix
  }

  /** The vowels of `s` end with one of the diphthong endings; trailing
      consonants do not matter (Κάιν). */
  predicate EndsWithDiphthong(s: seq<char>)
  {
    var vowels := ExtractVowels(s);
    exists i :: 0 <= i < |DIPHTHONG_ENDINGS| && EndsWith(vowels, DIPHTHONG_ENDINGS[i])
  }

  /** Consonants after the vowels do not change the verdict. */
  lemma TrailingConsonantIgnored(s: seq<char>, c: char)
    requires c in CONSONANTS
    ensures EndsWithDiphthong(s + [c]) == EndsWithDiphthong(s)
  {
    ExtractVowelsAppend(s, [c]);
    assert ExtractVowels([c]) == [];
    assert ExtractVowels(s) + [] == ExtractVowels(s);
  }

  /** Whatever precedes a word ending in a diphthong, the longer word still
      ends in one. */
  lemma DiphthongEndingKeptUnderPrefix(p: seq<char>, s: seq<char>)
    requires EndsWithDiphthong(s)
    ensures EndsWithDiphthong(p + s)
  {
    ExtractVowelsAppend(p, s);
    var v, w := ExtractVowels(s), ExtractVowels(p + s);
    var i :| 0 <= i < |DIPHTHONG_ENDINGS| && EndsWith(v, DIPHTHONG_ENDINGS[i]);
    var d := DIPHTHONG_ENDINGS[i];
    assert w[|w| - |d|..] == v[|v| - |d|..];
    assert EndsWith(w, d);
  }

  // ---------------------------------------------------------------------
  // Lowercase base letter

  /** The lowercase base letter of `ch`: its first canonical decomposition
      element, lowercased, for the two Greek blocks; `ch` itself elsewhere. */
  function BaseLower(ch: char): (r: char)
    ensures !IsGreekChar(ch) ==> r == ch
    ensures 'α' <= ch <= 'ω' ==> r == ch
  {
    if IsGreekAndCopticChar(ch) then BaseLowerGc(ch)
    else if IsGreekExtendedChar(ch) then BaseLowerGe(ch)
    else ch
  }

  /** `BaseLower` on the "Greek and Coptic" block. Leaves ';', '·', 'Ϊ',
      'Ϋ', 'ϓ' and 'ϔ' alone. */
  function BaseLowerGc(ch: char): char
  {
    if '\U{03B1}' <= ch <= '\U{03C9}' then ch
    else
      match ch as int
      case 0x03AC => 'α'  // ά
      case 0x03AD => 'ε'  // έ
      case 0x03AF => 'ι'  // ί
      case 0x03AE => 'η'  // ή
      case 0x03CC => 'ο'  // ό
      case 0x03CD => 'υ'  // ύ
      case 0x03CE => 'ω'  // ώ
      case 0x0391 => 'α'  // Α
      case 0x0392 => 'β'  // Β
      case 0x0393 => 'γ'  // Γ
      case 0x0394 => 'δ'  // Δ
      case 0x0395 => 'ε'  // Ε
      case 0x0396 => 'ζ'  // Ζ
      case 0x0397 => 'η'  // Η
      case 0x0398 => 'θ'  // Θ
      case 0x0399 => 'ι'  // Ι
      case 0x039A => 'κ'  // Κ
      case 0x039B => 'λ'  // Λ
      case 0x039C => 'μ'  // Μ
      case 0x039D => 'ν'  // Ν
      case 0x039E => 'ξ'  // Ξ
      case 0x039F => 'ο'  // Ο
      case 0x03A0 => 'π'  // Π
      case 0x03A1 => 'ρ'  // Ρ
      case 0x03A3 => 'σ'  // Σ
      case 0x03A4 => 'τ'  // Τ
      case 0x03A5 => 'υ'  // Υ
      case 0x03A6 => 'φ'  // Φ
      case 0x03A7 => 'χ'  // Χ
      case 0x03A8 => 'ψ'  // Ψ
      case 0x03A9 => 'ω'  // Ω
      case 0x0386 => 'α'  // Ά
      case 0x0388 => 'ε'  // Έ
      case 0x038A => 'ι'  // Ί
      case 0x0389 => 'η'  // Ή
      case 0x038C => 'ο'  // Ό
      case 0x038E => 'υ'  // Ύ
      case 0x038F => 'ω'  // Ώ
      case 0x03CA | 0x0390 => 'ι'  // ϊ ΐ
      case 0x03CB | 0x03B0 => 'υ'  // ϋ ΰ
      case 0x0374 => '\U{02B9}'
      case 0x0385 => '\U{00A8}'
      case _ => ch
  }

  /** `BaseLower` on the "Greek Extended" block. */
  function BaseLowerGe(ch: char): char
  {
    match ch as int
    case 0x1F00 | 0x1F01 | 0x1F02 | 0x1F03 | 0x1F04 | 0x1F05 | 0x1F06 | 0x1F07  // ἀ ἁ ἂ ἃ ἄ ἅ ἆ ἇ
      | 0x1F08 | 0x1F09 | 0x1F0A | 0x1F0B | 0x1F0C | 0x1F0D | 0x1F0E | 0x1F0F  // Ἀ Ἁ Ἂ Ἃ Ἄ Ἅ Ἆ Ἇ
      | 0x1F70 | 0x1F71 | 0x1F80 | 0x1F81 | 0x1F82 | 0x1F83 | 0x1F84 | 0x1F85  // ὰ ᾀ ᾁ ᾂ ᾃ ᾄ ᾅ
      | 0x1F86 | 0x1F87 | 0x1F88 | 0x1F89 | 0x1F8A | 0x1F8B | 0x1F8C | 0x1F8D  // ᾆ ᾇ ᾈ ᾉ ᾊ ᾋ ᾌ ᾍ
      | 0x1F8E | 0x1F8F | 0x1FB0 | 0x1FB1 | 0x1FB2 | 0x1FB3 | 0x1FB4 | 0x1FB6  // ᾎ ᾏ ᾰ ᾱ ᾲ ᾳ ᾴ ᾶ
      | 0x1FB7 | 0x1FB8 | 0x1FB9 | 0x1FBA | 0x1FBB | 0x1FBC  // ᾷ Ᾰ Ᾱ Ὰ ᾼ
      => 'α'
    case 0x1F10 | 0x1F11 | 0x1F12 | 0x1F13 | 0x1F14 | 0x1F15 | 0x1F18 | 0x1F19  // ἐ ἑ ἒ ἓ ἔ ἕ Ἐ Ἑ
      | 0x1F1A | 0x1F1B | 0x1F1C | 0x1F1D | 0x1F72 | 0x1F73 | 0x1FC8 | 0x1FC9  // Ἒ Ἓ Ἔ Ἕ ὲ Ὲ
      => 'ε'
    case 0x1F20 | 0x1F21 | 0x1F22 | 0x1F23 | 0x1F24 | 0x1F25 | 0x1F26 | 0x1F27  // ἠ ἡ ἢ ἣ ἤ ἥ ἦ ἧ
      | 0x1F28 | 0x1F29 | 0x1F2A | 0x1F2B | 0x1F2C | 0x1F2D | 0x1F2E | 0x1F2F  // Ἠ Ἡ Ἢ Ἣ Ἤ Ἥ Ἦ Ἧ
      | 0x1F74 | 0x1F75 | 0x1F90 | 0x1F91 | 0x1F92 | 0x1F93 | 0x1F94 | 0x1F95  // ὴ ᾐ ᾑ ᾒ ᾓ ᾔ ᾕ
      | 0x1F96 | 0x1F97 | 0x1F98 | 0x1F99 | 0x1F9A | 0x1F9B | 0x1F9C | 0x1F9D  // ᾖ ᾗ ᾘ ᾙ ᾚ ᾛ ᾜ ᾝ
      | 0x1F9E | 0x1F9F | 0x1FC2 | 0x1FC3 | 0x1FC4 | 0x1FC6 | 0x1FC7 | 0x1FCA  // ᾞ ᾟ ῂ ῃ ῄ ῆ ῇ Ὴ
      | 0x1FCB | 0x1FCC  // ῌ
      => 'η'
    case 0x1F30 | 0x1F31 | 0x1F32 | 0x1F33 | 0x1F34 | 0x1F35 | 0x1F36 | 0x1F37  // ἰ ἱ ἲ ἳ ἴ ἵ ἶ ἷ
      | 0x1F38 | 0x1F39 | 0x1F3A | 0x1F3B | 0x1F3C | 0x1F3D | 0x1F3E | 0x1F3F  // Ἰ Ἱ Ἲ Ἳ Ἴ Ἵ Ἶ Ἷ
      | 0x1F76 | 0x1F77 | 0x1FBE | 0x1FD0 | 0x1FD1 | 0x1FD2 | 0x1FD3 | 0x1FD6  // ὶ ῐ ῑ ῒ ῖ
      | 0x1FD7 | 0x1FD8 | 0x1FD9 | 0x1FDA | 0x1FDB  // ῗ Ῐ Ῑ Ὶ
      => 'ι'
    case 0x1F40 | 0x1F41 | 0x1F42 | 0x1F43 | 0x1F44 | 0x1F45 | 0x1F48 | 0x1F49  // ὀ ὁ ὂ ὃ ὄ ὅ Ὀ Ὁ
      | 0x1F4A | 0x1F4B | 0x1F4C | 0x1F4D | 0x1F78 | 0x1F79 | 0x1FF8 | 0x1FF9  // Ὂ Ὃ Ὄ Ὅ ὸ Ὸ
      => 'ο'
    case 0x1FE4 | 0x1FE5 | 0x1FEC => 'ρ'  // ῤ ῥ Ῥ
    case 0x1F50 | 0x1F51 | 0x1F52 | 0x1F53 | 0x1F54 | 0x1F55 | 0x1F56 | 0x1F57  // ὐ ὑ ὒ ὓ ὔ ὕ ὖ ὗ
      | 0x1F59 | 0x1F5B | 0x1F5D | 0x1F5F | 0x1F7A | 0x1F7B | 0x1FE0 | 0x1FE1  // Ὑ Ὓ Ὕ Ὗ ὺ ῠ ῡ
      | 0x1FE2 | 0x1FE3 | 0x1FE6 | 0x1FE7 | 0x1FE8 | 0x1FE9 | 0x1FEA | 0x1FEB  // ῢ ῦ ῧ Ῠ Ῡ Ὺ
      => 'υ'
    case 0x1F60 | 0x1F61 | 0x1F62 | 0x1F63 | 0x1F64 | 0x1F65 | 0x1F66 | 0x1F67  // ὠ ὡ ὢ ὣ ὤ ὥ ὦ ὧ
      | 0x1F68 | 0x1F69 | 0x1F6A | 0x1F6B | 0x1F6C | 0x1F6D | 0x1F6E | 0x1F6F  // Ὠ Ὡ Ὢ Ὣ Ὤ Ὥ Ὦ Ὧ
      | 0x1F7C | 0x1F7D | 0x1FA0 | 0x1FA1 | 0x1FA2 | 0x1FA3 | 0x1FA4 | 0x1FA5  // ὼ ᾠ ᾡ ᾢ ᾣ ᾤ ᾥ
      | 0x1FA6 | 0x1FA7 | 0x1FA8 | 0x1FA9 | 0x1FAA | 0x1FAB | 0x1FAC | 0x1FAD  // ᾦ ᾧ ᾨ ᾩ ᾪ ᾫ ᾬ ᾭ
      | 0x1FAE | 0x1FAF | 0x1FF2 | 0x1FF3 | 0x1FF4 | 0x1FF6 | 0x1FF7 | 0x1FFA  // ᾮ ᾯ ῲ ῳ ῴ ῶ ῷ Ὼ
      | 0x1FFB | 0x1FFC  // ῼ
      => 'ω'
    case 0x1FEF => '\U{0060}'
    case 0x1FC1 | 0x1FED | 0x1FEE => '\U{00A8}'
    case 0x1FFD => '\U{00B4}'
    case 0x1FCD | 0x1FCE | 0x1FCF => '\U{1FBF}'
    case 0x1FDD | 0x1FDE | 0x1FDF => '\U{1FFE}'
    case _ => ch
  }
}
