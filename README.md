# grac core in Dafny

A model of the core of `grac`, a Rust library for Greek text. The model covers five parts:

- **`Syllabify`**: the syllable scanner (`syllabify`) and its reference three-state scanner (`syllabify_ref`). A word is given as its characters. Syllables come back as UTF-8 byte strings, sliced out of the word's encoding. The scanner is modelled as written and also with a corrected onset (`SyllabifyKept`), which never takes a combining rough breathing away from the vowel before it (see Findings). The rest of the model uses the corrected cut.
- **`Chars`**: the character classifiers. These are the Greek blocks, Greek letters, Greek words, the lowercase base letter table (`base_lower`), the vowel skeleton and the test for a diphthong ending.
- **`Macros`, `StrLayout`, `Uppercase`, `Utf8`**: the compile-time string-array builders behind `conc!`, `expand!` and `with_capitalized!`. Each one copies byte strings into a flat buffer `mem` and records each string's `(start, end)` in `indices`. `Uppercase` models the byte-pair uppercase table.
- **`Monotonic`**: the conversion of one polytonic word to monotonic spelling. This covers the split into punctuation and core, the fixed replacements, and the acute rule chosen by syllable count.
- **`Accents`**: the diacritic constants and the positional syllable edits `remove_diacritic_at`, `add_diacritic_at` and `add_diacritic_at_syllable`.

The model takes the source's own form:

- The scanner's cursor loops (`move_coda`, `move_nucleus`, `move_onset`, `syllabify`, `syllabify_ref`) are methods with `while` loops.
- Each loop method is proved equal to a function that gives the cut points directly (`CodaStart`, `NucleusFrom`, `OnsetFrom`, `SyllableStart`, `Syllables`, and `OnsetFromKept`, `SyllableStartKept`, `SyllablesKept` for the corrected onset). The properties are proved about those functions.
- The buffer builders are methods over `array<byte>` and `array<Span>`. They are proved against `Concat` of the list they lay out, and against the predicate `Spans`, which says that each `(start, end)` delimits its string.
- The pure parts (`Chars`, `Monotonic`, the uppercase table) are functions and lemmas.

Unicode services are parameters:

- **Alphabetic property:** `isAlphabetic`.
- **Normalization:** canonical decomposition `nfd` and composition `nfc`.
- **Syllabifier for `remove_diacritic_at` and `add_diacritic_at`:** the modern syllabifier `syllabify_el`, passed in as a parameter.
- **Vowel test and composition for `add_diacritic_at_syllable`:** `is_vowel_el` and the per-character composition, both passed in as parameters.

The files are:

- `wrappers.dfy`, `seqs.dfy` and `utf8.dfy`: shared helpers. `utf8.dfy` holds the encoding of section 3 of RFC 3629 and well-formedness per section 4.
- `chars.dfy`, `syllabify.dfy`, `uppercase.dfy`, `strlayout.dfy`, `macros.dfy`, `accents.dfy` and `monotonic.dfy`: the core.
- `*_examples.dfy`: the inputs from the source's documentation and tests, worked through by the model.

## Model

| member | source | states |
|---|---|---|
| Syllabify.IsVowel | src/syllabify.rs:37-39 | a character is a vowel when its lowercase base letter is one of α ο ε ι η υ ω, the tilde or the combining acute |
| Syllabify.IsConsonantCluster | src/syllabify.rs:41-49 | a slice starts a cluster when it has at least two characters and the base letters of its first two are a listed pair |
| Syllabify.IsDiphthong | src/syllabify.rs:51-59 | a slice is a diphthong when it has exactly two characters whose base letters are a listed pair and the second has no diaeresis |
| Syllabify.CodaStart | src/syllabify.rs:90-94 | the coda starts where the run of non-vowels ending at the cursor starts: it steps back over every non-vowel and stops at a vowel or at the word start |
| Syllabify.CodaStartIsCoda | src/syllabify.rs:90-94 | the coda start has only non-vowels between it and the cursor, and a vowel (or the word start) right before it |
| Syllabify.NucleusFrom | src/syllabify.rs:96-114 | the nucleus start never passes the end of the nucleus, and is strictly before it when the scan starts before it |
| Syllabify.NucleusFromIsNucleus | src/syllabify.rs:96-114 | the nucleus absorbs only vowels and rough breathings, ends past the cursor only to give a lone iota after a diphthong its own syllable, and never starts at an acute or rough mark that follows a vowel or rough breathing |
| Syllabify.OnsetFrom | src/syllabify.rs:116-124 | the onset start is at or before the cursor |
| Syllabify.OnsetFromIsOnset | src/syllabify.rs:116-124 | every character of the onset is a non-vowel and every adjacent pair in it is a consonant cluster |
| Syllabify.OnsetFromIsMaximal | src/syllabify.rs:116-124 | the onset stops only at the word start, at a vowel, or before a pair that is not a cluster |
| Syllabify.ClusterSlice | src/syllabify.rs:41-49 | the slice test on `w[i..j]` holds exactly when the pair at `i` is a cluster |
| Syllabify.SyllableStart | src/syllabify.rs:74-88 | a syllable ending at `p > 0` starts strictly before `p` |
| Syllabify.Syllables | src/syllabify.rs:61-72 | the word's syllables, from the right: each one ends where the one after it starts |
| Syllabify.SyllablesPartition | src/syllabify.rs:61-88 | the syllables concatenate back to the word, none is empty, and there are none exactly for the empty word |
| Syllabify.NoVowelOneSyllable | src/syllabify.rs:90-94 | a non-empty word without a vowel is one syllable, the whole word |
| Syllabify.AcuteStaysWithVowel | src/syllabify.rs:96-114 | no syllable begins with a combining acute when the previous syllable ends in a vowel |
| Syllabify.AcuteNotAfterVowelAt | src/syllabify.rs:96-114 | a syllable start that follows a vowel is never a combining acute |
| Syllabify.OnsetFromKept | src/syllabify.rs:116-124 | the corrected onset start is at or before the cursor |
| Syllabify.OnsetKeptAsWritten | src/syllabify.rs:116-124 | the corrected onset is the onset as written, except that it is empty when the character before the nucleus is a rough breathing that follows a vowel |
| Syllabify.OnsetKeptInside | src/syllabify.rs:116-124 | from inside the onset the corrected and the as-written onset start at the same place, since no cluster contains the rough breathing |
| Syllabify.OnsetKeptFirst | src/syllabify.rs:116-124 | the first character of a non-empty corrected onset is neither a vowel nor a rough breathing that follows a vowel |
| Syllabify.SyllableStartKept | src/syllabify.rs:74-88 | with the corrected onset, a syllable ending at `p > 0` starts strictly before `p` |
| Syllabify.SyllablesKept | src/syllabify.rs:61-72 | the corrected scanner's syllables: cut from the right end with the corrected onset, one syllable per cut, and returned in word order |
| Syllabify.SyllablesKeptPartition | src/syllabify.rs:61-88 | the corrected syllables concatenate back to the word, none is empty, and there are none exactly for the empty word |
| Syllabify.KeptAgreesWithoutRough | src/syllabify.rs:116-124 | on a word without U+0314 the corrected and the as-written scanner give the same syllables |
| Syllabify.MarksStayWithVowel | src/syllabify.rs:96-114 | with the corrected onset, no syllable begins with a combining acute or a rough breathing when the previous syllable ends in a vowel |
| Syllabify.MarkNotAfterVowelAt | src/syllabify.rs:96-114 | a corrected syllable start that follows a vowel is neither a combining acute nor a rough breathing |
| Syllabify.MoveCoda | src/syllabify.rs:90-94 | the loop moves the cursor to the coda start: only non-vowels are skipped, and it stops after a vowel or at 0 |
| Syllabify.MoveNucleus | src/syllabify.rs:96-114 | the loop moves the cursor to the nucleus start, over nucleus characters only |
| Syllabify.MoveOnset | src/syllabify.rs:116-124 | the loop moves the cursor to the onset start: all pairs passed are clusters, and it stops at a vowel, at 0 or before a non-cluster |
| Syllabify.MoveOnsetKept | src/syllabify.rs:116-124 | the corrected loop moves the cursor to the corrected onset start, which is the as-written one unless a rough breathing after a vowel ends the nucleus |
| Syllabify.ParseSyllable | src/syllabify.rs:74-88 | returns None exactly at position 0; otherwise its result is the encoding of the syllable's characters and the cursor strictly decreases |
| Syllabify.ParseSyllableKept | src/syllabify.rs:74-88 | the same with the corrected onset |
| Syllabify.Syllabify | src/syllabify.rs:61-72 | the byte syllables are the encodings of `Syllables`, join into the word's encoding, are non-empty, and are empty only for the empty word |
| Syllabify.SyllabifyKept | src/syllabify.rs:61-72 | the same for the corrected scanner and `SyllablesKept` |
| Syllabify.SyllabifyStep | src/syllabify.rs:66-68 | pushing the syllable `chars[next..pos]` keeps the loop's account of the syllables still to come |
| Syllabify.EncodedPartition | src/syllabify.rs:61-88 | encoding a partition of the word into non-empty pieces gives non-empty byte pieces that join to the encoded word |
| Utf8.ConcatEncodeAll | src/syllabify.rs:74-88 | encoding each syllable and joining gives the encoding of the joined syllables |
| Syllabify.Dump | src/syllabify.rs:129-139 | appends the encoding of `chars[fr..to]` |
| Syllabify.DumpMove | src/syllabify.rs:142-151 | appends the encoding of `chars[fr..to]` and moves `to` to `fr` |
| Syllabify.RefStep | src/syllabify.rs:153-203 | one step of the reference scanner keeps its bounds and either keeps the pending syllable or emits `w[to'..to]` |
| Syllabify.RefRun | src/syllabify.rs:159-201 | the reference loop run from `fr = i - 1` down to 0, then the pending `w[0..to]` dumped when `to > 0`, and the collected syllables reversed |
| Syllabify.RefSyllables | src/syllabify.rs:153-203 | the reference scanner's syllables: the run over the whole word from state 0 with `to` at the word's end and nothing collected |
| Syllabify.RefRead | src/syllabify.rs:160-194 | the loop body on bytes computes the state, `to` and output of `RefStep` |
| Syllabify.SyllabifyRef | src/syllabify.rs:153-203 | the reference scanner's byte syllables join into the word's encoding and are non-empty; they equal the corrected scanner's when every rough breathing follows a vowel, and the as-written scanner's on every word without U+0314 |
| Syllabify.RefPartition | src/syllabify.rs:153-203 | the reference syllables concatenate to the word and are non-empty, on every word |
| Syllabify.RefAgreesWithKept | src/syllabify.rs:153-203 | on every word whose rough breathings all follow a vowel, the reference scanner cuts exactly where the corrected scanner does |
| Syllabify.RefAgreesWithoutRough | tests/tests.rs:600-614 | on a word without U+0314 (the words the equality tests draw) the reference scanner cuts exactly where the scanner as written does |
| Syllabify.RefDisagreesOnRough | src/syllabify.rs:116-124 | on alpha, U+0314, epsilon the scanner as written gives α / ̔ε, splitting the vowel from its breathing, while the reference and the corrected scanner give ἁ / ε |
| Syllabify.SimRun | src/syllabify.rs:153-203 | from any state in step with the corrected scanner, the reference run yields the corrected scanner's syllables |
| Syllabify.SimStep | src/syllabify.rs:160-194 | one reference step keeps the reference state in step with the corrected scanner's cut points |
| SyllabifyExamples.Kosmos | tests/tests.rs:96 | κόσμος is cut κό-σμος |
| SyllabifyExamples.Andras | tests/tests.rs:89 | άνδρας is cut άν-δρας |
| SyllabifyExamples.Stres | src/syllabify.rs:209-217 | στρες is one syllable |
| SyllabifyExamples.Fyo | tests/tests.rs:86 | φῡ́ω is cut φῡ́-ω, the combining acute staying with its vowel |
| SyllabifyExamples.Aroui | tests/tests.rs:90 | ἄρουι is cut ἄ-ρου-ι |
| SyllabifyExamples.Achaiia | tests/tests.rs:92 | Ἀχαιιά is cut Ἀ-χαι-ι-ά |
| SyllabifyExamples.Gynaikos | tests/tests.rs:85 | γυναικός is cut γυ-ναι-κός |
| SyllabifyExamples.DiphthongExamples | src/syllabify.rs:219-225 | αι is a diphthong; ιαι, αε and αϋ are not |
| SyllabifyExamples.RoughAfterConsonant | src/syllabify.rs:162-179 | on kappa, U+0314, epsilon the reference scanner gives κ̔ / ε and both scanners κ / ̔ε |
| SyllabifyExamples.DecomposedRho | src/syllabify.rs:116-124 | on α, ρ, U+0314, ε (a decomposed αῥε) the scanner gives αρ / ̔ε and the reference scanner α / ῥ / ε, neither of them α / ῥε |
| Chars.IsGreekAndCopticChar | src/chars.rs:22-24 | a character is in the Greek and Coptic block exactly when it lies in U+0370..U+03FF |
| Chars.IsGreekExtendedChar | src/chars.rs:45-47 | a character is in the Greek Extended block exactly when it lies in U+1F00..U+1FFF |
| Chars.IsGreekChar | src/chars.rs:54-56 | a Greek character is one of either block, marks and punctuation included |
| Chars.IsGreekLetter | src/chars.rs:63-71 | a Greek letter is exactly a character of the Greek blocks that is not one of the 21 listed marks |
| Chars.IsGreekWordChar | src/chars.rs:84-85 | a character may occur in a Greek word when it is Greek, the modifier apostrophe U+02BC, or not alphabetic |
| Chars.IsGreekWord | src/chars.rs:82-86 | a word is Greek exactly when each character is Greek, the modifier apostrophe, or non-alphabetic |
| Chars.ElidedHypoIsGreek | src/chars.rs:295-310 | ὑπ followed by U+0027, U+2019 or U+02BC is a Greek word |
| Chars.ExtractVowels | src/chars.rs:111-119 | the result holds no listed consonant and is no longer than the input |
| Chars.ExtractVowelsAppend | src/chars.rs:111-119 | the filter distributes over concatenation, so it keeps exactly the non-consonants in order |
| Chars.EndsWithDiphthong | src/chars.rs:101-108 | a word ends in a diphthong when its vowel skeleton ends with one of the twelve listed accented diphthongs |
| Chars.TrailingConsonantIgnored | src/chars.rs:101-108 | a consonant appended to a word does not change whether it ends in a diphthong |
| Chars.DiphthongEndingKeptUnderPrefix | src/chars.rs:101-108 | a word ending in a diphthong still does so with anything in front of it |
| Chars.BaseLower | src/chars.rs:142-150 | identity outside the two Greek blocks and on α to ω |
| Chars.BaseLowerGc | src/chars.rs:155-212 | the match arms of `base_lower_gc`: α to ω unchanged; the lowercase and uppercase vowels with tonos and the 24 uppercase letters sent to their lowercase base letter; ϊ and ΐ to ι, ϋ and ΰ to υ; U+0385 to U+00A8; every other character (`;`, `·`, Ϊ, Ϋ, ϓ, ϔ among them) unchanged |
| Chars.BaseLowerGe | src/chars.rs:215-249 | the match arms of `base_lower_ge`: every form of α ε η ι ο υ ω with breathing, accent, length mark or iota subscript, and ῤ ῥ Ῥ, sent to its lowercase base letter; the spacing marks combined with a dialytika, a psili or a dasia sent to that plain mark; every other character unchanged |
| CharsExamples.BaseLowerShape | src/chars.rs:155-249 | every character maps to itself, a lowercase base letter or a listed spacing mark |
| CharsExamples.BaseLowerIdempotent | src/chars.rs:142-249 | applying the table twice is applying it once |
| CharsExamples.BaseMarksFixed | src/chars.rs:155-249 | the spacing marks map to themselves |
| CharsExamples.BaseLowerTonos | src/chars.rs:197 | Ά maps to α |
| CharsExamples.BaseLowerDialytikaTonos | src/chars.rs:206 | ΐ maps to ι |
| CharsExamples.BaseLowerPerispomeniYpogegrammeni | src/chars.rs:237-241 | ῷ maps to ω |
| CharsExamples.BaseLowerDasia | src/chars.rs:234 | Ῥ maps to ρ |
| CharsExamples.KainEndsWithDiphthong | src/chars.rs:97-99 | Κάιν ends in a diphthong |
| CharsExamples.PlaiEndsWithDiphthong | src/chars.rs:97-99 | πλάι ends in a diphthong |
| CharsExamples.GaidarosVowels | src/chars.rs:111-119 | the vowels of γάιδαρος are άιαο |
| CharsExamples.GaidarosDoesNotEndWithDiphthong | src/chars.rs:97-99 | γάιδαρος does not end in a diphthong |
| CharsExamples.KalimeraIsGreek | src/chars.rs:295-310 | καλημέρα is a Greek word whatever counts as alphabetic |
| Utf8.CharLen | src/syllabify.rs:74-88 | a code point takes 1 to 4 bytes, and 1 exactly below U+0080 |
| Utf8.EncodeAppend | src/syllabify.rs:74-88 | the encoding of a concatenation is the concatenation of the encodings |
| Utf8.SliceAtByteOffsets | src/syllabify.rs:74-88 | the bytes between the byte offsets of `i` and `j` are the encoding of `s[i..j]` |
| Utf8.EncodeValid | src/macros.rs:215-230 | every encoded string is well-formed UTF-8 |
| Utf8.ValidAppend | src/macros.rs:215-230 | well-formed UTF-8 strings concatenate to well-formed UTF-8 |
| Uppercase.ToUppercaseGrBytes | src/macros.rs:244-279 | only a lead byte 206 or 207 with a continuation byte is mapped, and always to a 206-led pair |
| Uppercase.UppercaseTable | src/macros.rs:244-279 | each of the 32 listed lowercase letters has its 2-byte encoding mapped to that of its uppercase letter, σ and ς both to Σ |
| Uppercase.Capitalized | src/macros.rs:113-130 | the capitalized string keeps its length and every byte after the first two |
| Uppercase.CapitalizedWord | src/macros.rs:113-130 | capitalizing the encoding of a word that starts with a listed letter gives the encoding of the word with that letter uppercased |
| Uppercase.CapitalizedValid | src/macros.rs:113-130 | capitalizing keeps a string well-formed UTF-8 |
| Macros.CopyBytes | src/macros.rs:103-110 | `mem[k..k+|x|]` becomes `x`, `k` advances by `|x|`, and every other cell is unchanged |
| Macros.CopyBytesCapitalized | src/macros.rs:113-130 | the same with the capitalized `x` |
| Macros.StrArrCapacity | src/macros.rs:204-213 | the capacity is the total byte length of the strings |
| Macros.ConcPopulateMem | src/macros.rs:151-174 | the buffer starts with the strings of `x ++ y` laid end to end, its other cells are unchanged, and each index pair delimits its string |
| Macros.WithCapitalized | src/macros.rs:44-57 | entry `2i` is `x[i]` and entry `2i+1` its capitalization |
| Macros.WithCapitalizedBytes | src/macros.rs:132-149 | the doubled list takes twice the bytes |
| Macros.WithCapitalizedPopulateMem | src/macros.rs:132-149 | the buffer starts with each string followed by its capitalization, and the first `2|x|` index pairs delimit them |
| Macros.Product | src/macros.rs:18-31 | the product of `x` and `y` has `|x| * |y|` entries |
| Macros.Row | src/macros.rs:177-198 | entry `j` of a row is `a ++ y[j]` |
| Macros.ProductRow | src/macros.rs:177-198 | entry `i*|y|+j` of the product is `x[i] ++ y[j]`, row-major |
| Macros.ProductBytes | src/macros.rs:200-202 | the product takes `cap(x)*|y| + |x|*cap(y)` bytes |
| Macros.CartesianProductCapacity | src/macros.rs:200-202 | the capacity is exactly the byte length of the laid-out product |
| Macros.CartesianProductPopulateMem | src/macros.rs:177-198 | the buffer is the product laid end to end, and each index pair delimits its entry |
| Macros.MemToStrArr | src/macros.rs:215-230 | `strings[i]` is `mem[l..r]` for `indices[i] = (l, r)` |
| Macros.ReadBack | src/macros.rs:215-230 | reading back a laid-out buffer through its index pairs gives the original strings |
| Macros.Conc | src/macros.rs:81-100 | `conc!` of two arrays is their concatenation |
| Macros.Expand | src/macros.rs:18-31 | `expand!` is the row-major product |
| Macros.WithCapitalizedStrings | src/macros.rs:44-57 | `with_capitalized!` is each string followed by its capitalization |
| Macros.ProductValid | src/macros.rs:18-31 | the product of well-formed strings is well-formed |
| Macros.WithCapitalizedValid | src/macros.rs:44-57 | the capitalized list of well-formed strings is well-formed |
| StrLayout.SpansDelimit | src/macros.rs:151-174 | when the buffer starts with the strings laid end to end, every index pair delimits its string |
| StrLayout.SpansContiguous | src/macros.rs:151-174 | the index pairs start at 0, end at the total length and are contiguous |
| StrLayout.LayoutStep | src/macros.rs:161-173 | writing the next string at the cursor and recording its pair extends the layout by one |
| StrLayout.LayoutDone | src/macros.rs:151-174 | a finished layout holds the concatenation and the delimiting pairs |
| MacrosExamples.ExpandDoc | src/macros.rs:12-15 | the product of νέ, νι with ος, ο, ου is νέος, νέο, νέου, νιος, νιο, νιου |
| MacrosExamples.WithCapitalizedDoc | src/macros.rs:40-41 | άλφα, αλλά become άλφα, Άλφα, αλλά, Αλλά |
| MacrosExamples.WithCapitalizedOfPairs | src/macros.rs:44-57 | a list of lowercase words each followed by its capitalization is what the capitalizing builder makes of the lowercase words |
| MacrosExamples.MonosyllableAccentedList | src/constants.rs:18-19 | the twelve accented monosyllables are the six lowercase ones with their capitalizations |
| MacrosExamples.MonosylRemoveAccentList | src/monotonic.rs:81-87 | the 32 words that lose their accent are the sixteen lowercase ones with their capitalizations |
| Accents.DiacriticsAreCombining | src/accents.rs:6-21 | the seven diacritic constants, with the code points U+0342, U+0301, U+0300, U+0345, U+0308, U+0313 and U+0314, are distinct combining marks of U+0300..U+036F |
| Accents.HasDiaeresis | src/syllabify.rs:55 | the test `diaeresis(b).is_some()` of `is_diphthong`, as membership in an explicit table: U+0308 and the 13 characters of the Greek blocks whose canonical decomposition holds U+0308 |
| Accents.RemoveDiacritics | src/accents.rs:67-73 | the text is decomposed, the listed diacritics filtered out and the rest recomposed |
| Accents.RemoveAllDiacritics | src/accents.rs:88-101 | `remove_diacritics` with the circumflex, acute, grave, iota subscript, diaeresis, smooth and rough breathing, in that order |
| Accents.Without | src/accents.rs:67-73 | the filtered text holds none of the removed diacritics |
| Accents.WithoutAppend | src/accents.rs:67-73 | the filter distributes over concatenation |
| Accents.RemoveAbsentDiacritics | src/accents.rs:67-73 | when the decomposed text holds none of the diacritics and composes back to itself, the text is unchanged |
| Accents.LastIndexWhere | src/accents.rs:167-173 | the index found satisfies the test with none after it, and None means none does |
| Accents.WithDiacriticOnLastVowel | src/accents.rs:167-173 | the last vowel of the syllable, if any, is replaced by its composition with the diacritic |
| Accents.LastVowelOnlyChanges | src/accents.rs:167-173 | the last vowel becomes its composition with the diacritic and no other character changes; the length is kept and a syllable without a vowel is unchanged |
| Accents.AddDiacriticAtSyllable | src/accents.rs:167-173 | the method computes the last-vowel edit |
| Accents.ReplaceKeepsTheRest | src/accents.rs:122-125 | replacing one syllable keeps the text before and after it verbatim |
| Accents.DiacriticRemovedAt | src/accents.rs:116-127 | the specification of `RemoveDiacriticAt` for functions: unchanged when `pos` is 0 or exceeds the syllable count; otherwise syllable `len - pos` is replaced by the removal function's result for that syllable and the diacritic, all other syllables are kept verbatim, and the syllables are rejoined in order |
| Accents.RemoveDiacriticAt | src/accents.rs:116-127 | unchanged when `pos` is 0 or exceeds the syllable count; otherwise syllable `len - pos` is replaced by the removal function's result for that syllable and the diacritic, all other syllables are kept verbatim, and the syllables are rejoined in order, which is `DiacriticRemovedAt` |
| Accents.AddDiacriticAt | src/accents.rs:151-162 | unchanged when `pos` is 0 or exceeds the syllable count; otherwise only syllable `len - pos` gets the diacritic on its last vowel |
| Accents.AddAcuteAt | src/accents.rs:147-149 | the same with the acute |
| Monotonic.NotPunct | src/monotonic.rs:46-48 | a word character is a Greek letter or an alphabetic character other than U+02BC |
| Monotonic.SplitPunctuation | src/monotonic.rs:55-73 | the word is cut before its first and after its last word character, or is all left punctuation when it has none |
| Monotonic.FirstIndexWhere | src/monotonic.rs:55-73 | the index found satisfies the test with none before it, and None means none does |
| Monotonic.SplitPunctuationLossless | src/monotonic.rs:55-73 | left, core and right join back to the word, and a word with no word character is all left punctuation |
| Monotonic.SplitPunctuationCore | src/monotonic.rs:56-68 | with a word character, the core is non-empty, starts and ends with one, and the punctuation on either side holds none |
| Monotonic.SplitPunctuationOf | src/monotonic.rs:55-73 | any such three-way split is the one returned, so the split is unique |
| Monotonic.SpecialCases | src/monotonic.rs:135-148 | the eight listed words map to their fixed replacements and every other word to None |
| Monotonic.SpecialCasesDomain | src/monotonic.rs:135-148 | a fixed replacement exists for exactly the eight listed forms |
| Monotonic.SpecialCasesDropOneAccent | src/monotonic.rs:135-148 | each fixed replacement differs from its word only by one vowel replaced by its base letter |
| Monotonic.ConvertToAcute | src/monotonic.rs:106-125 | the word is decomposed, filtered by `AcuteOnly` and recomposed |
| Monotonic.AcuteOnly | src/monotonic.rs:106-125 | the filtered decomposition holds no breathing, iota subscript, grave or circumflex |
| Monotonic.AcuteOnlyKeeps | src/monotonic.rs:106-125 | every other character is kept in order, the grave and circumflex turned into acutes |
| Monotonic.AccentRule | src/monotonic.rs:182-216 | the acute rule on the converted core, cut by the corrected scanner |
| Monotonic.AccentRuleOn | src/monotonic.rs:182-216 | the acute rule on a core and its syllables: one syllable loses the acute unless it is listed, the word is elided or it ends in a diphthong; two or more lose it when the word is listed, or else the last syllable loses it when the last two both hold one; no syllables keep the core |
| Monotonic.AccentRuleCutsAsWritten | src/monotonic.rs:182 | on a core without U+0314 the acute rule gives the same word whether it cuts with the corrected scanner or with `syllabify` as written |
| Monotonic.ToMonotonicWord | src/monotonic.rs:151-223 | a word that is not Greek is kept; otherwise its punctuation is kept and its core replaced by a fixed replacement or converted and passed through the acute rule |
| Monotonic.NotGreekUnchanged | src/monotonic.rs:156-159 | a word that is not Greek comes back unchanged |
| Monotonic.PunctuationKept | src/monotonic.rs:162-222 | a Greek word keeps its left and right punctuation verbatim |
| Monotonic.OneSyllableIsWord | src/monotonic.rs:182-192 | the only syllable of a monosyllable is the whole word |
| Monotonic.MonosyllableRule | src/monotonic.rs:187-202 | a monosyllable loses its acute exactly when it is not listed, is not cut short by an apostrophe and does not end in a diphthong |
| Monotonic.PolysyllableRule | src/monotonic.rs:203-213 | a longer word not listed is kept unless its last two syllables both bear an acute, and then only the last syllable of the modern syllabification loses it |
| Monotonic.RemoveAccentListRule | src/monotonic.rs:203-206 | a listed word of two or more syllables loses its acute |
| Monotonic.EmptyCoreKept | src/monotonic.rs:215 | an empty core is kept |
| MonotonicExamples.NotPunctExamples | src/monotonic.rs:230-240 | α, a and ή are word characters; `.`, `2` and ᾿ are not |
| MonotonicExamples.SplitTrailingDots | src/monotonic.rs:244 | λέξη... splits into the empty string, λέξη and ... |
| MonotonicExamples.SplitInnerHyphen | src/monotonic.rs:56-68 | ;?λέ-ξη... splits into ;?, λέ-ξη and ..., the hyphen staying in the core |
| MonotonicExamples.SplitAllPunctuation | src/monotonic.rs:248 | ;?... is all left punctuation |
| MonotonicExamples.SplitDigit | src/monotonic.rs:249 | 2ος splits into 2, ος and the empty string |
| MonotonicExamples.PouSpecialCase | src/monotonic.rs:272 | ποὺ becomes που |
| MonotonicExamples.PoeteKept | src/monotonic.rs:330 | Poète, not being Greek, is kept |
| Seqs.Reverse | src/syllabify.rs:70-71 | the reversal has the same length with the elements in opposite order |

## Left out

- Unicode normalization: the canonical decomposition and composition used by `convert_to_acute`, `remove_diacritics`, `has_diacritic` and `add_diacritic_to_char` are parameters (`nfd`, `nfc`, `compose`), because they come from a foreign library. The lemmas hold for any such functions.
- `char::is_alphabetic` is a parameter `isAlphabetic`, because it is a Unicode property lookup. The examples state the few facts about it that they need.
- `syllabify_el` and `is_vowel_el` are parameters of `remove_diacritic_at`, `add_diacritic_at` and `add_diacritic_at_syllable`, and fields of `Monotonic.Unicode`. They are not part of this model: they are in the modern rule set.
- Monotonic.PolysyllableRule: the last syllable is that of the modern syllabifier passed in, so the rule is stated only in its terms.
- The modern rule set, the `Merge` policies and the synizesis lexicon are not part of this model.
- `to_monotonic` is not modelled: its whitespace split and the Aho–Corasick `remove_superfluous_diaereses` are Unicode and external-library code. Only `to_monotonic_word` is modelled.
- `has_diaeresis` and `has_acute` are one-line wrappers over normalization. They are modelled by `Accents.HasDiacritic` and `Monotonic.HasAcute`, with no lemmas of their own. `remove_all_diacritics` is `Accents.RemoveAllDiacritics`, with no lemmas beyond those of `RemoveDiacritics`.
- `diaeresis`, which `is_diphthong` calls, is not part of this model's sources. Its test is modelled by `Accents.HasDiaeresis`, an explicit table taken from the canonical decompositions of the Unicode Character Database (the decomposition field of UnicodeData.txt): U+0308 itself, and the 13 characters of U+0370..U+03FF and U+1F00..U+1FFF whose full canonical decomposition holds U+0308.
- The scanner takes the word's characters and its encoding together. Decoding `&str` into `chars` is not modelled.
- Integer widths: `usize` is `nat`. Overflow of the capacity arithmetic is not modelled, because it cannot happen for arrays that fit in memory.
- Panics: the `assert!`s and the `unreachable!` in the macros are preconditions. The `debug_assert!` that a word is non-empty is dropped, and the empty word is handled.
- The bodies of the macros' `while` loops are helper methods (`LayStrings`, `LayPair`, `LayRow`, `LayProductEntry`, `CopyPair`) called from one loop each, rather than one nested loop.
- Read-only slices `&[&str]` and `&[u8]` are modelled as `seq` values. Only `mem`, `indices` and `strings`, which the source writes, are arrays.
- `conc!` is modelled for two arrays. More arrays are repeated application.
- Syllabify.SyllabifyRef: agreement with the corrected scanner is proved only for words whose every U+0314 follows a vowel, as a breathing decomposed from a vowel does. Where U+0314 follows a consonant (a decomposed ῥ) or starts the word, the reference scanner keeps it with the character before it and the scanners with the vowel after it (SyllabifyExamples.RoughAfterConsonant). Agreement with the scanner as written is proved only for words without U+0314.
- Syllabify.RefAgreesWithKept: stated only for words whose every rough breathing follows a vowel, for the reason above.
- Syllabify.AcuteStaysWithVowel: the scanner as written is proved never to split a vowel from a combining acute after it, but not from a rough breathing, which it does split (see Findings). Both marks are proved for the corrected scanner (Syllabify.MarksStayWithVowel).
- The corrected onset keeps a rough breathing only with a vowel before it. A decomposed ῥ before a vowel is still not kept whole with that vowel, by either scanner or by the reference scanner (SyllabifyExamples.DecomposedRho).
- Monotonic uses the corrected scanner. Its core has had its rough breathings removed before it is cut, so on every core without U+0314 it gives what `syllabify` as written gives (Monotonic.AccentRuleCutsAsWritten). That the recomposition adds no U+0314 is not proved, because normalization is a parameter.
- The constants of `src/constants.rs` beyond `APOSTROPHES` and `MONOSYLLABLE_ACCENTED` are not modelled, because they have no behaviour of their own.
- The Python scripts, the benchmarks, `src/main.rs`, the Python bindings and the debug logging are not modelled: they are I/O tooling.

## Findings

| source | as written | input that shows it | evidently intended | confidence | as-written member | corrected member |
|---|---|---|---|---|---|---|
| src/syllabify.rs:116-124 | `move_onset` takes a U+0314 that ended the nucleus into the next syllable's onset, away from the vowel before it | the characters α, U+0314, ε: `syllabify` gives α / ̔ε, while `syllabify_ref` gives ἁ / ε | a vowel is never split from the breathing after it, as the nucleus loop's tests for the mark intend and as the reference scanner does | not executed | Syllabify.RefDisagreesOnRough | Syllabify.MarksStayWithVowel, Syllabify.RefAgreesWithKept |
