/** The Greek syllabifier. A word is cut into syllables from the right: a
    syllable's coda (trailing non-vowels), then its nucleus (vowels, with the
    diphthong and combining-mark rules), then its onset (the consonants that
    may start a syllable together). The third of these fixes where the
    syllable begins, and the scan goes on from there.

    The first half gives the cut points as functions on the word's characters
    (`CodaStart`, `NucleusFrom`, `OnsetFrom`, `SyllableStart`, `Syllables`)
    and proves what they mean. The scanner is then written as the source
    writes it, moving one position at a time, and proved to cut where those
    functions do. The onset as written can take a rough breathing away from
    the vowel before it; `OnsetFromKept` and `SyllabifyKept` are the scanner
    with that corrected. The second half does the same for the reference
    state machine and proves that it agrees with the corrected scanner. */
module Syllabify {
  import opened Utf8
  import opened Seqs
  import opened Chars
  import Accents
  import opened Wrappers

  const ACUTE: char := Accents.ACUTE
  const ROUGH: char := Accents.ROUGH

  /** The vowel letters as lowercase base letters, with the tilde and the
      combining acute (only membership matters). */
  const VOWELS: set<char> := {'α', 'ο', 'ε', 'ι', 'η', 'υ', 'ω', '~', ACUTE}

  /** The consonant pairs that may open a syllable together. */
  const CONS_CLUSTERS: set<(char, char)> := {
    ('β', 'δ'), ('β', 'λ'), ('β', 'ρ'),
    ('γ', 'λ'), ('γ', 'ν'), ('γ', 'ρ'),
    ('δ', 'ρ'),
    ('θ', 'λ'), ('θ', 'ν'), ('θ', 'ρ'),
    ('κ', 'λ'), ('κ', 'ν'), ('κ', 'ρ'), ('κ', 'τ'),
    ('μ', 'ν'),
    ('π', 'λ'), ('π', 'ν'), ('π', 'ρ'), ('π', 'τ'),
    ('σ', 'β'), ('σ', 'θ'), ('σ', 'κ'), ('σ', 'μ'), ('σ', 'π'), ('σ', 'τ'), ('σ', 'φ'), ('σ', 'χ'),
    ('τ', 'ρ'),
    ('φ', 'θ'), ('φ', 'λ'), ('φ', 'ρ'),
    ('χ', 'λ'), ('χ', 'ρ')
  }

  /** The vowel pairs that make one sound. */
  const DIPHTHONGS: set<(char, char)> := {
    ('α', 'ι'), ('ε', 'ι'), ('ο', 'ι'), ('υ', 'ι'),
    ('α', 'υ'), ('ε', 'υ'), ('ο', 'υ'), ('η', 'υ')
  }

  predicate IsVowel(ch: char)
  {
    BaseLower(ch) in VOWELS
  }

  /** A slice of at least two characters whose first two form a cluster. */
  predicate IsConsonantCluster(chs: seq<char>)
  {
    |chs| >= 2 && (BaseLower(chs[0]), BaseLower(chs[1])) in CONS_CLUSTERS
  }

  /** A slice of exactly two characters forming a diphthong whose second
      vowel carries no diaeresis. */
  predicate IsDiphthong(chs: seq<char>)
  {
    |chs| == 2 && (BaseLower(chs[0]), BaseLower(chs[1])) in DIPHTHONGS
    && !Accents.HasDiaeresis(chs[1])
  }

  /** The characters at `k` and `k + 1` form a cluster. */
  predicate ClusterAt(w: seq<char>, k: nat)
    requires k + 2 <= |w|
  {
    IsConsonantCluster(w[k..k + 2])
  }

  /** A character the nucleus may take: a vowel or the combining rough
      breathing. */
  predicate IsNucleusChar(ch: char)
  {
    IsVowel(ch) || ch == ROUGH
  }

  // ---------------------------------------------------------------------
  // The cut points, as functions

  /** Where the coda ending at `p` begins: the longest run of non-vowels
      ending at `p` (`CodaStartIsCoda`). */
  function CodaStart(w: seq<char>, p: nat): (c: nat)
    requires p <= |w|
    ensures c <= p
    decreases p
  {
    if p > 0 && !IsVowel(w[p - 1]) then CodaStart(w, p - 1) else p
  }

  /** Where the nucleus ending at `to` begins, once the scan has reached `p`.
      The scan takes a nucleus character at `p - 1` unless the character at
      `p` is inside the nucleus, is neither the acute nor the rough mark, and
      forms no diphthong with it; a diphthong followed by an iota inside the
      nucleus ends the nucleus just before that iota (`NucleusFromIsNucleus`). */
  function NucleusFrom(w: seq<char>, to: nat, p: nat): (n: nat)
    requires p <= to <= |w|
    ensures n <= to
    ensures p < to ==> n < to
    decreases p
  {
    if p > 0 && IsNucleusChar(w[p - 1]) then
      if to - p > 0 && w[p] != ACUTE && w[p] != ROUGH then
        if IsDiphthong(w[p - 1..p + 1]) then
          if to - p > 1 && w[p + 1] == 'ι' then p + 1
          else NucleusFrom(w, to, p - 1)
        else p
      else NucleusFrom(w, to, p - 1)
    else p
  }

  /** Where the onset ending at `to` begins, once the scan has reached `p`:
      non-vowels are taken while each one forms a cluster with the one after
      it (`OnsetFromIsOnset`). */
  function OnsetFrom(w: seq<char>, to: nat, p: nat): (s: nat)
    requires p <= to <= |w|
    ensures s <= p
    decreases p
  {
    if p > 0 && !IsVowel(w[p - 1]) && (to == p || IsConsonantCluster(w[p - 1..to])) then
      OnsetFrom(w, to, p - 1)
    else p
  }

  /** The coda is all non-vowels and cannot be extended to the left. */
  lemma {:induction false} CodaStartIsCoda(w: seq<char>, p: nat)
    requires p <= |w|
    ensures forall k :: CodaStart(w, p) <= k < p ==> !IsVowel(w[k])
    ensures CodaStart(w, p) == 0 || IsVowel(w[CodaStart(w, p) - 1])
    decreases p
  {
    hide BaseLower, IsVowel, IsConsonantCluster;
    if p > 0 && !IsVowel(w[p - 1]) {
      CodaStartIsCoda(w, p - 1);
    }
  }

  /** The nucleus is made of nucleus characters; it never starts right
      after a nucleus character at an acute or a rough mark; and it goes
      past `p` only to stop before an iota. */
  lemma {:induction false} NucleusFromIsNucleus(w: seq<char>, to: nat, p: nat)
    requires p <= to <= |w|
    ensures var n := NucleusFrom(w, to, p);
            && (n <= p || (n == p + 1 && w[p + 1] == 'ι'))
            && (n <= p ==> forall k :: n <= k < p ==> IsNucleusChar(w[k]))
            && (0 < n < to && IsNucleusChar(w[n - 1]) ==> w[n] != ACUTE && w[n] != ROUGH)
    decreases p
  {
    hide BaseLower, IsVowel, IsConsonantCluster;
    if p > 0 && IsNucleusChar(w[p - 1]) {
      NucleusFromIsNucleus(w, to, p - 1);
    }
  }

  /** A cluster test at `i` only looks at the characters at `i` and
      `i + 1`. */
  lemma ClusterSlice(w: seq<char>, i: nat, j: nat)
    requires i + 2 <= j <= |w|
    ensures IsConsonantCluster(w[i..j]) <==> ClusterAt(w, i)
  {
    assert w[i..j][0] == w[i..i + 2][0] && w[i..j][1] == w[i..i + 2][1];
  }

  /** The onset is all non-vowels and each adjacent pair of it a
      cluster. */
  lemma {:induction false} OnsetFromIsOnset(w: seq<char>, to: nat, p: nat)
    requires p <= to <= |w|
    ensures forall k :: OnsetFrom(w, to, p) <= k < p ==> !IsVowel(w[k])
    ensures forall k :: OnsetFrom(w, to, p) <= k && k + 1 < p ==> ClusterAt(w, k)
    ensures p < to && OnsetFrom(w, to, p) < p ==> ClusterAt(w, p - 1)
    decreases p
  {
    hide BaseLower, IsVowel, IsConsonantCluster;
    if p > 0 && !IsVowel(w[p - 1]) && (to == p || IsConsonantCluster(w[p - 1..to])) {
      if p < to {
        ClusterSlice(w, p - 1, to);
      }
      OnsetFromIsOnset(w, to, p - 1);
    }
  }

  /** The onset cannot be extended to the left: the character before it is
      a vowel, or a consonant that makes no cluster with the onset's
      first. */
  lemma {:induction false} OnsetFromIsMaximal(w: seq<char>, to: nat, p: nat)
    requires p <= to <= |w|
    ensures var s := OnsetFrom(w, to, p);
            s == 0 || IsVowel(w[s - 1]) || (s < to && !ClusterAt(w, s - 1))
    decreases p
  {
    hide BaseLower, IsVowel, IsConsonantCluster;
    if p > 0 && !IsVowel(w[p - 1]) && (to == p || IsConsonantCluster(w[p - 1..to])) {
      OnsetFromIsMaximal(w, to, p - 1);
    } else if 0 < p < to {
      ClusterSlice(w, p - 1, to);
    }
  }

  /** Where the syllable ending at `p` begins. */
  function SyllableStart(w: seq<char>, p: nat): (s: nat)
    requires p <= |w|
    ensures s <= p
    ensures p > 0 ==> s < p
  {
    var c := CodaStart(w, p);
    var n := NucleusFrom(w, c, c);
    OnsetFrom(w, n, n)
  }

  /** The syllables of `w[..p]`, in order. */
  function SyllablesUpTo(w: seq<char>, p: nat): seq<seq<char>>
    requires p <= |w|
    decreases p
  {
    if p == 0 then [] else
      var s := SyllableStart(w, p);
      SyllablesUpTo(w, s) + [w[s..p]]
  }

  /** The syllables of `w`, in order. */
  function Syllables(w: seq<char>): seq<seq<char>>
  {
    SyllablesUpTo(w, |w|)
  }

  // ---------------------------------------------------------------------
  // What the cut points mean

  /** The syllables of a prefix are non-empty and put back together give the
      prefix. */
  lemma {:induction false} SyllablesUpToPartition(w: seq<char>, p: nat)
    requires p <= |w|
    ensures Concat(SyllablesUpTo(w, p)) == w[..p]
    ensures AllNonEmpty(SyllablesUpTo(w, p))
    ensures SyllablesUpTo(w, p) == [] <==> p == 0
    decreases p, 1
  {
    if p > 0 {
      SyllablesUpToPartitionStep(w, p);
    }
  }

  lemma {:induction false} SyllablesUpToPartitionStep(w: seq<char>, p: nat)
    requires 0 < p <= |w|
    ensures Concat(SyllablesUpTo(w, p)) == w[..p]
    ensures AllNonEmpty(SyllablesUpTo(w, p))
    ensures SyllablesUpTo(w, p) != []
    decreases p, 0
  {
    hide BaseLower, IsVowel, IsConsonantCluster, IsDiphthong;
    var s := SyllableStart(w, p);
    var prefix := SyllablesUpTo(w, s);
    assert SyllablesUpTo(w, p) == prefix + [w[s..p]];
    SyllablesUpToPartition(w, s);
    AllNonEmptySnoc(prefix, w[s..p]);
    ConcatAppend(prefix, [w[s..p]]);
    assert Concat([w[s..p]]) == w[s..p] by {
      assert [w[s..p]][..0] == [];
    }
    assert w[..s] + w[s..p] == w[..p];
  }

  /** Syllabification loses nothing and adds nothing: the syllables are
      non-empty, concatenate back to the word, and there are none exactly
      when the word is empty. */
  lemma SyllablesPartition(w: seq<char>)
    ensures Concat(Syllables(w)) == w
    ensures AllNonEmpty(Syllables(w))
    ensures Syllables(w) == [] <==> w == []
  {
    SyllablesUpToPartition(w, |w|);
    assert w[..|w|] == w;
  }

  /** A word without vowels is one syllable. */
  lemma NoVowelOneSyllable(w: seq<char>)
    requires w != [] && forall k :: 0 <= k < |w| ==> !IsVowel(w[k])
    ensures Syllables(w) == [w]
  {
    CodaStartAt(w, 0, |w|);
    assert SyllablesUpTo(w, 0) == [];
    assert w[0..|w|] == w;
  }

  /** The last character of a concatenation of non-empty pieces. */
  lemma ConcatLast(ss: seq<seq<char>>)
    requires ss != [] && ss[|ss| - 1] != []
    ensures Concat(ss) != [] && Concat(ss)[|Concat(ss)| - 1] == ss[|ss| - 1][|ss[|ss| - 1]| - 1]
  {
  }

  /** Syllable `b` follows syllable `a` without splitting an acute from the
      vowel before it. */
  predicate KeepsAcute(a: seq<char>, b: seq<char>)
  {
    a != [] && b != [] && IsVowel(a[|a| - 1]) ==> b[0] != ACUTE
  }

  predicate KeepsAcutes(ss: seq<seq<char>>)
  {
    forall i :: 0 < i < |ss| ==> KeepsAcute(ss[i - 1], ss[i])
  }

  /** A syllable that begins right after a vowel never begins with the
      combining acute: a vowel is never split from an acute that follows
      it. */
  lemma {:induction false} AcuteStaysWithVowelUpTo(w: seq<char>, p: nat)
    requires p <= |w|
    ensures KeepsAcutes(SyllablesUpTo(w, p))
    decreases p, 1
  {
    if p > 0 {
      AcuteStaysWithVowelStep(w, p);
    }
  }

  lemma {:induction false} AcuteStaysWithVowelStep(w: seq<char>, p: nat)
    requires 0 < p <= |w|
    ensures KeepsAcutes(SyllablesUpTo(w, p))
    decreases p, 0
  {
    var s := SyllableStart(w, p);
    var prefix := SyllablesUpTo(w, s);
    assert SyllablesUpTo(w, p) == prefix + [w[s..p]];
    AcuteStaysWithVowelUpTo(w, s);
    if s > 0 {
      LastSyllableEnd(w, s);
      if IsVowel(w[s - 1]) {
        AcuteNotAfterVowelAt(w, p);
      }
      assert w[s..p][0] == w[s];
    } else {
      assert prefix == [];
    }
    KeepsAcutesSnoc(prefix, w[s..p]);
  }

  /** The last syllable of `w[..s]` ends with `w[s - 1]`. */
  lemma LastSyllableEnd(w: seq<char>, s: nat)
    requires 0 < s <= |w|
    ensures var ss := SyllablesUpTo(w, s);
            ss != [] && ss[|ss| - 1] != [] && ss[|ss| - 1][|ss[|ss| - 1]| - 1] == w[s - 1]
  {
    var ss := SyllablesUpTo(w, s);
    SyllablesUpToPartition(w, s);
    ConcatLast(ss);
  }

  lemma KeepsAcutesSnoc(ss: seq<seq<char>>, x: seq<char>)
    requires KeepsAcutes(ss) && (ss != [] ==> KeepsAcute(ss[|ss| - 1], x))
    ensures KeepsAcutes(ss + [x])
  {
    var t := ss + [x];
    forall i | 0 < i < |t|
      ensures KeepsAcute(t[i - 1], t[i])
    {
      if i < |ss| {
        assert t[i - 1] == ss[i - 1] && t[i] == ss[i];
      }
    }
  }

  /** The combining acute is a vowel, so only an empty onset could put it
      at a syllable start, and the nucleus never starts at it after a
      vowel. */
  lemma AcuteNotAfterVowelAt(w: seq<char>, p: nat)
    requires 0 < p <= |w|
    requires 0 < SyllableStart(w, p) && IsVowel(w[SyllableStart(w, p) - 1])
    ensures w[SyllableStart(w, p)] != ACUTE
  {
    hide BaseLower, IsVowel, IsConsonantCluster, IsDiphthong;
    var c := CodaStart(w, p);
    var n := NucleusFrom(w, c, c);
    var s := OnsetFrom(w, n, n);
    assert s == SyllableStart(w, p);
    AcuteIsVowel();
    if s == n {
      CodaStartIsCoda(w, p);
      assert n == NucleusFrom(w, c, c - 1);
      NucleusFromIsNucleus(w, c, c - 1);
    } else {
      OnsetFromIsOnset(w, n, n);
    }
  }

  lemma AcuteStaysWithVowel(w: seq<char>)
    ensures KeepsAcutes(Syllables(w))
  {
    AcuteStaysWithVowelUpTo(w, |w|);
  }

  // ---------------------------------------------------------------------
  // The onset with the rough breathing kept with its vowel

  /** The character at `k` is the combining rough breathing and follows a
      vowel, so it belongs to that vowel. */
  predicate RoughAfterVowel(w: seq<char>, k: nat)
    requires k < |w|
  {
    w[k] == ROUGH && 0 < k && IsVowel(w[k - 1])
  }

  /** Where the onset ending at `to` starts, scanning left from `p`, when a
      rough breathing that follows a vowel is never taken into it: it stays
      with that vowel. */
  function OnsetFromKept(w: seq<char>, to: nat, p: nat): (s: nat)
    requires p <= to <= |w|
    ensures s <= p
    decreases p
  {
    if p > 0 && !IsVowel(w[p - 1]) && !RoughAfterVowel(w, p - 1)
       && (to == p || IsConsonantCluster(w[p - 1..to]))
    then OnsetFromKept(w, to, p - 1)
    else p
  }

  /** No cluster starts with the rough breathing. */
  lemma RoughStartsNoCluster(chs: seq<char>)
    requires |chs| >= 2 && chs[0] == ROUGH
    ensures !IsConsonantCluster(chs)
  {
    assert BaseLower(ROUGH) == ROUGH;
  }

  /** Past its first step the onset never meets a rough breathing, so from
      inside it the kept onset is the onset as written. */
  lemma {:induction false} OnsetKeptInside(w: seq<char>, to: nat, p: nat)
    requires p < to <= |w|
    ensures OnsetFromKept(w, to, p) == OnsetFrom(w, to, p)
    decreases p
  {
    hide BaseLower, IsVowel, IsDiphthong;
    if p > 0 && !IsVowel(w[p - 1]) && IsConsonantCluster(w[p - 1..to]) {
      if w[p - 1] == ROUGH {
        RoughStartsNoCluster(w[p - 1..to]);
      }
      OnsetKeptInside(w, to, p - 1);
    }
  }

  /** The kept onset differs from the onset as written only in leaving a
      rough breathing that follows a vowel out of it. */
  lemma OnsetKeptAsWritten(w: seq<char>, n: nat)
    requires n <= |w|
    ensures OnsetFromKept(w, n, n) == if 0 < n && RoughAfterVowel(w, n - 1) then n else OnsetFrom(w, n, n)
  {
    hide BaseLower, IsVowel, IsConsonantCluster, IsDiphthong;
    if n > 0 && !IsVowel(w[n - 1]) && !RoughAfterVowel(w, n - 1) {
      OnsetKeptInside(w, n, n - 1);
    }
  }

  /** The first character of a non-empty kept onset is not a vowel and not
      a rough breathing that follows one. */
  lemma {:induction false} OnsetKeptFirst(w: seq<char>, to: nat, p: nat)
    requires p <= to <= |w|
    ensures var s := OnsetFromKept(w, to, p);
            s < p ==> !IsVowel(w[s]) && !RoughAfterVowel(w, s)
    decreases p
  {
    hide BaseLower, IsVowel, IsConsonantCluster, IsDiphthong;
    if p > 0 && !IsVowel(w[p - 1]) && !RoughAfterVowel(w, p - 1)
       && (to == p || IsConsonantCluster(w[p - 1..to])) {
      OnsetKeptFirst(w, to, p - 1);
    }
  }

  /** Where the syllable ending at `p` begins, with the kept onset. */
  function SyllableStartKept(w: seq<char>, p: nat): (s: nat)
    requires p <= |w|
    ensures s <= p
    ensures p > 0 ==> s < p
  {
    var c := CodaStart(w, p);
    var n := NucleusFrom(w, c, c);
    OnsetFromKept(w, n, n)
  }

  /** The syllables of `w[..p]` with the kept onset, in order. */
  function SyllablesUpToKept(w: seq<char>, p: nat): seq<seq<char>>
    requires p <= |w|
    decreases p
  {
    if p == 0 then [] else
      var s := SyllableStartKept(w, p);
      SyllablesUpToKept(w, s) + [w[s..p]]
  }

  /** The syllables of `w` with the kept onset, in order. */
  function SyllablesKept(w: seq<char>): seq<seq<char>>
  {
    SyllablesUpToKept(w, |w|)
  }

  lemma {:induction false} SyllablesUpToKeptPartition(w: seq<char>, p: nat)
    requires p <= |w|
    ensures Concat(SyllablesUpToKept(w, p)) == w[..p]
    ensures AllNonEmpty(SyllablesUpToKept(w, p))
    ensures SyllablesUpToKept(w, p) == [] <==> p == 0
    decreases p, 1
  {
    if p > 0 {
      SyllablesUpToKeptPartitionStep(w, p);
    }
  }

  lemma {:induction false} SyllablesUpToKeptPartitionStep(w: seq<char>, p: nat)
    requires 0 < p <= |w|
    ensures Concat(SyllablesUpToKept(w, p)) == w[..p]
    ensures AllNonEmpty(SyllablesUpToKept(w, p))
    ensures SyllablesUpToKept(w, p) != []
    decreases p, 0
  {
    hide BaseLower, IsVowel, IsConsonantCluster, IsDiphthong;
    var s := SyllableStartKept(w, p);
    var prefix := SyllablesUpToKept(w, s);
    assert SyllablesUpToKept(w, p) == prefix + [w[s..p]];
    SyllablesUpToKeptPartition(w, s);
    AllNonEmptySnoc(prefix, w[s..p]);
    ConcatAppend(prefix, [w[s..p]]);
    assert Concat([w[s..p]]) == w[s..p] by {
      assert [w[s..p]][..0] == [];
    }
    assert w[..s] + w[s..p] == w[..p];
  }

  /** The kept syllables are non-empty, concatenate back to the word, and
      there are none exactly when the word is empty. */
  lemma SyllablesKeptPartition(w: seq<char>)
    ensures Concat(SyllablesKept(w)) == w
    ensures AllNonEmpty(SyllablesKept(w))
    ensures SyllablesKept(w) == [] <==> w == []
  {
    SyllablesUpToKeptPartition(w, |w|);
    assert w[..|w|] == w;
  }

  /** On a word without the rough breathing the kept onset changes
      nothing. */
  lemma {:induction false} KeptAgreesUpTo(w: seq<char>, p: nat)
    requires p <= |w| && forall k :: 0 <= k < |w| ==> w[k] != ROUGH
    ensures SyllablesUpToKept(w, p) == SyllablesUpTo(w, p)
    decreases p
  {
    hide BaseLower, IsVowel, IsConsonantCluster, IsDiphthong;
    if p > 0 {
      var c := CodaStart(w, p);
      OnsetKeptAsWritten(w, NucleusFrom(w, c, c));
      KeptAgreesUpTo(w, SyllableStart(w, p));
    }
  }

  lemma KeptAgreesWithoutRough(w: seq<char>)
    requires forall k :: 0 <= k < |w| ==> w[k] != ROUGH
    ensures SyllablesKept(w) == Syllables(w)
  {
    KeptAgreesUpTo(w, |w|);
  }

  /** Syllable `b` follows syllable `a` without splitting a rough breathing
      from the vowel before it. */
  predicate KeepsRough(a: seq<char>, b: seq<char>)
  {
    a != [] && b != [] && IsVowel(a[|a| - 1]) ==> b[0] != ROUGH
  }

  /** No two neighbouring syllables split a vowel from an acute or a rough
      breathing that follows it. */
  predicate KeepsMarks(ss: seq<seq<char>>)
  {
    forall i :: 0 < i < |ss| ==> KeepsAcute(ss[i - 1], ss[i]) && KeepsRough(ss[i - 1], ss[i])
  }

  lemma KeepsMarksSnoc(ss: seq<seq<char>>, x: seq<char>)
    requires KeepsMarks(ss)
    requires ss != [] ==> KeepsAcute(ss[|ss| - 1], x) && KeepsRough(ss[|ss| - 1], x)
    ensures KeepsMarks(ss + [x])
  {
    var t := ss + [x];
    forall i | 0 < i < |t|
      ensures KeepsAcute(t[i - 1], t[i]) && KeepsRough(t[i - 1], t[i])
    {
      if i < |ss| {
        assert t[i - 1] == ss[i - 1] && t[i] == ss[i];
      }
    }
  }

  /** The last kept syllable of `w[..s]` ends with `w[s - 1]`. */
  lemma LastSyllableKeptEnd(w: seq<char>, s: nat)
    requires 0 < s <= |w|
    ensures var ss := SyllablesUpToKept(w, s);
            ss != [] && ss[|ss| - 1] != [] && ss[|ss| - 1][|ss[|ss| - 1]| - 1] == w[s - 1]
  {
    var ss := SyllablesUpToKept(w, s);
    SyllablesUpToKeptPartition(w, s);
    ConcatLast(ss);
  }

  /** A kept syllable that begins right after a vowel begins with neither
      the acute nor the rough breathing: both are vowels or nucleus
      characters the nucleus never starts at after a vowel, and the kept
      onset never starts at either. */
  lemma MarkNotAfterVowelAt(w: seq<char>, p: nat)
    requires 0 < p <= |w|
    requires 0 < SyllableStartKept(w, p) && IsVowel(w[SyllableStartKept(w, p) - 1])
    ensures w[SyllableStartKept(w, p)] != ACUTE && w[SyllableStartKept(w, p)] != ROUGH
  {
    hide BaseLower, IsVowel, IsConsonantCluster, IsDiphthong;
    var c := CodaStart(w, p);
    var n := NucleusFrom(w, c, c);
    var s := OnsetFromKept(w, n, n);
    assert s == SyllableStartKept(w, p);
    AcuteIsVowel();
    if s == n {
      CodaStartIsCoda(w, p);
      assert n == NucleusFrom(w, c, c - 1);
      NucleusFromIsNucleus(w, c, c - 1);
    } else {
      OnsetKeptFirst(w, n, n);
    }
  }

  lemma {:induction false} MarksStayWithVowelUpTo(w: seq<char>, p: nat)
    requires p <= |w|
    ensures KeepsMarks(SyllablesUpToKept(w, p))
    decreases p, 1
  {
    if p > 0 {
      MarksStayWithVowelStep(w, p);
    }
  }

  lemma {:induction false} MarksStayWithVowelStep(w: seq<char>, p: nat)
    requires 0 < p <= |w|
    ensures KeepsMarks(SyllablesUpToKept(w, p))
    decreases p, 0
  {
    hide BaseLower, IsVowel, IsConsonantCluster, IsDiphthong;
    var s := SyllableStartKept(w, p);
    var prefix := SyllablesUpToKept(w, s);
    assert SyllablesUpToKept(w, p) == prefix + [w[s..p]];
    MarksStayWithVowelUpTo(w, s);
    if s > 0 {
      LastSyllableKeptEnd(w, s);
      if IsVowel(w[s - 1]) {
        MarkNotAfterVowelAt(w, p);
      }
      assert w[s..p][0] == w[s];
    } else {
      assert prefix == [];
    }
    KeepsMarksSnoc(prefix, w[s..p]);
  }

  /** With the kept onset a vowel is split neither from an acute nor from
      a rough breathing that follows it. */
  lemma MarksStayWithVowel(w: seq<char>)
    ensures KeepsMarks(SyllablesKept(w))
  {
    MarksStayWithVowelUpTo(w, |w|);
  }

  // ---------------------------------------------------------------------
  // The scanner

  /** Steps `pos` left over the coda: the non-vowels just before it. */
  method MoveCoda(chars: seq<char>, pos: nat) returns (pos': nat)
    requires pos <= |chars|
    ensures pos' == CodaStart(chars, pos)
    ensures pos' <= pos
    ensures forall k :: pos' <= k < pos ==> !IsVowel(chars[k])
    ensures pos' == 0 || IsVowel(chars[pos' - 1])
  {
    hide BaseLower, IsVowel, IsConsonantCluster, IsDiphthong;
    pos' := pos;
    while pos' > 0 && !IsVowel(chars[pos' - 1])
      invariant pos' <= pos
      invariant CodaStart(chars, pos') == CodaStart(chars, pos)
    {
      pos' := pos' - 1;
    }
    CodaStartIsCoda(chars, pos);
  }

  /** Steps `pos` left over the nucleus ending at `pos`. */
  method MoveNucleus(chars: seq<char>, pos: nat) returns (pos': nat)
    requires pos <= |chars|
    ensures pos' == NucleusFrom(chars, pos, pos)
    ensures pos' <= pos
    ensures forall k :: pos' <= k < pos ==> IsNucleusChar(chars[k])
  {
    hide BaseLower, IsVowel, IsConsonantCluster, IsDiphthong;
    var to := pos;
    pos' := pos;
    while pos' > 0 && (IsVowel(chars[pos' - 1]) || chars[pos' - 1] == ROUGH)
      invariant pos' <= to
      invariant NucleusFrom(chars, to, pos') == NucleusFrom(chars, to, to)
    {
      if to - pos' > 0 && chars[pos'] != ACUTE && chars[pos'] != ROUGH {
        if IsDiphthong(chars[pos' - 1..pos' + 1]) {
          if to - pos' > 1 && pos' + 1 < |chars| && chars[pos' + 1] == 'ι' {
            pos' := pos' + 1;
            break;
          }
        } else {
          break;
        }
      }
      pos' := pos' - 1;
    }
    NucleusFromIsNucleus(chars, to, to);
  }

  /** Steps `pos` left over the onset ending at `pos`. */
  method MoveOnset(chars: seq<char>, pos: nat) returns (pos': nat)
    requires pos <= |chars|
    ensures pos' == OnsetFrom(chars, pos, pos)
    ensures pos' <= pos
    ensures forall k :: pos' <= k < pos ==> !IsVowel(chars[k])
    ensures forall k :: pos' <= k && k + 1 < pos ==> ClusterAt(chars, k)
    ensures pos' == 0 || IsVowel(chars[pos' - 1]) || (pos' < pos && !ClusterAt(chars, pos' - 1))
  {
    hide BaseLower, IsVowel, IsConsonantCluster, IsDiphthong;
    var to := pos;
    pos' := pos;
    while pos' > 0 && !IsVowel(chars[pos' - 1])
          && (to == pos' || IsConsonantCluster(chars[pos' - 1..to]))
      invariant pos' <= to
      invariant OnsetFrom(chars, to, pos') == OnsetFrom(chars, to, to)
    {
      pos' := pos' - 1;
    }
    OnsetFromIsOnset(chars, to, to);
    OnsetFromIsMaximal(chars, to, to);
  }

  /** `MoveOnset` with the rough breathing kept with the vowel before it:
      a rough breathing that follows a vowel is never stepped over. */
  method MoveOnsetKept(chars: seq<char>, pos: nat) returns (pos': nat)
    requires pos <= |chars|
    ensures pos' == OnsetFromKept(chars, pos, pos)
    ensures pos' == if 0 < pos && RoughAfterVowel(chars, pos - 1) then pos else OnsetFrom(chars, pos, pos)
    ensures pos' < pos ==> !IsVowel(chars[pos']) && !RoughAfterVowel(chars, pos')
  {
    hide BaseLower, IsVowel, IsConsonantCluster, IsDiphthong, RoughAfterVowel, OnsetFrom;
    var to := pos;
    pos' := pos;
    while pos' > 0 && !IsVowel(chars[pos' - 1]) && !RoughAfterVowel(chars, pos' - 1)
          && (to == pos' || IsConsonantCluster(chars[pos' - 1..to]))
      invariant pos' <= to
      invariant OnsetFromKept(chars, to, pos') == OnsetFromKept(chars, to, to)
    {
      pos' := pos' - 1;
    }
    OnsetKeptAsWritten(chars, to);
    OnsetKeptFirst(chars, to, to);
  }

  /** Parses the syllable that ends at character `pos` of `word`, whose
      characters are `chars`. Returns it as a slice of `word` cut at the byte
      offsets of its first and last character, and moves `pos` to its start;
      returns nothing once `pos` is at the start of the word. */
  method ParseSyllable(word: seq<byte>, chars: seq<char>, pos: nat)
    returns (syllable: Option<seq<byte>>, pos': nat)
    requires word == Encode(chars)
    requires pos <= |chars|
    ensures pos' == SyllableStart(chars, pos)
    ensures syllable.None? <==> pos == 0
    ensures syllable.Some? ==> pos' < pos && syllable.value == Encode(chars[pos'..pos])
  {
    hide BaseLower, IsVowel, IsConsonantCluster, IsDiphthong;
    var to := pos;
    pos' := MoveCoda(chars, pos);
    pos' := MoveNucleus(chars, pos');
    pos' := MoveOnset(chars, pos');
    if pos' < to {
      var frByte := ByteOffset(chars, pos');
      var toByte := ByteOffset(chars, to);
      SliceAtByteOffsets(chars, pos', to);
      syllable := Some(word[frByte..toByte]);
    } else {
      syllable := None;
    }
  }

  /** `ParseSyllable` with the kept onset. */
  method ParseSyllableKept(word: seq<byte>, chars: seq<char>, pos: nat)
    returns (syllable: Option<seq<byte>>, pos': nat)
    requires word == Encode(chars)
    requires pos <= |chars|
    ensures pos' == SyllableStartKept(chars, pos)
    ensures syllable.None? <==> pos == 0
    ensures syllable.Some? ==> pos' < pos && syllable.value == Encode(chars[pos'..pos])
  {
    hide BaseLower, IsVowel, IsConsonantCluster, IsDiphthong;
    var to := pos;
    pos' := MoveCoda(chars, pos);
    pos' := MoveNucleus(chars, pos');
    pos' := MoveOnsetKept(chars, pos');
    if pos' < to {
      var frByte := ByteOffset(chars, pos');
      var toByte := ByteOffset(chars, to);
      SliceAtByteOffsets(chars, pos', to);
      syllable := Some(word[frByte..toByte]);
    } else {
      syllable := None;
    }
  }

  /** Cuts the word whose characters are `chars` into syllables, each a slice
      of the word's UTF-8 bytes. */
  method Syllabify(chars: seq<char>) returns (result: seq<seq<byte>>)
    ensures result == EncodeAll(Syllables(chars))
    ensures Concat(result) == Encode(chars)
    ensures forall i :: 0 <= i < |result| ==> result[i] != []
    ensures result == [] <==> chars == []
  {
    hide BaseLower, IsVowel, IsConsonantCluster, IsDiphthong;
    var word := Encode(chars);
    var pos: nat := |chars|;
    var pushed: seq<seq<byte>> := [];
    while true
      invariant pos <= |chars|
      invariant EncodeAll(Syllables(chars)) == EncodeAll(SyllablesUpTo(chars, pos)) + Reverse(pushed)
      decreases pos
    {
      var syllable, next := ParseSyllable(word, chars, pos);
      if syllable.None? {
        break;
      }
      assert SyllablesUpTo(chars, pos) == SyllablesUpTo(chars, next) + [chars[next..pos]];
      SyllabifyStep(chars, pos, next, pushed, SyllablesUpTo(chars, pos), SyllablesUpTo(chars, next));
      pushed := pushed + [syllable.value];
      pos := next;
    }
    result := Reverse(pushed);
    SyllablesPartition(chars);
    EncodedPartition(Syllables(chars), chars);
  }

  /** The scanner with the kept onset: a vowel is never split from a rough
      breathing that follows it. */
  method SyllabifyKept(chars: seq<char>) returns (result: seq<seq<byte>>)
    ensures result == EncodeAll(SyllablesKept(chars))
    ensures Concat(result) == Encode(chars)
    ensures forall i :: 0 <= i < |result| ==> result[i] != []
    ensures result == [] <==> chars == []
  {
    hide BaseLower, IsVowel, IsConsonantCluster, IsDiphthong;
    var word := Encode(chars);
    var pos: nat := |chars|;
    var pushed: seq<seq<byte>> := [];
    while true
      invariant pos <= |chars|
      invariant EncodeAll(SyllablesKept(chars)) == EncodeAll(SyllablesUpToKept(chars, pos)) + Reverse(pushed)
      decreases pos
    {
      var syllable, next := ParseSyllableKept(word, chars, pos);
      if syllable.None? {
        break;
      }
      assert SyllablesUpToKept(chars, pos) == SyllablesUpToKept(chars, next) + [chars[next..pos]];
      SyllabifyStep(chars, pos, next, pushed, SyllablesUpToKept(chars, pos), SyllablesUpToKept(chars, next));
      pushed := pushed + [syllable.value];
      pos := next;
    }
    result := Reverse(pushed);
    SyllablesKeptPartition(chars);
    EncodedPartition(SyllablesKept(chars), chars);
  }

  /** One round of the scanner: moving the syllable that ends at `pos` onto
      the pushed ones keeps the loop invariant. */
  lemma SyllabifyStep(chars: seq<char>, pos: nat, next: nat, pushed: seq<seq<byte>>,
                      upTo: seq<seq<char>>, prefix: seq<seq<char>>)
    requires next <= pos <= |chars| && upTo == prefix + [chars[next..pos]]
    ensures EncodeAll(upTo) + Reverse(pushed)
            == EncodeAll(prefix) + Reverse(pushed + [Encode(chars[next..pos])])
  {
    hide BaseLower, IsVowel, IsConsonantCluster, IsDiphthong;
    var y := Encode(chars[next..pos]);
    assert EncodeAll(prefix + [chars[next..pos]]) == EncodeAll(prefix) + [y];
    ReverseSnoc(pushed, y);
  }

  /** Encoding a partition of a word into non-empty pieces gives a
      partition of its bytes into non-empty pieces. */
  lemma EncodedPartition(ss: seq<seq<char>>, w: seq<char>)
    requires Concat(ss) == w && AllNonEmpty(ss) && (ss == [] <==> w == [])
    ensures Concat(EncodeAll(ss)) == Encode(w)
    ensures forall i :: 0 <= i < |ss| ==> EncodeAll(ss)[i] != []
    ensures EncodeAll(ss) == [] <==> w == []
  {
    ConcatEncodeAll(ss);
    forall i | 0 <= i < |ss|
      ensures EncodeAll(ss)[i] != []
    {
      EncodeNonEmpty(ss[i]);
    }
  }

  lemma EncodeNonEmpty(x: seq<char>)
    requires x != []
    ensures Encode(x) != []
  {
  }

  // ---------------------------------------------------------------------
  // The reference state machine

  /** The reference scanner's state after reading the characters from the
      end of the word down to some index: `state` 0 while in a coda, 1 in a
      nucleus, 2 in an onset; `to` is where the pending syllable ends; `out`
      holds the syllables cut so far, last syllable first. */
  datatype RefState = RefState(state: nat, to: nat, out: seq<seq<char>>)

  /** The bounds the reference scanner keeps when `i` characters remain to
      be read: the pending syllable is non-empty outside a coda. */
  predicate RefInv(w: seq<char>, i: nat, st: RefState)
  {
    i <= st.to <= |w| && (st.state != 0 ==> i < st.to)
  }

  /** The reference scanner reads `w[fr]`, as written. */
  function RefStep(w: seq<char>, fr: nat, st: RefState): (st': RefState)
    requires fr < |w| && RefInv(w, fr + 1, st)
    ensures RefInv(w, fr, st')
    ensures (st'.out == st.out && st'.to == st.to)
            || (st'.to < st.to && st'.out == st.out + [w[st'.to..st.to]])
  {
    var ch := w[fr];
    if st.state == 0 then
      if IsVowel(ch) then st.(state := 1) else st
    else if st.state == 1 then
      if IsVowel(ch) || ch == ROUGH then
        var prev := w[fr + 1];
        if prev == ACUTE || prev == ROUGH then st
        else if IsDiphthong(w[fr..fr + 2]) then
          // a diphthong followed by an iota: the iota starts a syllable
          if fr + 2 < |w| && w[fr + 2] == 'ι' && fr + 2 < st.to then
            RefState(1, fr + 2, st.out + [w[fr + 2..st.to]])
          else st
        else RefState(1, fr + 1, st.out + [w[fr + 1..st.to]])
      else st.(state := 2)
    else if st.state == 2 then
      if IsVowel(ch) then RefState(1, fr + 1, st.out + [w[fr + 1..st.to]])
      else if !IsConsonantCluster(w[fr..st.to]) then RefState(0, fr + 1, st.out + [w[fr + 1..st.to]])
      else st
    else st
  }

  /** The syllables the reference scanner returns once it has read all but
      the first `i` characters and reached `st`. */
  function RefRun(w: seq<char>, i: nat, st: RefState): seq<seq<char>>
    requires RefInv(w, i, st)
    decreases i
  {
    if i == 0 then
      Reverse(if 0 < st.to then st.out + [w[0..st.to]] else st.out)
    else
      var st' := RefStep(w, i - 1, st);
      RefRun(w, i - 1, st')
  }

  /** The syllables of the reference scanner. */
  function RefSyllables(w: seq<char>): seq<seq<char>>
  {
    RefRun(w, |w|, RefState(0, |w|, []))
  }

  // ---------------------------------------------------------------------
  // The reference scanner against the scanner with the kept onset

  /** Every rough breathing of `w` follows a vowel, as a breathing
      decomposed from a vowel does. */
  predicate RoughsFollowVowels(w: seq<char>)
  {
    forall k :: 0 <= k < |w| && w[k] == ROUGH ==> RoughAfterVowel(w, k)
  }

  /** The reference scanner has just cut before a rough breathing at `i`
      that follows a vowel: the pending syllable is that mark alone, and
      the vowel before it comes next. */
  predicate RoughPending(w: seq<char>, i: nat, st: RefState)
    requires i <= st.to <= |w|
  {
    0 < i && st.to == i + 1 && w[i] == ROUGH && IsVowel(w[i - 1]) && CodaStart(w, st.to) == i
  }

  /** How a reference state with `i` characters left to read stands to the
      kept scanner's cut points: the syllables still to come are those of
      `w[..st.to]`, and each state is inside the part of the pending
      syllable its name says, with the scanner's remaining decision the same
      from `i` as from the part's end; or the pending syllable is a rough
      breathing waiting for its vowel. */
  predicate Sim(w: seq<char>, i: nat, st: RefState)
    requires RefInv(w, i, st)
  {
    && st.state <= 2
    && SyllablesKept(w) == SyllablesUpToKept(w, st.to) + Reverse(st.out)
    && (st.state == 0 ==> forall k :: i <= k < st.to ==> !IsVowel(w[k]))
    && (st.state == 1 ==>
          var c := CodaStart(w, st.to);
          (i < c && NucleusFrom(w, c, i) == NucleusFrom(w, c, c)) || RoughPending(w, i, st))
    && (st.state == 2 ==>
          var c := CodaStart(w, st.to);
          var n := NucleusFrom(w, c, c);
          i < n && OnsetFromKept(w, n, i) == OnsetFromKept(w, n, n))
  }

  /** Cutting off the syllable the kept scanner finds at the end of
      `w[..to]`. */
  lemma CutSyllable(w: seq<char>, to: nat, out: seq<seq<char>>, s: nat)
    requires 0 < to <= |w| && s == SyllableStartKept(w, to)
    requires SyllablesKept(w) == SyllablesUpToKept(w, to) + Reverse(out)
    ensures SyllablesKept(w) == SyllablesUpToKept(w, s) + Reverse(out + [w[s..to]])
  {
    ReverseSnoc(out, w[s..to]);
  }

  /** The coda ending at `to` starts at `i` when `i` follows a vowel and
      non-vowels fill the rest. */
  lemma {:induction false} CodaStartAt(w: seq<char>, i: nat, j: nat)
    requires i <= j <= |w|
    requires forall k :: i <= k < j ==> !IsVowel(w[k])
    requires i == 0 || IsVowel(w[i - 1])
    ensures CodaStart(w, j) == i
    decreases j
  {
    hide BaseLower, IsVowel;
    if i < j {
      CodaStartAt(w, i, j - 1);
    }
  }

  /** No cluster ends in the rough breathing. */
  lemma RoughEndsNoCluster(w: seq<char>, k: nat, j: nat)
    requires k + 2 <= j <= |w| && w[k + 1] == ROUGH
    ensures !IsConsonantCluster(w[k..j])
  {
    assert w[k..j][1] == ROUGH;
    assert BaseLower(ROUGH) == ROUGH;
  }

  lemma AcuteIsVowel()
    ensures IsVowel(ACUTE)
  {
  }

  lemma IotaIsVowel()
    ensures IsVowel('ι')
  {
  }

  /** The second vowel of a diphthong is a vowel. */
  lemma DiphthongEndsInVowel(chs: seq<char>)
    requires IsDiphthong(chs)
    ensures IsVowel(chs[1])
  {
  }

  lemma RoughIsNoVowel()
    ensures !IsVowel(ROUGH)
  {
  }

  /** A new nucleus starting at a vowel: the state the reference scanner
      enters when it has just cut before `w[fr + 1]`. */
  lemma EnterNucleus(w: seq<char>, fr: nat, st': RefState)
    requires fr < |w| && IsVowel(w[fr])
    requires st'.state == 1 && st'.to == fr + 1
    requires SyllablesKept(w) == SyllablesUpToKept(w, st'.to) + Reverse(st'.out)
    ensures RefInv(w, fr, st') && Sim(w, fr, st')
  {
    hide BaseLower, IsVowel, IsConsonantCluster, IsDiphthong;
    CodaStartAt(w, fr + 1, fr + 1);
  }

  lemma SimStep0(w: seq<char>, fr: nat, st: RefState)
    requires fr < |w| && RefInv(w, fr + 1, st) && Sim(w, fr + 1, st) && st.state == 0
    ensures Sim(w, fr, RefStep(w, fr, st))
  {
    hide BaseLower, IsVowel, IsConsonantCluster, IsDiphthong;
    var st' := RefStep(w, fr, st);
    if IsVowel(w[fr]) {
      assert st' == st.(state := 1);
      CodaStartAt(w, fr + 1, st.to);
      var c := CodaStart(w, st.to);
      assert c == fr + 1;
      assert NucleusFrom(w, c, c) == NucleusFrom(w, c, fr);
    } else {
      assert st' == st;
    }
  }

  lemma SimStep1(w: seq<char>, fr: nat, st: RefState)
    requires fr < |w| && RefInv(w, fr + 1, st) && Sim(w, fr + 1, st) && st.state == 1
    requires w[fr] == ROUGH ==> RoughAfterVowel(w, fr)
    ensures Sim(w, fr, RefStep(w, fr, st))
  {
    hide BaseLower, IsVowel, IsConsonantCluster, IsDiphthong;
    var i := fr + 1;
    if RoughPending(w, i, st) {
      SimVowelBeforeRough(w, fr, st);
    } else if !IsNucleusChar(w[fr]) {
      SimNucleusEnds(w, fr, st);
    } else if w[i] == ACUTE || w[i] == ROUGH {
      SimAfterMark(w, fr, st);
    } else if IsDiphthong(w[fr..fr + 2]) {
      if CodaStart(w, st.to) - i > 1 && w[i + 1] == 'ι' {
        SimIotaAfterDiphthong(w, fr, st);
      } else {
        SimDiphthong(w, fr, st);
      }
    } else if w[fr] == ROUGH {
      SimRoughBeforeVowel(w, fr, st);
    } else {
      SimHiatus(w, fr, st);
    }
  }

  /** The vowel a pending rough breathing follows: the reference scanner
      reads on in the nucleus, which the kept scanner starts at the
      mark. */
  lemma SimVowelBeforeRough(w: seq<char>, fr: nat, st: RefState)
    requires fr < |w| && RefInv(w, fr + 1, st) && Sim(w, fr + 1, st) && st.state == 1
    requires RoughPending(w, fr + 1, st)
    ensures Sim(w, fr, RefStep(w, fr, st))
  {
    hide BaseLower, IsVowel, IsConsonantCluster, IsDiphthong;
    var c := CodaStart(w, st.to);
    assert RefStep(w, fr, st) == st;
    assert NucleusFrom(w, c, c) == NucleusFrom(w, c, fr);
  }

  /** A non-nucleus character ends the nucleus and starts the onset. */
  lemma SimNucleusEnds(w: seq<char>, fr: nat, st: RefState)
    requires fr < |w| && RefInv(w, fr + 1, st) && Sim(w, fr + 1, st) && st.state == 1
    requires !RoughPending(w, fr + 1, st) && !IsNucleusChar(w[fr])
    ensures Sim(w, fr, RefStep(w, fr, st))
  {
    hide BaseLower, IsVowel, IsConsonantCluster, IsDiphthong;
    var c := CodaStart(w, st.to);
    var n := NucleusFrom(w, c, c);
    assert n == NucleusFrom(w, c, fr + 1) == fr + 1;
    assert RefStep(w, fr, st) == st.(state := 2);
    assert OnsetFromKept(w, n, n) == OnsetFromKept(w, n, fr);
  }

  /** A nucleus character before the acute or the rough mark joins the
      nucleus. */
  lemma SimAfterMark(w: seq<char>, fr: nat, st: RefState)
    requires fr < |w| && RefInv(w, fr + 1, st) && Sim(w, fr + 1, st) && st.state == 1
    requires !RoughPending(w, fr + 1, st)
    requires IsNucleusChar(w[fr]) && (w[fr + 1] == ACUTE || w[fr + 1] == ROUGH)
    ensures Sim(w, fr, RefStep(w, fr, st))
  {
    hide BaseLower, IsVowel, IsConsonantCluster, IsDiphthong;
    var c := CodaStart(w, st.to);
    assert RefStep(w, fr, st) == st;
    assert NucleusFrom(w, c, fr + 1) == NucleusFrom(w, c, fr);
  }

  /** A diphthong with no iota after it inside the nucleus joins the
      nucleus. */
  lemma SimDiphthong(w: seq<char>, fr: nat, st: RefState)
    requires fr < |w| && RefInv(w, fr + 1, st) && Sim(w, fr + 1, st) && st.state == 1
    requires !RoughPending(w, fr + 1, st)
    requires IsNucleusChar(w[fr]) && w[fr + 1] != ACUTE && w[fr + 1] != ROUGH
    requires IsDiphthong(w[fr..fr + 2])
    requires !(CodaStart(w, st.to) - (fr + 1) > 1 && w[fr + 2] == 'ι')
    ensures Sim(w, fr, RefStep(w, fr, st))
  {
    hide BaseLower, IsVowel, IsConsonantCluster, IsDiphthong;
    var c := CodaStart(w, st.to);
    assert NucleusFrom(w, c, fr + 1) == NucleusFrom(w, c, fr);
    if fr + 2 < |w| && w[fr + 2] == 'ι' && fr + 2 < st.to {
      IotaIsVowel();
      CodaStartIsCoda(w, st.to);
      assert false;
    }
    assert RefStep(w, fr, st) == st;
  }

  /** A rough breathing that follows a vowel, before a vowel it makes no
      diphthong with: the reference scanner cuts after the mark, and so
      does the kept scanner, which leaves the mark out of the onset. The
      mark is then pending alone. */
  lemma SimRoughBeforeVowel(w: seq<char>, fr: nat, st: RefState)
    requires fr < |w| && RefInv(w, fr + 1, st) && Sim(w, fr + 1, st) && st.state == 1
    requires !RoughPending(w, fr + 1, st)
    requires RoughAfterVowel(w, fr) && w[fr + 1] != ACUTE && w[fr + 1] != ROUGH
    requires !IsDiphthong(w[fr..fr + 2])
    ensures Sim(w, fr, RefStep(w, fr, st))
  {
    hide BaseLower, IsVowel, IsConsonantCluster, IsDiphthong;
    var i := fr + 1;
    var c := CodaStart(w, st.to);
    var n := NucleusFrom(w, c, c);
    var st' := RefStep(w, fr, st);
    assert st' == RefState(1, i, st.out + [w[i..st.to]]);
    assert n == NucleusFrom(w, c, i) == i;
    assert SyllableStartKept(w, st.to) == i;
    CutSyllable(w, st.to, st.out, i);
    RoughIsNoVowel();
    CodaStartAt(w, fr, i);
    assert RoughPending(w, fr, st');
  }

  /** Two vowels that make no diphthong: both scanners cut between them. */
  lemma SimHiatus(w: seq<char>, fr: nat, st: RefState)
    requires fr < |w| && RefInv(w, fr + 1, st) && Sim(w, fr + 1, st) && st.state == 1
    requires !RoughPending(w, fr + 1, st)
    requires IsVowel(w[fr]) && w[fr + 1] != ACUTE && w[fr + 1] != ROUGH
    requires !IsDiphthong(w[fr..fr + 2])
    ensures Sim(w, fr, RefStep(w, fr, st))
  {
    hide BaseLower, IsVowel, IsConsonantCluster, IsDiphthong;
    var i := fr + 1;
    var c := CodaStart(w, st.to);
    var n := NucleusFrom(w, c, c);
    var st' := RefStep(w, fr, st);
    RoughIsNoVowel();
    assert st' == RefState(1, i, st.out + [w[i..st.to]]);
    assert n == NucleusFrom(w, c, i) == i;
    assert SyllableStartKept(w, st.to) == i;
    CutSyllable(w, st.to, st.out, i);
    EnterNucleus(w, fr, st');
  }

  /** A diphthong followed by an iota inside the nucleus: both scanners cut
      before the iota. */
  lemma SimIotaAfterDiphthong(w: seq<char>, fr: nat, st: RefState)
    requires fr < |w| && RefInv(w, fr + 1, st) && Sim(w, fr + 1, st) && st.state == 1
    requires !RoughPending(w, fr + 1, st)
    requires IsNucleusChar(w[fr]) && w[fr + 1] != ACUTE && w[fr + 1] != ROUGH
    requires IsDiphthong(w[fr..fr + 2])
    requires CodaStart(w, st.to) - (fr + 1) > 1 && w[fr + 2] == 'ι'
    ensures Sim(w, fr, RefStep(w, fr, st))
  {
    hide BaseLower, IsVowel, IsConsonantCluster, IsDiphthong;
    var c := CodaStart(w, st.to);
    var st' := RefStep(w, fr, st);
    DiphthongEndsInVowel(w[fr..fr + 2]);
    assert w[fr..fr + 2][1] == w[fr + 1];
    assert NucleusFrom(w, c, fr + 1) == fr + 2;
    assert SyllableStartKept(w, st.to) == fr + 2;
    CutSyllable(w, st.to, st.out, fr + 2);
    assert st' == RefState(1, fr + 2, st.out + [w[fr + 2..st.to]]);
    CodaStartAt(w, fr + 2, fr + 2);
    assert NucleusFrom(w, fr + 2, fr + 2) == NucleusFrom(w, fr + 2, fr + 1);
    assert NucleusFrom(w, fr + 2, fr + 1) == NucleusFrom(w, fr + 2, fr);
  }

  lemma SimStep2(w: seq<char>, fr: nat, st: RefState)
    requires fr < |w| && RefInv(w, fr + 1, st) && Sim(w, fr + 1, st) && st.state == 2
    ensures Sim(w, fr, RefStep(w, fr, st))
  {
    hide BaseLower, IsVowel, IsConsonantCluster, IsDiphthong;
    var i := fr + 1;
    var c := CodaStart(w, st.to);
    var n := NucleusFrom(w, c, c);
    var st' := RefStep(w, fr, st);
    if IsVowel(w[fr]) {
      assert SyllableStartKept(w, st.to) == i;
      CutSyllable(w, st.to, st.out, i);
      EnterNucleus(w, fr, st');
    } else {
      ClusterSlice(w, fr, st.to);
      ClusterSlice(w, fr, n);
      if !IsConsonantCluster(w[fr..st.to]) {
        assert SyllableStartKept(w, st.to) == i;
        CutSyllable(w, st.to, st.out, i);
      } else if w[fr] == ROUGH {
        RoughStartsNoCluster(w[fr..st.to]);
      }
    }
  }

  /** One step of the reference scanner keeps it in step with the kept
      scanner. */
  lemma SimStep(w: seq<char>, fr: nat, st: RefState)
    requires fr < |w| && RefInv(w, fr + 1, st) && Sim(w, fr + 1, st)
    requires w[fr] == ROUGH ==> RoughAfterVowel(w, fr)
    ensures Sim(w, fr, RefStep(w, fr, st))
  {
    if st.state == 0 {
      SimStep0(w, fr, st);
    } else if st.state == 1 {
      SimStep1(w, fr, st);
    } else {
      SimStep2(w, fr, st);
    }
  }

  /** From a state in step with the kept scanner, the reference scanner
      returns the kept scanner's syllables. */
  lemma {:induction false} SimRun(w: seq<char>, i: nat, st: RefState)
    requires RefInv(w, i, st) && Sim(w, i, st) && RoughsFollowVowels(w)
    ensures RefRun(w, i, st) == SyllablesKept(w)
    decreases i, 1
  {
    hide BaseLower, IsVowel, IsConsonantCluster, IsDiphthong;
    if i == 0 {
      SimFinish(w, st);
    } else {
      SimRunStep(w, i, st);
    }
  }

  lemma {:induction false} SimRunStep(w: seq<char>, i: nat, st: RefState)
    requires 0 < i && RefInv(w, i, st) && Sim(w, i, st) && RoughsFollowVowels(w)
    ensures RefRun(w, i, st) == SyllablesKept(w)
    decreases i, 0
  {
    hide BaseLower, IsVowel, IsConsonantCluster, IsDiphthong;
    SimStep(w, i - 1, st);
    var st' := RefStep(w, i - 1, st);
    SimRun(w, i - 1, st');
  }

  /** With the whole word read, the last syllable the reference scanner
      dumps is the kept scanner's first. */
  lemma SimFinish(w: seq<char>, st: RefState)
    requires RefInv(w, 0, st) && Sim(w, 0, st)
    ensures RefRun(w, 0, st) == SyllablesKept(w)
  {
    hide BaseLower, IsVowel, IsConsonantCluster, IsDiphthong;
    if 0 < st.to {
      assert SyllableStartKept(w, st.to) == 0 by {
        if st.state == 0 {
          CodaStartAt(w, 0, st.to);
        }
      }
      assert SyllablesUpToKept(w, st.to) == [w[0..st.to]] by {
        assert SyllablesUpToKept(w, 0) == [];
      }
      ReverseSnoc(st.out, w[0..st.to]);
    }
  }

  /** The reference scanner cuts exactly where the kept scanner does on
      every word whose rough breathings all follow a vowel. */
  lemma RefAgreesWithKept(w: seq<char>)
    requires RoughsFollowVowels(w)
    ensures RefSyllables(w) == SyllablesKept(w)
  {
    SimRun(w, |w|, RefState(0, |w|, []));
  }

  /** On a word without the combining rough breathing the reference scanner
      cuts exactly where the scanner as written does. */
  lemma RefAgreesWithoutRough(w: seq<char>)
    requires forall k :: 0 <= k < |w| ==> w[k] != ROUGH
    ensures RefSyllables(w) == Syllables(w)
  {
    RefAgreesWithKept(w);
    KeptAgreesWithoutRough(w);
  }

  /** On alpha, combining rough breathing, epsilon the scanner as written
      splits the alpha from its breathing and keeps the mark with the
      epsilon; the reference scanner and the kept scanner keep it with the
      alpha. */
  lemma RefDisagreesOnRough()
    ensures var w := ['α', ROUGH, 'ε'];
            && Syllables(w) == [['α'], [ROUGH, 'ε']]
            && !KeepsMarks(Syllables(w))
            && RefSyllables(w) == [['α', ROUGH], ['ε']]
            && SyllablesKept(w) == RefSyllables(w)
  {
    var w := ['α', ROUGH, 'ε'];
    IotaIsVowel();
    RoughIsNoVowel();
    assert IsVowel('α') && IsVowel('ε');
    assert !IsDiphthong(w[1..3]);
    assert CodaStart(w, 3) == 3;
    assert NucleusFrom(w, 3, 3) == 2 by {
      assert NucleusFrom(w, 3, 3) == NucleusFrom(w, 3, 2);
    }
    assert OnsetFrom(w, 2, 2) == 1 by {
      assert OnsetFrom(w, 2, 2) == OnsetFrom(w, 2, 1);
    }
    assert SyllableStart(w, 3) == 1;
    assert CodaStart(w, 1) == 1;
    assert NucleusFrom(w, 1, 1) == 0;
    assert SyllableStart(w, 1) == 0;
    assert w[0..1] == ['α'] && w[1..3] == [ROUGH, 'ε'] && w[2..3] == ['ε'] && w[0..2] == ['α', ROUGH];
    assert SyllablesUpTo(w, 1) == [['α']] by {
      assert SyllablesUpTo(w, 0) == [];
    }
    assert Syllables(w) == SyllablesUpTo(w, 1) + [w[1..3]];
    assert !KeepsRough(Syllables(w)[0], Syllables(w)[1]);

    var st0 := RefState(0, 3, []);
    var st1 := RefStep(w, 2, st0);
    assert st1 == RefState(1, 3, []);
    var st2 := RefStep(w, 1, st1);
    assert st2 == RefState(1, 2, [['ε']]);
    var st3 := RefStep(w, 0, st2);
    assert st3 == st2;
    assert Reverse([['ε'], ['α', ROUGH]]) == [['α', ROUGH], ['ε']];
    assert RefRun(w, 0, st3) == Reverse([['ε'], ['α', ROUGH]]);
    assert RefSyllables(w) == RefRun(w, 0, st3);
    assert RoughAfterVowel(w, 1);
    RefAgreesWithKept(w);
  }

  /** The reference scanner's syllables are non-empty and concatenate back
      to the word, rough breathing or not. */
  lemma {:induction false} RefRunPartition(w: seq<char>, i: nat, st: RefState)
    requires RefInv(w, i, st)
    requires Concat(Reverse(st.out)) == w[st.to..] && AllNonEmpty(st.out)
    ensures Concat(RefRun(w, i, st)) == w && AllNonEmpty(RefRun(w, i, st))
    decreases i, 1
  {
    hide BaseLower, IsVowel, IsConsonantCluster, IsDiphthong;
    if i == 0 {
      if 0 < st.to {
        CutKeepsPartition(w, 0, st.to, st.out);
        AllNonEmptyReverse(st.out + [w[0..st.to]]);
      } else {
        assert w[0..] == w;
        AllNonEmptyReverse(st.out);
      }
    } else {
      RefRunPartitionStep(w, i, st);
    }
  }

  lemma {:induction false} RefRunPartitionStep(w: seq<char>, i: nat, st: RefState)
    requires 0 < i && RefInv(w, i, st)
    requires Concat(Reverse(st.out)) == w[st.to..] && AllNonEmpty(st.out)
    ensures Concat(RefRun(w, i, st)) == w && AllNonEmpty(RefRun(w, i, st))
    decreases i, 0
  {
    hide BaseLower, IsVowel, IsConsonantCluster, IsDiphthong;
    var st' := RefStep(w, i - 1, st);
    if st'.to < st.to {
      CutKeepsPartition(w, st'.to, st.to, st.out);
    }
    RefRunPartition(w, i - 1, st');
  }

  /** Cutting `w[fr..to]` off in front of a partition of `w[to..]`. */
  lemma CutKeepsPartition(w: seq<char>, fr: nat, to: nat, out: seq<seq<char>>)
    requires fr < to <= |w| && Concat(Reverse(out)) == w[to..] && AllNonEmpty(out)
    ensures Concat(Reverse(out + [w[fr..to]])) == w[fr..] && AllNonEmpty(out + [w[fr..to]])
  {
    hide BaseLower, IsVowel, IsConsonantCluster, IsDiphthong;
    ReverseSnoc(out, w[fr..to]);
    ConcatAppend([w[fr..to]], Reverse(out));
    assert Concat([w[fr..to]]) == w[fr..to] by {
      assert [w[fr..to]][..0] == [];
    }
    assert w[fr..to] + w[to..] == w[fr..];
  }

  lemma RefPartition(w: seq<char>)
    ensures Concat(RefSyllables(w)) == w
    ensures AllNonEmpty(RefSyllables(w))
  {
    assert w[|w|..] == [];
    RefRunPartition(w, |w|, RefState(0, |w|, []));
  }

  // ---------------------------------------------------------------------
  // The reference scanner, as the source writes it

  /** Appends the slice of `word` from the byte offset of character `fr` to
      that of character `to`. */
  method Dump(word: seq<byte>, chars: seq<char>, fr: nat, to: nat, result: seq<seq<byte>>)
    returns (result': seq<seq<byte>>)
    requires word == Encode(chars) && fr <= to <= |chars|
    ensures result' == result + [Encode(chars[fr..to])]
  {
    var start := ByteOffset(chars, fr);
    var end := ByteOffset(chars, to);
    SliceAtByteOffsets(chars, fr, to);
    result' := result + [word[start..end]];
  }

  /** `Dump`, then the pending syllable ends at `fr`. */
  method DumpMove(word: seq<byte>, chars: seq<char>, fr: nat, to: nat, result: seq<seq<byte>>)
    returns (result': seq<seq<byte>>, to': nat)
    requires word == Encode(chars) && fr <= to <= |chars|
    ensures result' == result + [Encode(chars[fr..to])] && to' == fr
  {
    result' := Dump(word, chars, fr, to, result);
    to' := fr;
  }

  /** The reference scanner reads `chars[fr]`: the body of its loop. The
      ghost `st` is the state `RefStep` describes; the new state is the one
      `RefStep` gives, with any syllable cut appended to `out` as a byte
      slice of `word`. */
  method RefRead(word: seq<byte>, chars: seq<char>, fr: nat, state: nat, to: nat,
                 out: seq<seq<byte>>, ghost st: RefState)
    returns (state': nat, to': nat, out': seq<seq<byte>>)
    requires word == Encode(chars) && fr < |chars| && RefInv(chars, fr + 1, st)
    requires state == st.state && to == st.to && out == EncodeAll(st.out)
    ensures var st' := RefStep(chars, fr, st);
            state' == st'.state && to' == st'.to && out' == EncodeAll(st'.out)
  {
    hide BaseLower, IsVowel, IsConsonantCluster, IsDiphthong;
    state', to', out' := state, to, out;
    var ch := chars[fr];
    if state == 0 {
      if IsVowel(ch) {
        state' := 1;
      }
    } else if state == 1 {
      if IsVowel(ch) || ch == ROUGH {
        var prev := chars[fr + 1];
        if prev == ACUTE || prev == ROUGH {
          // nothing to do
        } else if IsDiphthong(chars[fr..fr + 2]) {
          // a diphthong followed by an iota: dump only what follows it
          if fr + 2 < |chars| && chars[fr + 2] == 'ι' {
            if fr + 2 < to {
              out' := Dump(word, chars, fr + 2, to, out);
              to' := fr + 2;
            }
          }
        } else {
          out', to' := DumpMove(word, chars, fr + 1, to, out);
        }
      } else {
        state' := 2;
      }
    } else if state == 2 {
      if IsVowel(ch) {
        out', to' := DumpMove(word, chars, fr + 1, to, out);
        state' := 1;
      } else if !IsConsonantCluster(chars[fr..to]) {
        out', to' := DumpMove(word, chars, fr + 1, to, out);
        state' := 0;
      }
    }
    EncodeAllSnoc(st.out, chars[to'..to]);
  }

  /** The reference scanner: one pass from the last character to the first
      through the coda, nucleus and onset states. It is a partition of the
      word on every input; it agrees with `SyllabifyKept` on every word whose
      rough breathings all follow a vowel, and with `Syllabify` on every word
      without the combining rough breathing. */
  method SyllabifyRef(chars: seq<char>) returns (result: seq<seq<byte>>)
    ensures result == EncodeAll(RefSyllables(chars))
    ensures Concat(result) == Encode(chars)
    ensures forall i :: 0 <= i < |result| ==> result[i] != []
    ensures RoughsFollowVowels(chars) ==> result == EncodeAll(SyllablesKept(chars))
    ensures (forall k :: 0 <= k < |chars| ==> chars[k] != ROUGH) ==>
              result == EncodeAll(Syllables(chars))
  {
    hide BaseLower, IsVowel, IsConsonantCluster, IsDiphthong;
    var word := Encode(chars);
    var out: seq<seq<byte>> := [];
    var state: nat := 0;
    var to: nat := |chars|;
    ghost var st := RefState(0, |chars|, []);
    for fr := |chars| downto 0
      invariant RefInv(chars, fr, st)
      invariant state == st.state && to == st.to && out == EncodeAll(st.out)
      invariant RefRun(chars, fr, st) == RefSyllables(chars)
    {
      state, to, out := RefRead(word, chars, fr, state, to, out, st);
      st := RefStep(chars, fr, st);
    }
    if 0 < to {
      out := Dump(word, chars, 0, to, out);
      EncodeAllSnoc(st.out, chars[0..to]);
    }
    result := Reverse(out);
    EncodeAllReverse(if 0 < st.to then st.out + [chars[0..st.to]] else st.out);
    RefPartition(chars);
    ConcatEncodeAll(RefSyllables(chars));
    forall i | 0 <= i < |result|
      ensures result[i] != []
    {
      EncodeNonEmpty(RefSyllables(chars)[i]);
    }
    if RoughsFollowVowels(chars) {
      RefAgreesWithKept(chars);
    }
    if forall k :: 0 <= k < |chars| ==> chars[k] != ROUGH {
      RefAgreesWithoutRough(chars);
    }
  }
}
