/** Words from the syllabifier's tests, cut by the model. */
module SyllabifyExamples {
  import opened Chars
  import opened Syllabify
  import opened Seqs

  /** A consonant pair that makes a cluster moves to the next syllable: κό-σμος. */
  lemma Kosmos()
    ensures Syllables("κόσμος") == ["κό", "σμος"]
  {
    var w := "κόσμος";
    hide BaseLower, IsVowel, IsConsonantCluster, IsDiphthong;
    KosmosCut2();
    KosmosCut6();
    assert SyllablesUpTo(w, 0) == [];
    assert SyllablesUpTo(w, 2) == [w[0..2]];
    assert SyllablesUpTo(w, 6) == [w[0..2], w[2..6]];
    assert w[0..2] == "κό";
    assert w[2..6] == "σμος";
  }

  lemma KosmosCut2()
    ensures SyllableStart("κόσμος", 2) == 0
  {
    var w := "κόσμος";
    assert !IsVowel(w[0]) && IsVowel(w[1]);
    assert CodaStart(w, 2) == 2;
    assert NucleusFrom(w, 2, 2) == NucleusFrom(w, 2, 1) == 1;
  }

  lemma KosmosCut6()
    ensures SyllableStart("κόσμος", 6) == 2
  {
    var w := "κόσμος";
    assert IsVowel(w[1]) && !IsVowel(w[2]) && !IsVowel(w[3]) && IsVowel(w[4]) && !IsVowel(w[5]);
    assert CodaStart(w, 6) == CodaStart(w, 5) == 5;
    assert NucleusFrom(w, 5, 5) == NucleusFrom(w, 5, 4) == 4;
    ClusterSlice(w, 2, 4);
    assert ClusterAt(w, 2) by { assert w[2..4] == [w[2], w[3]]; }
  }

  /** A consonant that makes no cluster with the next stays behind: άν-δρας. */
  lemma Andras()
    ensures Syllables("άνδρας") == ["άν", "δρας"]
  {
    var w := "άνδρας";
    hide BaseLower, IsVowel, IsConsonantCluster, IsDiphthong;
    AndrasCut2();
    AndrasCut6();
    assert SyllablesUpTo(w, 0) == [];
    assert SyllablesUpTo(w, 2) == [w[0..2]];
    assert SyllablesUpTo(w, 6) == [w[0..2], w[2..6]];
    assert w[0..2] == "άν";
    assert w[2..6] == "δρας";
  }

  lemma AndrasCut2()
    ensures SyllableStart("άνδρας", 2) == 0
  {
    var w := "άνδρας";
    assert IsVowel(w[0]) && !IsVowel(w[1]);
    assert CodaStart(w, 2) == CodaStart(w, 1) == 1;
    assert NucleusFrom(w, 1, 1) == NucleusFrom(w, 1, 0) == 0;
  }

  lemma AndrasCut6()
    ensures SyllableStart("άνδρας", 6) == 2
  {
    var w := "άνδρας";
    assert !IsVowel(w[1]) && !IsVowel(w[2]) && !IsVowel(w[3]) && IsVowel(w[4]) && !IsVowel(w[5]);
    assert CodaStart(w, 6) == CodaStart(w, 5) == 5;
    assert NucleusFrom(w, 5, 5) == NucleusFrom(w, 5, 4) == 4;
    ClusterSlice(w, 2, 4);
    assert ClusterAt(w, 2) by { assert w[2..4] == [w[2], w[3]]; }
    ClusterSlice(w, 1, 4);
    assert !ClusterAt(w, 1) by { assert w[1..3] == [w[1], w[2]]; }
  }

  /** A three-consonant onset of two clusters: στρες is one syllable. */
  lemma Stres()
    ensures Syllables("στρες") == ["στρες"]
  {
    var w := "στρες";
    hide BaseLower, IsVowel, IsConsonantCluster, IsDiphthong;
    StresCut5();
    assert SyllablesUpTo(w, 0) == [];
    assert SyllablesUpTo(w, 5) == [w[0..5]];
    assert w[0..5] == "στρες";
  }

  lemma StresCut5()
    ensures SyllableStart("στρες", 5) == 0
  {
    var w := "στρες";
    assert !IsVowel(w[0]) && !IsVowel(w[1]) && !IsVowel(w[2]) && IsVowel(w[3]) && !IsVowel(w[4]);
    assert CodaStart(w, 5) == CodaStart(w, 4) == 4;
    assert NucleusFrom(w, 4, 4) == NucleusFrom(w, 4, 3) == 3;
    ClusterSlice(w, 1, 3);
    assert ClusterAt(w, 1) by { assert w[1..3] == [w[1], w[2]]; }
    ClusterSlice(w, 0, 3);
    assert ClusterAt(w, 0) by { assert w[0..2] == [w[0], w[1]]; }
  }

  /** A combining acute stays with its vowel: φῡ́-ω. */
  lemma Fyo()
    ensures Syllables("φῡ\U{0301}ω") == ["φῡ\U{0301}", "ω"]
  {
    var w := "φῡ\U{0301}ω";
    hide BaseLower, IsVowel, IsConsonantCluster, IsDiphthong;
    FyoCut3();
    FyoCut4();
    assert SyllablesUpTo(w, 0) == [];
    assert SyllablesUpTo(w, 3) == [w[0..3]];
    assert SyllablesUpTo(w, 4) == [w[0..3], w[3..4]];
    assert w[0..3] == "φῡ\U{0301}";
    assert w[3..4] == "ω";
  }

  lemma FyoCut3()
    ensures SyllableStart("φῡ\U{0301}ω", 3) == 0
  {
    var w := "φῡ\U{0301}ω";
    assert !IsVowel(w[0]) && IsVowel(w[1]) && IsVowel(w[2]);
    assert CodaStart(w, 3) == 3;
    assert NucleusFrom(w, 3, 3) == NucleusFrom(w, 3, 2) == NucleusFrom(w, 3, 1) == 1;
  }

  lemma FyoCut4()
    ensures SyllableStart("φῡ\U{0301}ω", 4) == 3
  {
    var w := "φῡ\U{0301}ω";
    assert IsVowel(w[2]) && IsVowel(w[3]);
    assert CodaStart(w, 4) == 4;
    assert !IsDiphthong(w[2..4]) by { assert w[2..4] == [w[2], w[3]]; }
    assert NucleusFrom(w, 4, 4) == NucleusFrom(w, 4, 3) == 3;
  }

  /** An iota after a diphthong stands alone: ἄ-ρου-ι. */
  lemma Aroui()
    ensures Syllables("ἄρουι") == ["ἄ", "ρου", "ι"]
  {
    var w := "ἄρουι";
    hide BaseLower, IsVowel, IsConsonantCluster, IsDiphthong;
    ArouiCut1();
    ArouiCut4();
    ArouiCut5();
    assert SyllablesUpTo(w, 0) == [];
    assert SyllablesUpTo(w, 1) == [w[0..1]];
    assert SyllablesUpTo(w, 4) == [w[0..1], w[1..4]];
    assert SyllablesUpTo(w, 5) == [w[0..1], w[1..4], w[4..5]];
    assert w[0..1] == "ἄ";
    assert w[1..4] == "ρου";
    assert w[4..5] == "ι";
  }

  lemma ArouiCut1()
    ensures SyllableStart("ἄρουι", 1) == 0
  {
    var w := "ἄρουι";
    assert IsVowel(w[0]);
    assert CodaStart(w, 1) == 1;
    assert NucleusFrom(w, 1, 1) == NucleusFrom(w, 1, 0) == 0;
  }

  lemma ArouiCut4()
    ensures SyllableStart("ἄρουι", 4) == 1
  {
    var w := "ἄρουι";
    assert IsVowel(w[0]) && !IsVowel(w[1]) && IsVowel(w[2]) && IsVowel(w[3]);
    assert CodaStart(w, 4) == 4;
    assert IsDiphthong(w[2..4]) by { assert w[2..4] == [w[2], w[3]]; }
    assert NucleusFrom(w, 4, 4) == NucleusFrom(w, 4, 3) == NucleusFrom(w, 4, 2) == 2;
  }

  lemma ArouiCut5()
    ensures SyllableStart("ἄρουι", 5) == 4
  {
    var w := "ἄρουι";
    assert IsVowel(w[2]) && IsVowel(w[3]) && IsVowel(w[4]);
    assert CodaStart(w, 5) == 5;
    assert IsDiphthong(w[3..5]) by { assert w[3..5] == [w[3], w[4]]; }
    assert IsDiphthong(w[2..4]) by { assert w[2..4] == [w[2], w[3]]; }
    assert NucleusFrom(w, 5, 5) == NucleusFrom(w, 5, 4) == NucleusFrom(w, 5, 3) == 4;
  }

  /** An iota after a diphthong stands alone: Ἀ-χαι-ι-ά. */
  lemma Achaiia()
    ensures Syllables("Ἀχαιιά") == ["Ἀ", "χαι", "ι", "ά"]
  {
    var w := "Ἀχαιιά";
    hide BaseLower, IsVowel, IsConsonantCluster, IsDiphthong;
    AchaiiaCut1();
    AchaiiaCut4();
    AchaiiaCut5();
    AchaiiaCut6();
    assert SyllablesUpTo(w, 0) == [];
    assert SyllablesUpTo(w, 1) == [w[0..1]];
    assert SyllablesUpTo(w, 4) == [w[0..1], w[1..4]];
    assert SyllablesUpTo(w, 5) == [w[0..1], w[1..4], w[4..5]];
    assert SyllablesUpTo(w, 6) == [w[0..1], w[1..4], w[4..5], w[5..6]];
    assert w[0..1] == "Ἀ";
    assert w[1..4] == "χαι";
    assert w[4..5] == "ι";
    assert w[5..6] == "ά";
  }

  lemma AchaiiaCut1()
    ensures SyllableStart("Ἀχαιιά", 1) == 0
  {
    var w := "Ἀχαιιά";
    assert IsVowel(w[0]);
    assert CodaStart(w, 1) == 1;
    assert NucleusFrom(w, 1, 1) == NucleusFrom(w, 1, 0) == 0;
  }

  lemma AchaiiaCut4()
    ensures SyllableStart("Ἀχαιιά", 4) == 1
  {
    var w := "Ἀχαιιά";
    assert IsVowel(w[0]) && !IsVowel(w[1]) && IsVowel(w[2]) && IsVowel(w[3]);
    assert CodaStart(w, 4) == 4;
    assert IsDiphthong(w[2..4]) by { assert w[2..4] == [w[2], w[3]]; }
    assert NucleusFrom(w, 4, 4) == NucleusFrom(w, 4, 3) == NucleusFrom(w, 4, 2) == 2;
  }

  lemma AchaiiaCut5()
    ensures SyllableStart("Ἀχαιιά", 5) == 4
  {
    var w := "Ἀχαιιά";
    assert IsVowel(w[3]) && IsVowel(w[4]);
    assert CodaStart(w, 5) == 5;
    assert !IsDiphthong(w[3..5]) by { assert w[3..5] == [w[3], w[4]]; }
    assert NucleusFrom(w, 5, 5) == NucleusFrom(w, 5, 4) == 4;
  }

  lemma AchaiiaCut6()
    ensures SyllableStart("Ἀχαιιά", 6) == 5
  {
    var w := "Ἀχαιιά";
    assert IsVowel(w[4]) && IsVowel(w[5]);
    assert CodaStart(w, 6) == 6;
    assert !IsDiphthong(w[4..6]) by { assert w[4..6] == [w[4], w[5]]; }
    assert NucleusFrom(w, 6, 6) == NucleusFrom(w, 6, 5) == 5;
  }

  /** A diphthong is one nucleus: γυ-ναι-κός. */
  lemma Gynaikos()
    ensures Syllables("γυναικός") == ["γυ", "ναι", "κός"]
  {
    var w := "γυναικός";
    hide BaseLower, IsVowel, IsConsonantCluster, IsDiphthong;
    GynaikosCut2();
    GynaikosCut5();
    GynaikosCut8();
    assert SyllablesUpTo(w, 0) == [];
    assert SyllablesUpTo(w, 2) == [w[0..2]];
    assert SyllablesUpTo(w, 5) == [w[0..2], w[2..5]];
    assert SyllablesUpTo(w, 8) == [w[0..2], w[2..5], w[5..8]];
    assert w[0..2] == "γυ";
    assert w[2..5] == "ναι";
    assert w[5..8] == "κός";
  }

  lemma GynaikosCut2()
    ensures SyllableStart("γυναικός", 2) == 0
  {
    var w := "γυναικός";
    assert !IsVowel(w[0]) && IsVowel(w[1]);
    assert CodaStart(w, 2) == 2;
    assert NucleusFrom(w, 2, 2) == NucleusFrom(w, 2, 1) == 1;
  }

  lemma GynaikosCut5()
    ensures SyllableStart("γυναικός", 5) == 2
  {
    var w := "γυναικός";
    assert IsVowel(w[1]) && !IsVowel(w[2]) && IsVowel(w[3]) && IsVowel(w[4]);
    assert CodaStart(w, 5) == 5;
    assert IsDiphthong(w[3..5]) by { assert w[3..5] == [w[3], w[4]]; }
    assert NucleusFrom(w, 5, 5) == NucleusFrom(w, 5, 4) == NucleusFrom(w, 5, 3) == 3;
  }

  lemma GynaikosCut8()
    ensures SyllableStart("γυναικός", 8) == 5
  {
    var w := "γυναικός";
    assert IsVowel(w[4]) && !IsVowel(w[5]) && IsVowel(w[6]) && !IsVowel(w[7]);
    assert CodaStart(w, 8) == CodaStart(w, 7) == 7;
    assert NucleusFrom(w, 7, 7) == NucleusFrom(w, 7, 6) == 6;
  }

  /** The diphthong test takes exactly two characters making a diphthong
      whose second has no diaeresis. */
  lemma DiphthongExamples()
    ensures IsDiphthong(['α', 'ι'])
    ensures !IsDiphthong(['ι', 'α', 'ι'])
    ensures !IsDiphthong(['α', 'ε'])
    ensures !IsDiphthong(['α', 'ϋ'])
  {
  }

  /** A rough breathing after a consonant, outside the words
      `RefAgreesWithKept` covers: the reference scanner keeps the mark with
      the kappa, both scanners with the epsilon. */
  lemma RoughAfterConsonant()
    ensures var w := ['κ', ROUGH, 'ε'];
            && RefSyllables(w) == [['κ', ROUGH], ['ε']]
            && SyllablesKept(w) == [['κ'], [ROUGH, 'ε']]
            && Syllables(w) == SyllablesKept(w)
  {
    var w := ['κ', ROUGH, 'ε'];
    RoughIsNoVowel();
    assert IsVowel('ε') && !IsVowel('κ');
    assert !IsDiphthong(w[1..3]) && !IsConsonantCluster(w[0..2]);
    assert CodaStart(w, 3) == 3;
    assert NucleusFrom(w, 3, 3) == NucleusFrom(w, 3, 2) == 2;
    assert OnsetFromKept(w, 2, 2) == OnsetFromKept(w, 2, 1) == 1;
    assert OnsetFrom(w, 2, 2) == OnsetFrom(w, 2, 1) == 1;
    assert CodaStart(w, 1) == 0;
    assert w[0..1] == ['κ'] && w[1..3] == [ROUGH, 'ε'] && w[2..3] == ['ε'] && w[0..2] == ['κ', ROUGH];
    assert SyllablesUpToKept(w, 1) == [['κ']] by {
      assert SyllablesUpToKept(w, 0) == [];
    }
    assert SyllablesUpTo(w, 1) == [['κ']] by {
      assert SyllablesUpTo(w, 0) == [];
    }
    assert SyllablesKept(w) == SyllablesUpToKept(w, 1) + [w[1..3]];
    assert Syllables(w) == SyllablesUpTo(w, 1) + [w[1..3]];

    var st1 := RefStep(w, 2, RefState(0, 3, []));
    assert st1 == RefState(1, 3, []);
    var st2 := RefStep(w, 1, st1);
    assert st2 == RefState(1, 2, [['ε']]);
    var st3 := RefStep(w, 0, st2);
    assert st3 == RefState(2, 2, [['ε']]);
    assert Reverse([['ε'], ['κ', ROUGH]]) == [['κ', ROUGH], ['ε']];
    assert RefRun(w, 0, st3) == Reverse([['ε'], ['κ', ROUGH]]);
    assert RefSyllables(w) == RefRun(w, 0, st3);
  }

  /** A rho with its rough breathing decomposed, as in αῥε: neither scanner
      gives α / ῥε. The scanner leaves the rho in the first syllable and
      the breathing in the second; the reference scanner gives the rho and
      its breathing a syllable of their own that holds no vowel. */
  lemma DecomposedRho()
    ensures var w := ['α', 'ρ', ROUGH, 'ε'];
            && Syllables(w) == [['α', 'ρ'], [ROUGH, 'ε']]
            && RefSyllables(w) == [['α'], ['ρ', ROUGH], ['ε']]
  {
    var w := ['α', 'ρ', ROUGH, 'ε'];
    RoughIsNoVowel();
    assert IsVowel('ε') && IsVowel('α') && !IsVowel('ρ');
    assert !IsDiphthong(w[2..4]) && !IsConsonantCluster(w[1..3]);
    assert CodaStart(w, 4) == 4;
    assert NucleusFrom(w, 4, 4) == NucleusFrom(w, 4, 3) == 3;
    assert OnsetFrom(w, 3, 3) == OnsetFrom(w, 3, 2) == 2;
    assert CodaStart(w, 2) == CodaStart(w, 1) == 1;
    assert NucleusFrom(w, 1, 1) == NucleusFrom(w, 1, 0) == 0;
    assert OnsetFrom(w, 0, 0) == 0;
    assert w[0..2] == ['α', 'ρ'] && w[2..4] == [ROUGH, 'ε'];
    assert SyllablesUpTo(w, 2) == [['α', 'ρ']] by {
      assert SyllablesUpTo(w, 0) == [];
    }
    assert Syllables(w) == SyllablesUpTo(w, 2) + [w[2..4]];

    var st1 := RefStep(w, 3, RefState(0, 4, []));
    assert st1 == RefState(1, 4, []);
    var st2 := RefStep(w, 2, st1);
    assert w[3..4] == ['ε'];
    assert st2 == RefState(1, 3, [['ε']]);
    var st3 := RefStep(w, 1, st2);
    assert st3 == RefState(2, 3, [['ε']]);
    var st4 := RefStep(w, 0, st3);
    assert w[1..3] == ['ρ', ROUGH];
    assert st4 == RefState(1, 1, [['ε'], ['ρ', ROUGH]]);
    assert w[0..1] == ['α'];
    assert Reverse([['ε'], ['ρ', ROUGH], ['α']]) == [['α'], ['ρ', ROUGH], ['ε']];
    assert RefRun(w, 0, st4) == Reverse([['ε'], ['ρ', ROUGH], ['α']]);
    assert RefSyllables(w) == RefRun(w, 0, st4);
  }
}
