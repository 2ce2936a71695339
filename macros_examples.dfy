/** The string-array builders on the examples of their documentation, and
    the word lists of the monotonic conversion rebuilt from the lowercase
    forms they are written as. */
module MacrosExamples {
  import opened Utf8
  import opened Uppercase
  import opened Macros
  import Syllabify
  import Monotonic

  /** `lower` is the lowercase word `w`, whose first letter is letter `n`
      of the uppercase table, and `upper` is `w` with that letter
      uppercased. */
  predicate PairAt(w: string, n: nat, lower: string, upper: string)
  {
    && |LOWER| == |UPPER| == 32
    && n < 32 && w != [] && w[0] == LOWER[n]
    && lower == w && upper == [UPPER[n]] + w[1..]
  }

  /** The lowercase words `base` and the list that holds each of them
      followed by its capitalization, given the index in the uppercase table
      of each word's first letter. */
  predicate CapitalizedPairs(base: seq<string>, firsts: seq<nat>, list: seq<string>)
  {
    && |firsts| == |base| && 2 * |base| == |list|
    && forall i :: 0 <= i < |base| ==> PairAt(base[i], firsts[i], list[2 * i], list[2 * i + 1])
  }

  /** A list written as a lowercase list with its capitalizations is what
      the capitalizing builder makes of that lowercase list. */
  lemma WithCapitalizedOfPairs(base: seq<string>, firsts: seq<nat>, list: seq<string>)
    requires CapitalizedPairs(base, firsts, list)
    ensures forall i :: 0 <= i < |base| ==> Capitalizable(EncodeAll(base)[i])
    ensures WithCapitalized(EncodeAll(base)) == EncodeAll(list)
  {
    hide Encode, EncodeChar;
    var x := EncodeAll(base);
    forall i | 0 <= i < |base|
      ensures Capitalizable(x[i]) && Capitalized(x[i]) == Encode(list[2 * i + 1])
    {
      assert PairAt(base[i], firsts[i], list[2 * i], list[2 * i + 1]);
      assert base[i] == [LOWER[firsts[i]]] + base[i][1..];
      CapitalizedWord(firsts[i], base[i][1..]);
    }
    var r, e := WithCapitalized(x), EncodeAll(list);
    forall j | 0 <= j < |list|
      ensures r[j] == e[j]
    {
      var i := j / 2;
      assert PairAt(base[i], firsts[i], list[2 * i], list[2 * i + 1]);
      assert x[i] == Encode(base[i]) && base[i] == list[2 * i];
      assert Capitalized(x[i]) == Encode(list[2 * i + 1]);
      if j % 2 == 0 {
        assert j == 2 * i;
        assert r[j] == x[i] && e[j] == Encode(list[2 * i]);
      } else {
        assert j == 2 * i + 1;
        assert r[j] == Capitalized(x[i]) && e[j] == Encode(list[2 * i + 1]);
      }
    }
  }

  /** with_capitalized!(["άλφα", "αλλά"]) is ["άλφα", "Άλφα", "αλλά", "Αλλά"]. */
  lemma WithCapitalizedDoc()
    ensures var x := EncodeAll(["άλφα", "αλλά"]);
            && (forall i :: 0 <= i < |x| ==> Capitalizable(x[i]))
            && WithCapitalized(x) == EncodeAll(["άλφα", "Άλφα", "αλλά", "Αλλά"])
  {
    UppercaseTable();
    WithCapitalizedOfPairs(["άλφα", "αλλά"], [1, 0], ["άλφα", "Άλφα", "αλλά", "Αλλά"]);
  }

  /** expand!(["νέ", "νι"], ["ος", "ο", "ου"]) is
      ["νέος", "νέο", "νέου", "νιος", "νιο", "νιου"]. */
  lemma ExpandDoc()
    ensures Product(EncodeAll(["νέ", "νι"]), EncodeAll(["ος", "ο", "ου"]))
            == EncodeAll(["νέος", "νέο", "νέου", "νιος", "νιο", "νιου"])
  {
    hide Encode, EncodeChar;
    var l, r := ["νέ", "νι"], ["ος", "ο", "ου"];
    var e := ["νέος", "νέο", "νέου", "νιος", "νιο", "νιου"];
    var x, y := EncodeAll(l), EncodeAll(r);
    var p, q := Product(x, y), EncodeAll(e);
    forall n | 0 <= n < 6
      ensures p[n] == q[n]
    {
      var i, j := if n < 3 then 0 else 1, if n < 3 then n else n - 3;
      assert n == i * 3 + j;
      ProductRow(x, y, i);
      EncodeAppend(l[i], r[j]);
      assert e[n] == l[i] + r[j] by {
        if n == 0 {} else if n == 1 {} else if n == 2 {}
        else if n == 3 {} else if n == 4 {} else {}
      }
    }
  }

  /** The correctly accented monosyllables are the six lowercase ones with
      their capitalizations. */
  lemma MonosyllableAccentedList()
    ensures var x := EncodeAll(["ή", "πού", "πώς", "είς", "έν", "έξ"]);
            && (forall i :: 0 <= i < |x| ==> Capitalizable(x[i]))
            && WithCapitalized(x) == EncodeAll(Monotonic.MONOSYLLABLE_ACCENTED)
  {
    MonosyllableAccentedPairs();
    WithCapitalizedOfPairs(["ή", "πού", "πώς", "είς", "έν", "έξ"], [9, 20, 20, 5, 6, 6],
                           Monotonic.MONOSYLLABLE_ACCENTED);
  }

  lemma MonosyllableAccentedPairs()
    ensures CapitalizedPairs(["ή", "πού", "πώς", "είς", "έν", "έξ"], [9, 20, 20, 5, 6, 6],
                             Monotonic.MONOSYLLABLE_ACCENTED)
  {
    var base, list := ["ή", "πού", "πώς", "είς", "έν", "έξ"], Monotonic.MONOSYLLABLE_ACCENTED;
    var firsts: seq<nat> := [9, 20, 20, 5, 6, 6];
    forall i | 0 <= i < 6
      ensures PairAt(base[i], firsts[i], list[2 * i], list[2 * i + 1])
    {
      if i == 0 {} else if i == 1 {} else if i == 2 {} else if i == 3 {} else if i == 4 {} else {}
    }
  }

  /** Two such lists joined are one such list. */
  lemma CapitalizedPairsAppend(b1: seq<string>, f1: seq<nat>, l1: seq<string>,
                               b2: seq<string>, f2: seq<nat>, l2: seq<string>)
    requires CapitalizedPairs(b1, f1, l1) && CapitalizedPairs(b2, f2, l2)
    ensures CapitalizedPairs(b1 + b2, f1 + f2, l1 + l2)
  {
    hide PairAt;
    var b, f, l := b1 + b2, f1 + f2, l1 + l2;
    forall i | 0 <= i < |b|
      ensures PairAt(b[i], f[i], l[2 * i], l[2 * i + 1])
    {
      if i < |b1| {
        assert b[i] == b1[i] && f[i] == f1[i];
        assert l[2 * i] == l1[2 * i] && l[2 * i + 1] == l1[2 * i + 1];
        assert PairAt(b1[i], f1[i], l1[2 * i], l1[2 * i + 1]);
      } else {
        var i2 := i - |b1|;
        assert b[i] == b2[i2] && f[i] == f2[i2];
        assert l[2 * i] == l2[2 * i2] && l[2 * i + 1] == l2[2 * i2 + 1];
        assert PairAt(b2[i2], f2[i2], l2[2 * i2], l2[2 * i2 + 1]);
      }
    }
  }

  /** The monosyllables that lose their accent are the sixteen lowercase
      ones with their capitalizations. */
  lemma MonosylRemoveAccentList()
    ensures var x := EncodeAll(REMOVE_ACCENT_BASE);
            && (forall i :: 0 <= i < |x| ==> Capitalizable(x[i]))
            && WithCapitalized(x) == EncodeAll(Monotonic.MONOSYL_REMOVE_ACCENT)
  {
    RemoveAccentPairs();
    WithCapitalizedOfPairs(REMOVE_ACCENT_BASE, REMOVE_ACCENT_FIRSTS, Monotonic.MONOSYL_REMOVE_ACCENT);
  }

  lemma RemoveAccentPairs()
    ensures CapitalizedPairs(REMOVE_ACCENT_BASE, REMOVE_ACCENT_FIRSTS, Monotonic.MONOSYL_REMOVE_ACCENT)
  {
    var b0, f0, l0 := ["πιό", "πιά", "μιά", "μιάς"], [20, 20, 15, 15], ["πιό", "Πιό", "πιά", "Πιά", "μιά", "Μιά", "μιάς", "Μιάς"];
    RemoveAccentPairs0();
    var b1, f1, l1 := ["γιά", "γειά", "πιώ", "πίεις"], [3, 3, 20, 20], ["γιά", "Γιά", "γειά", "Γειά", "πιώ", "Πιώ", "πίεις", "Πίεις"];
    RemoveAccentPairs1();
    var b2, f2, l2 := ["πίη", "πιή", "πίει", "πιεί"], [20, 20, 20, 20], ["πίη", "Πίη", "πιή", "Πιή", "πίει", "Πίει", "πιεί", "Πιεί"];
    RemoveAccentPairs2();
    var b3, f3, l3 := ["πίης", "πιής", "πιούν", "πιές"], [20, 20, 20, 20], ["πίης", "Πίης", "πιής", "Πιής", "πιούν", "Πιούν", "πιές", "Πιές"];
    RemoveAccentPairs3();
    CapitalizedPairsAppend(b0, f0, l0, b1, f1, l1);
    CapitalizedPairsAppend(b2, f2, l2, b3, f3, l3);
    CapitalizedPairsAppend(b0 + b1, f0 + f1, l0 + l1, b2 + b3, f2 + f3, l2 + l3);
    RemoveAccentJoin(b0, b1, b2, b3, l0, l1, l2, l3);
    assert f0 + f1 + (f2 + f3) == REMOVE_ACCENT_FIRSTS;
  }

  lemma RemoveAccentJoin(b0: seq<string>, b1: seq<string>, b2: seq<string>, b3: seq<string>,
                         l0: seq<string>, l1: seq<string>, l2: seq<string>, l3: seq<string>)
    requires b0 == ["πιό", "πιά", "μιά", "μιάς"] && b1 == ["γιά", "γειά", "πιώ", "πίεις"]
    requires b2 == ["πίη", "πιή", "πίει", "πιεί"] && b3 == ["πίης", "πιής", "πιούν", "πιές"]
    requires l0 == ["πιό", "Πιό", "πιά", "Πιά", "μιά", "Μιά", "μιάς", "Μιάς"]
    requires l1 == ["γιά", "Γιά", "γειά", "Γειά", "πιώ", "Πιώ", "πίεις", "Πίεις"]
    requires l2 == ["πίη", "Πίη", "πιή", "Πιή", "πίει", "Πίει", "πιεί", "Πιεί"]
    requires l3 == ["πίης", "Πίης", "πιής", "Πιής", "πιούν", "Πιούν", "πιές", "Πιές"]
    ensures b0 + b1 + (b2 + b3) == REMOVE_ACCENT_BASE
    ensures l0 + l1 + (l2 + l3) == Monotonic.MONOSYL_REMOVE_ACCENT
  {
    assert b0 + b1 + (b2 + b3) == REMOVE_ACCENT_BASE;
    assert l0 + l1 + (l2 + l3) == Monotonic.MONOSYL_REMOVE_ACCENT;
  }

  /** The lowercase forms of the monosyllables that lose their accent, and
      the index in the uppercase table of each one's first letter. */
  const REMOVE_ACCENT_BASE: seq<string> := [
    "πιό", "πιά", "μιά", "μιάς", "γιά", "γειά", "πιώ",
    "πίεις", "πίη", "πιή", "πίει", "πιεί", "πίης", "πιής", "πιούν", "πιές"
  ]
  const REMOVE_ACCENT_FIRSTS: seq<nat> := [20, 20, 15, 15] + [3, 3, 20, 20] + ([20, 20, 20, 20] + [20, 20, 20, 20])

  lemma RemoveAccentPairs0()
    ensures CapitalizedPairs(["πιό", "πιά", "μιά", "μιάς"], [20, 20, 15, 15],
                             ["πιό", "Πιό", "πιά", "Πιά", "μιά", "Μιά", "μιάς", "Μιάς"])
  {
    var base, list := ["πιό", "πιά", "μιά", "μιάς"],
                      ["πιό", "Πιό", "πιά", "Πιά", "μιά", "Μιά", "μιάς", "Μιάς"];
    var firsts: seq<nat> := [20, 20, 15, 15];
    forall i | 0 <= i < 4
      ensures PairAt(base[i], firsts[i], list[2 * i], list[2 * i + 1])
    {
      if i == 0 {} else if i == 1 {} else if i == 2 {} else {}
    }
  }

  lemma RemoveAccentPairs1()
    ensures CapitalizedPairs(["γιά", "γειά", "πιώ", "πίεις"], [3, 3, 20, 20],
                             ["γιά", "Γιά", "γειά", "Γειά", "πιώ", "Πιώ", "πίεις", "Πίεις"])
  {
    var base, list := ["γιά", "γειά", "πιώ", "πίεις"],
                      ["γιά", "Γιά", "γειά", "Γειά", "πιώ", "Πιώ", "πίεις", "Πίεις"];
    var firsts: seq<nat> := [3, 3, 20, 20];
    forall i | 0 <= i < 4
      ensures PairAt(base[i], firsts[i], list[2 * i], list[2 * i + 1])
    {
      if i == 0 {} else if i == 1 {} else if i == 2 {} else {}
    }
  }

  lemma RemoveAccentPairs2()
    ensures CapitalizedPairs(["πίη", "πιή", "πίει", "πιεί"], [20, 20, 20, 20],
                             ["πίη", "Πίη", "πιή", "Πιή", "πίει", "Πίει", "πιεί", "Πιεί"])
  {
    var base, list := ["πίη", "πιή", "πίει", "πιεί"],
                      ["πίη", "Πίη", "πιή", "Πιή", "πίει", "Πίει", "πιεί", "Πιεί"];
    var firsts: seq<nat> := [20, 20, 20, 20];
    forall i | 0 <= i < 4
      ensures PairAt(base[i], firsts[i], list[2 * i], list[2 * i + 1])
    {
      if i == 0 {} else if i == 1 {} else if i == 2 {} else {}
    }
  }

  lemma RemoveAccentPairs3()
    ensures CapitalizedPairs(["πίης", "πιής", "πιούν", "πιές"], [20, 20, 20, 20],
                             ["πίης", "Πίης", "πιής", "Πιής", "πιούν", "Πιούν", "πιές", "Πιές"])
  {
    var base, list := ["πίης", "πιής", "πιούν", "πιές"],
                      ["πίης", "Πίης", "πιής", "Πιής", "πιούν", "Πιούν", "πιές", "Πιές"];
    var firsts: seq<nat> := [20, 20, 20, 20];
    forall i | 0 <= i < 4
      ensures PairAt(base[i], firsts[i], list[2 * i], list[2 * i + 1])
    {
      if i == 0 {} else if i == 1 {} else if i == 2 {} else {}
    }
  }
}
