/** Uppercasing the first letter of a modern Greek word at the level of its
    UTF-8 bytes, as the capitalizing string-array builder does. */
module Uppercase {
  import opened Utf8
  import opened Wrappers

  /** The lowercase letters of modern Greek, and their uppercase forms in
      the same order (both σ and ς become Σ). */
  const LOWER: string := "αάβγδεέζηήθιίκλμνξοόπρσςτυύφχψωώ"
  const UPPER: string := "ΑΆΒΓΔΕΈΖΗΉΘΙΊΚΛΜΝΞΟΌΠΡΣΣΤΥΎΦΧΨΩΏ"

  /** The UTF-8 bytes of the uppercase form of the lowercase letter whose
      UTF-8 bytes are `(a, b)`; `None` for any other pair, which the builders
      never pass. */
  function ToUppercaseGrBytes(a: byte, b: byte): (r: Option<(byte, byte)>)
    ensures r.Some? ==> (a == 206 || a == 207) && IsTail(b)
    ensures r.Some? ==> r.value.0 == 206 && IsTail(r.value.1)
  {
    match (a, b)
    case (206, 177) => Some((206, 145))  // α > Α
    case (206, 172) => Some((206, 134))  // ά > Ά
    case (206, 178) => Some((206, 146))  // β > Β
    case (206, 179) => Some((206, 147))  // γ > Γ
    case (206, 180) => Some((206, 148))  // δ > Δ
    case (206, 181) => Some((206, 149))  // ε > Ε
    case (206, 173) => Some((206, 136))  // έ > Έ
    case (206, 182) => Some((206, 150))  // ζ > Ζ
    case (206, 183) => Some((206, 151))  // η > Η
    case (206, 174) => Some((206, 137))  // ή > Ή
    case (206, 184) => Some((206, 152))  // θ > Θ
    case (206, 185) => Some((206, 153))  // ι > Ι
    case (206, 175) => Some((206, 138))  // ί > Ί
    case (206, 186) => Some((206, 154))  // κ > Κ
    case (206, 187) => Some((206, 155))  // λ > Λ
    case (206, 188) => Some((206, 156))  // μ > Μ
    case (206, 189) => Some((206, 157))  // ν > Ν
    case (206, 190) => Some((206, 158))  // ξ > Ξ
    case (206, 191) => Some((206, 159))  // ο > Ο
    case (207, 140) => Some((206, 140))  // ό > Ό
    case (207, 128) => Some((206, 160))  // π > Π
    case (207, 129) => Some((206, 161))  // ρ > Ρ
    case (207, 131) => Some((206, 163))  // σ > Σ
    case (207, 130) => Some((206, 163))  // ς > Σ
    case (207, 132) => Some((206, 164))  // τ > Τ
    case (207, 133) => Some((206, 165))  // υ > Υ
    case (207, 141) => Some((206, 142))  // ύ > Ύ
    case (207, 134) => Some((206, 166))  // φ > Φ
    case (207, 135) => Some((206, 167))  // χ > Χ
    case (207, 136) => Some((206, 168))  // ψ > Ψ
    case (207, 137) => Some((206, 169))  // ω > Ω
    case (207, 142) => Some((206, 143))  // ώ > Ώ
    case _ => None
  }

  /** Letter `i` of both tables is a 2-byte character, and the uppercase
      table maps the bytes of the lowercase letter to those of the
      uppercase one. */
  predicate UppercasesLetter(i: nat)
    requires i < |LOWER| && i < |UPPER|
  {
    CharLen(LOWER[i]) == 2 && CharLen(UPPER[i]) == 2 &&
    ToUppercaseGrBytes(EncodeChar(LOWER[i])[0], EncodeChar(LOWER[i])[1])
      == Some((EncodeChar(UPPER[i])[0], EncodeChar(UPPER[i])[1]))
  }

  lemma UppercaseTablePart0(i: nat)
    requires 0 <= i < 8
    ensures UppercasesLetter(i)
  {
    match i
      case 0 =>
      case 1 =>
      case 2 =>
      case 3 =>
      case 4 =>
      case 5 =>
      case 6 =>
      case _ =>
  }

  lemma UppercaseTablePart1(i: nat)
    requires 8 <= i < 16
    ensures UppercasesLetter(i)
  {
    match i
      case 8 =>
      case 9 =>
      case 10 =>
      case 11 =>
      case 12 =>
      case 13 =>
      case 14 =>
      case _ =>
  }

  lemma UppercaseTablePart2(i: nat)
    requires 16 <= i < 24
    ensures UppercasesLetter(i)
  {
    match i
      case 16 =>
      case 17 =>
      case 18 =>
      case 19 =>
      case 20 =>
      case 21 =>
      case 22 =>
      case _ =>
  }

  lemma UppercaseTablePart3(i: nat)
    requires 24 <= i < 32
    ensures UppercasesLetter(i)
  {
    match i
      case 24 =>
      case 25 =>
      case 26 =>
      case 27 =>
      case 28 =>
      case 29 =>
      case 30 =>
      case _ =>
  }

  /** The uppercase table covers all 32 lowercase letters. */
  lemma UppercaseTable()
    ensures |LOWER| == |UPPER| == 32
    ensures forall i :: 0 <= i < 32 ==> UppercasesLetter(i)
  {
    forall i | 0 <= i < 32
      ensures UppercasesLetter(i)
    {
      if i < 8 { UppercaseTablePart0(i); }
      else if i < 16 { UppercaseTablePart1(i); }
      else if i < 24 { UppercaseTablePart2(i); }
      else { UppercaseTablePart3(i); }
    }
  }

  /** A string the capitalizing copy accepts: at least two bytes, the first
      two being a lowercase letter of the uppercase table. */
  predicate Capitalizable(s: seq<byte>)
  {
    |s| >= 2 && ToUppercaseGrBytes(s[0], s[1]).Some?
  }

  /** `s` with its first letter uppercased. */
  function Capitalized(s: seq<byte>): (r: seq<byte>)
    requires Capitalizable(s)
    ensures |r| == |s| && r[2..] == s[2..]
  {
    var (a, b) := ToUppercaseGrBytes(s[0], s[1]).value;
    [a, b] + s[2..]
  }

  /** Capitalizing the bytes of a word that starts with lowercase letter
      `i` gives the bytes of the word that starts with uppercase letter `i`
      instead (e.g. άλφα becomes Άλφα). */
  lemma CapitalizedWord(i: nat, rest: string)
    requires i < 32
    ensures |LOWER| == |UPPER| == 32
    ensures Capitalizable(Encode([LOWER[i]] + rest))
    ensures Capitalized(Encode([LOWER[i]] + rest)) == Encode([UPPER[i]] + rest)
  {
    UppercaseTable();
    assert UppercasesLetter(i);
    EncodeAppend([LOWER[i]], rest);
    EncodeAppend([UPPER[i]], rest);
    assert [LOWER[i]][..0] == [] && [UPPER[i]][..0] == [];
  }

  /** Capitalizing well-formed UTF-8 keeps it well-formed. */
  lemma CapitalizedValid(s: seq<byte>)
    requires Capitalizable(s) && ValidUtf8(s)
    ensures ValidUtf8(Capitalized(s))
  {
    var c := Capitalized(s);
    assert FirstCharLen(s) == 2;
    assert FirstCharLen(c) == 2;
    assert c[2..] == s[2..];
  }
}
