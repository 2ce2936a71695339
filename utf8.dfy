/** UTF-8 as RFC 3629 defines it: the byte length of a scalar value and its
    encoding (section 3), the byte offset of a character index in an encoded
    string, and the well-formedness grammar of section 4. The scanner slices
    its syllables out of the word by these byte offsets, and the string-array
    builders check their output with the grammar. */
module Utf8 {
  import opened Seqs

  type byte = b: int | 0 <= b < 256

  /** Number of bytes in the UTF-8 form of `c` (section 3 of RFC 3629). */
  function CharLen(c: char): (n: nat)
    ensures 1 <= n <= 4
    ensures n == 1 <==> (c as int) < 0x80
  {
    var v := c as int;
    if v < 0x80 then 1 else if v < 0x800 then 2 else if v < 0x1_0000 then 3 else 4
  }

  /** The UTF-8 form of one scalar value. */
  function EncodeChar(c: char): (bs: seq<byte>)
    ensures |bs| == CharLen(c)
  {
    var v := c as int;
    if v < 0x80 then [v]
    else if v < 0x800 then [0xC0 + v / 64, 0x80 + v % 64]
    else if v < 0x1_0000 then [0xE0 + v / 4096, 0x80 + (v / 64) % 64, 0x80 + v % 64]
    else [0xF0 + v / 262144, 0x80 + (v / 4096) % 64, 0x80 + (v / 64) % 64, 0x80 + v % 64]
  }

  /** The UTF-8 form of a string: the encodings of its characters, in order. */
  function Encode(s: seq<char>): seq<byte>
  {
    if s == [] then [] else Encode(s[..|s| - 1]) + EncodeChar(s[|s| - 1])
  }

  /** Sum of the byte lengths of the first `i` characters of `s`. */
  function ByteOffset(s: seq<char>, i: nat): nat
    requires i <= |s|
  {
    if i == 0 then 0 else ByteOffset(s, i - 1) + CharLen(s[i - 1])
  }

  lemma {:induction false} EncodeAppend(a: seq<char>, b: seq<char>)
    ensures Encode(a + b) == Encode(a) + Encode(b)
    decreases |b|
  {
    if b == [] {
      assert a + b == a;
    } else {
      var b' := b[..|b| - 1];
      hide EncodeChar;
      assert (a + b)[..|a + b| - 1] == a + b';
      assert (a + b)[|a + b| - 1] == b[|b| - 1];
      EncodeAppend(a, b');
    }
  }

  lemma {:induction false} ByteOffsetIsEncodedLength(s: seq<char>, i: nat)
    requires i <= |s|
    ensures ByteOffset(s, i) == |Encode(s[..i])|
  {
    if i > 0 {
      ByteOffsetIsEncodedLength(s, i - 1);
      assert s[..i][..i - 1] == s[..i - 1];
    }
  }

  /** Cutting the encoded string at the byte offsets of two character
      indices yields exactly the encoding of the characters between them. */
  lemma SliceAtByteOffsets(s: seq<char>, i: nat, j: nat)
    requires i <= j <= |s|
    ensures ByteOffset(s, i) <= ByteOffset(s, j) <= |Encode(s)|
    ensures Encode(s)[ByteOffset(s, i)..ByteOffset(s, j)] == Encode(s[i..j])
  {
    assert s == s[..i] + s[i..j] + s[j..];
    assert s[..j] == s[..i] + s[i..j];
    EncodeAppend(s[..i] + s[i..j], s[j..]);
    EncodeAppend(s[..i], s[i..j]);
    ByteOffsetIsEncodedLength(s, i);
    ByteOffsetIsEncodedLength(s, j);
  }

  // ---------------------------------------------------------------------
  // Well-formed UTF-8 (section 4 of RFC 3629)

  predicate IsTail(b: byte) { 0x80 <= b <= 0xBF }

  /** Length of the well-formed character that `bs` starts with, or 0 when
      `bs` does not start with one (UTF8-1 .. UTF8-4 of section 4). */
  function FirstCharLen(bs: seq<byte>): (n: nat)
    ensures n <= 4 && n <= |bs|
    ensures bs == [] ==> n == 0
  {
    if bs == [] then 0
    else
      var b0 := bs[0];
      if b0 <= 0x7F then 1
      else if 0xC2 <= b0 <= 0xDF then
        if |bs| >= 2 && IsTail(bs[1]) then 2 else 0
      else if 0xE0 <= b0 <= 0xEF then
        if |bs| >= 3 && IsTail(bs[2]) &&
           (if b0 == 0xE0 then 0xA0 <= bs[1] <= 0xBF
            else if b0 == 0xED then 0x80 <= bs[1] <= 0x9F
            else IsTail(bs[1]))
        then 3 else 0
      else if 0xF0 <= b0 <= 0xF4 then
        if |bs| >= 4 && IsTail(bs[2]) && IsTail(bs[3]) &&
           (if b0 == 0xF0 then 0x90 <= bs[1] <= 0xBF
            else if b0 == 0xF4 then 0x80 <= bs[1] <= 0x8F
            else IsTail(bs[1]))
        then 4 else 0
      else 0
  }

  /** `bs` is a sequence of well-formed UTF-8 characters (what Rust's
      `std::str::from_utf8` accepts). */
  predicate ValidUtf8(bs: seq<byte>)
    decreases |bs|
  {
    bs == [] || (FirstCharLen(bs) > 0 && ValidUtf8(bs[FirstCharLen(bs)..]))
  }

  /** The first character length only looks at the first character's bytes. */
  lemma FirstCharLenPrefix(a: seq<byte>, b: seq<byte>)
    requires FirstCharLen(a) > 0
    ensures FirstCharLen(a + b) == FirstCharLen(a)
  {
    var n := FirstCharLen(a);
    assert forall k :: 0 <= k < n ==> (a + b)[k] == a[k];
  }

  lemma EncodeCharWellFormed(c: char, rest: seq<byte>)
    ensures FirstCharLen(EncodeChar(c) + rest) == CharLen(c)
  {
    var v := c as int;
    var e := EncodeChar(c);
    if v >= 0x800 && v < 0x1_0000 {
      assert e[0] == 0xE0 + v / 4096;
      if v < 0x1000 {
        assert e[0] == 0xE0;
        assert 0x20 <= v / 64;
      } else if 0xD000 <= v < 0xE000 {
        assert v < 0xD800;
        assert e[0] == 0xED;
        assert (v / 64) % 64 == v / 64 - 0x340;
      }
    } else if v >= 0x1_0000 {
      if v < 0x4_0000 {
        assert e[0] == 0xF0;
        assert (v / 4096) % 64 == v / 4096;
      } else if v >= 0x10_0000 {
        assert e[0] == 0xF4;
        assert (v / 4096) % 64 == v / 4096 - 0x100;
      }
    }
    assert (e + rest)[..|e|] == e;
  }

  lemma {:induction false} ValidAppend(a: seq<byte>, b: seq<byte>)
    requires ValidUtf8(a) && ValidUtf8(b)
    ensures ValidUtf8(a + b)
    decreases |a|
  {
    if a == [] {
      assert a + b == b;
    } else {
      var n := FirstCharLen(a);
      FirstCharLenPrefix(a, b);
      assert (a + b)[n..] == a[n..] + b;
      ValidAppend(a[n..], b);
    }
  }

  /** Every encoded string is well-formed UTF-8. */
  lemma {:induction false} EncodeValid(s: seq<char>)
    ensures ValidUtf8(Encode(s))
    decreases |s|
  {
    if s != [] {
      var e := EncodeChar(s[0]);
      EncodeCharWellFormed(s[0], []);
      assert e + [] == e;
      assert e[|e|..] == [];
      assert ValidUtf8(e);
      EncodeValid(s[1..]);
      assert s == [s[0]] + s[1..];
      EncodeAppend([s[0]], s[1..]);
      assert Encode([s[0]]) == e by {
        assert [s[0]][..0] == [];
      }
      ValidAppend(e, Encode(s[1..]));
    }
  }

  // ---------------------------------------------------------------------
  // Lists of strings

  /** The UTF-8 forms of a sequence of strings. */
  function EncodeAll(ss: seq<seq<char>>): (r: seq<seq<byte>>)
    ensures |r| == |ss|
  {
    seq(|ss|, i requires 0 <= i < |ss| => Encode(ss[i]))
  }

  /** Encoding commutes with concatenation. */
  lemma {:induction false} ConcatEncodeAll(ss: seq<seq<char>>)
    ensures Concat(EncodeAll(ss)) == Encode(Concat(ss))
    decreases |ss|
  {
    if ss != [] {
      var init := ss[..|ss| - 1];
      ConcatEncodeAll(init);
      assert EncodeAll(ss)[..|ss| - 1] == EncodeAll(init);
      EncodeAppend(Concat(init), ss[|ss| - 1]);
    }
  }

  /** Encoding a list one string longer adds that string's encoding. */
  lemma EncodeAllSnoc(ss: seq<seq<char>>, x: seq<char>)
    ensures EncodeAll(ss + [x]) == EncodeAll(ss) + [Encode(x)]
  {
  }

  /** Encoding a list commutes with reversing it. */
  lemma EncodeAllReverse(ss: seq<seq<char>>)
    ensures EncodeAll(Reverse(ss)) == Reverse(EncodeAll(ss))
  {
    var a, b := EncodeAll(Reverse(ss)), Reverse(EncodeAll(ss));
    assert forall i :: 0 <= i < |a| ==> a[i] == b[i];
  }
}
