/** Strings laid end to end in a flat byte buffer, and the `(start, end)`
    byte range that each occupies: the layout the string-array builders
    produce, stated on sequences. */
module StrLayout {
  import opened Utf8
  import opened Seqs

  /** The `(start, end)` byte range of one built string in `mem`. */
  type Span = (nat, nat)

  /** `spans[i]` is the `(start, end)` byte range of entry `i` of `ss` when
      the entries are laid end to end from offset 0. */
  predicate Spans(ss: seq<seq<byte>>, spans: seq<Span>)
  {
    |spans| == |ss| &&
    forall i :: 0 <= i < |ss| ==> spans[i] == (|Concat(ss[..i])|, |Concat(ss[..i + 1])|)
  }

  lemma SpansSnoc(ss: seq<seq<byte>>, spans: seq<Span>, s: seq<byte>)
    requires Spans(ss, spans)
    ensures Spans(ss + [s], spans + [(|Concat(ss)|, |Concat(ss)| + |s|)])
  {
    var t, sp := ss + [s], spans + [(|Concat(ss)|, |Concat(ss)| + |s|)];
    forall i | 0 <= i < |ss|
      ensures sp[i] == (|Concat(t[..i])|, |Concat(t[..i + 1])|)
    {
      assert t[..i] == ss[..i];
      assert t[..i + 1] == ss[..i + 1];
    }
    assert t[..|ss|] == ss;
    assert t[..|ss| + 1] == t;
    ConcatSnoc(ss, s);
  }

  /** Entry `i` sits in the concatenation between the lengths of the
      concatenations of the first `i` and the first `i + 1` entries. */
  lemma EntryInConcat(ss: seq<seq<byte>>, i: nat)
    requires i < |ss|
    ensures |Concat(ss[..i])| + |ss[i]| == |Concat(ss[..i + 1])| <= |Concat(ss)|
    ensures Concat(ss)[|Concat(ss[..i])|..|Concat(ss[..i + 1])|] == ss[i]
  {
    var p, q := ss[..i], ss[..i + 1];
    assert q == p + [ss[i]];
    ConcatSnoc(p, ss[i]);
    assert ss == q + ss[i + 1..];
    ConcatAppend(q, ss[i + 1..]);
  }

  lemma SpanDelimits(ss: seq<seq<byte>>, spans: seq<Span>, mem: seq<byte>, i: nat)
    requires Spans(ss, spans) && i < |ss|
    requires |Concat(ss)| <= |mem| && mem[..|Concat(ss)|] == Concat(ss)
    ensures spans[i].0 <= spans[i].1 <= |mem| && mem[spans[i].0..spans[i].1] == ss[i]
  {
    EntryInConcat(ss, i);
    var c, a, b := Concat(ss), spans[i].0, spans[i].1;
    assert mem[a..b] == mem[..|c|][a..b];
  }

  /** The spans are contiguous, from offset 0 to the total length. */
  lemma SpansContiguous(ss: seq<seq<byte>>, spans: seq<Span>)
    requires Spans(ss, spans)
    ensures |ss| > 0 ==> spans[0].0 == 0 && spans[|ss| - 1].1 == |Concat(ss)|
    ensures forall i :: 0 <= i < |ss| - 1 ==> spans[i].1 == spans[i + 1].0
  {
    if |ss| > 0 {
      assert spans[0] == (|Concat(ss[..0])|, |Concat(ss[..1])|);
      assert ss[..0] == [];
      assert spans[|ss| - 1].1 == |Concat(ss[..|ss|])|;
      assert ss[..|ss|] == ss;
    }
    forall i | 0 <= i < |ss| - 1
      ensures spans[i].1 == spans[i + 1].0
    {
      assert spans[i + 1] == (|Concat(ss[..i + 1])|, |Concat(ss[..i + 2])|);
    }
  }

  /** In a buffer that starts with the entries laid end to end, the bytes in
      span `i` are exactly entry `i`. */
  lemma SpansDelimit(ss: seq<seq<byte>>, spans: seq<Span>, mem: seq<byte>)
    requires Spans(ss, spans)
    requires |Concat(ss)| <= |mem| && mem[..|Concat(ss)|] == Concat(ss)
    ensures forall i :: 0 <= i < |ss| ==>
              spans[i].0 <= spans[i].1 <= |mem| && mem[spans[i].0..spans[i].1] == ss[i]
  {
    forall i | 0 <= i < |ss|
      ensures spans[i].0 <= spans[i].1 <= |mem| && mem[spans[i].0..spans[i].1] == ss[i]
    {
      SpanDelimits(ss, spans, mem, i);
    }
  }

  /** Writing `s` at offset `|p|` of a buffer that starts with `p` gives a
      buffer that starts with `p + s`, the rest as it was. */
  lemma WriteAfter(p: seq<byte>, m0: seq<byte>, s: seq<byte>)
    requires |p| + |s| <= |m0|
    ensures var m := p + m0[|p|..];
            m[..|p|] + s + m[|p| + |s|..] == (p + s) + m0[|p| + |s|..]
  {
    var m := p + m0[|p|..];
    assert m[..|p|] == p;
    assert m[|p| + |s|..] == m0[|p| + |s|..];
  }

  /** The length of the concatenation of a prefix is at most the whole. */
  lemma ConcatPrefixLength(ss: seq<seq<byte>>, i: nat)
    requires i <= |ss|
    ensures |Concat(ss[..i])| + |Concat(ss[i..])| == |Concat(ss)|
  {
    assert ss == ss[..i] + ss[i..];
    ConcatAppend(ss[..i], ss[i..]);
  }

  /** The state of a builder that has laid out the first `i` entries of
      `z`: the cursor `k` is their total length, `mem` holds them from offset 0
      followed by the untouched rest of the initial buffer `m0`, and the first
      `i` cells of `idx` record their ranges. */
  predicate Layout(z: seq<seq<byte>>, i: nat, m0: seq<byte>, mem: seq<byte>,
                   idx: seq<Span>, k: nat)
  {
    i <= |z| && i <= |idx| && |Concat(z)| <= |m0| && k == |Concat(z[..i])| <= |Concat(z)|
    && mem == Concat(z[..i]) + m0[k..] && Spans(z[..i], idx[..i])
  }

  lemma LayoutStart(z: seq<seq<byte>>, m0: seq<byte>, idx: seq<Span>)
    requires |Concat(z)| <= |m0|
    ensures Layout(z, 0, m0, m0, idx, 0)
  {
    assert z[..0] == [];
  }

  /** The next entry fits in the buffer. */
  lemma LayoutRoom(z: seq<seq<byte>>, i: nat, m0: seq<byte>, mem: seq<byte>,
                   idx: seq<Span>, k: nat)
    requires Layout(z, i, m0, mem, idx, k) && i < |z|
    ensures |mem| == |m0| && k + |z[i]| <= |Concat(z)| <= |mem|
  {
    assert z[..i + 1] == z[..i] + [z[i]];
    ConcatSnoc(z[..i], z[i]);
    ConcatPrefixLength(z, i + 1);
  }

  /** Copying entry `i` at the cursor and recording its span in cell `i`
      lays out the first `i + 1` entries. */
  lemma LayoutStep(z: seq<seq<byte>>, i: nat, m0: seq<byte>, mem0: seq<byte>,
                   mem1: seq<byte>, idx: seq<Span>, k: nat)
    requires Layout(z, i, m0, mem0, idx, k) && i < |z| && i < |idx| && k + |z[i]| <= |mem0|
    requires mem1 == mem0[..k] + z[i] + mem0[k + |z[i]|..]
    ensures Layout(z, i + 1, m0, mem1, idx[i := (k, k + |z[i]|)], k + |z[i]|)
  {
    LayoutRoom(z, i, m0, mem0, idx, k);
    assert z[..i + 1] == z[..i] + [z[i]];
    ConcatSnoc(z[..i], z[i]);
    WriteAfter(Concat(z[..i]), m0, z[i]);
    SpansSnoc(z[..i], idx[..i], z[i]);
    assert idx[i := (k, k + |z[i]|)][..i + 1] == idx[..i] + [(k, k + |z[i]|)];
  }

  /** With every entry laid out, the buffer starts with their concatenation
      and the spans delimit them. */
  lemma LayoutDone(z: seq<seq<byte>>, m0: seq<byte>, mem: seq<byte>, idx: seq<Span>, k: nat)
    requires Layout(z, |z|, m0, mem, idx, k)
    ensures k == |Concat(z)| <= |mem| && mem == Concat(z) + m0[k..] && Spans(z, idx[..|z|])
    ensures |idx| == |z| ==> Spans(z, idx)
  {
    assert z[..|z|] == z;
    assert |idx| == |z| ==> idx[..|z|] == idx;
  }

  /** Two consecutive writes at the cursor are one write of their
      concatenation. */
  lemma WriteTwice(mem0: seq<byte>, k: nat, a: seq<byte>, b: seq<byte>)
    requires k + |a| + |b| <= |mem0|
    ensures var mem1 := mem0[..k] + a + mem0[k + |a|..];
            mem1[..k + |a|] + b + mem1[k + |a| + |b|..] == mem0[..k] + (a + b) + mem0[k + |a| + |b|..]
  {
    var mem1 := mem0[..k] + a + mem0[k + |a|..];
    assert mem1[..k + |a|] == mem0[..k] + a;
    assert mem1[k + |a| + |b|..] == mem0[k + |a| + |b|..];
  }
}
