/** The compile-time string-array builders: byte copies into a flat buffer
    `mem` with a cursor, `(start, end)` index pairs for each built string,
    and the slicing of the buffer back into strings. A string is modelled by
    its UTF-8 bytes. */
module Macros {
  import opened Utf8
  import opened Seqs
  import opened Wrappers
  import opened Uppercase
  import opened StrLayout

  // ---------------------------------------------------------------------
  // Copying bytes

  /** Copies `x` into `mem` at cursor `k` and returns the advanced cursor. */
  method CopyBytes(x: seq<byte>, mem: array<byte>, k: nat) returns (k': nat)
    requires k + |x| <= mem.Length
    modifies mem
    ensures k' == k + |x|
    ensures mem[..] == old(mem[..])[..k] + x + old(mem[..])[k + |x|..]
  {
    var i := 0;
    k' := k;
    while i < |x|
      invariant i <= |x| && k' == k + i
      invariant forall j :: 0 <= j < mem.Length ==>
                  mem[j] == if k <= j < k + i then x[j - k] else old(mem[j])
    {
      mem[k'] := x[i];
      k' := k' + 1;
      i := i + 1;
    }
    assert mem[..] == old(mem[..])[..k] + x + old(mem[..])[k + |x|..];
  }

  /** Copies `x` into `mem` at cursor `k` with its first letter uppercased,
      and returns the advanced cursor. */
  method CopyBytesCapitalized(x: seq<byte>, mem: array<byte>, k: nat) returns (k': nat)
    requires Capitalizable(x)
    requires k + |x| <= mem.Length
    modifies mem
    ensures k' == k + |x|
    ensures mem[..] == old(mem[..])[..k] + Capitalized(x) + old(mem[..])[k + |x|..]
  {
    var i := 0;
    k' := k;
    var (a, b) := ToUppercaseGrBytes(x[0], x[1]).value;
    mem[k'] := a;
    k' := k' + 1;
    i := i + 1;
    mem[k'] := b;
    k' := k' + 1;
    i := i + 1;
    var c := Capitalized(x);
    while i < |x|
      invariant 2 <= i <= |x| && k' == k + i
      invariant forall j :: 0 <= j < mem.Length ==>
                  mem[j] == if k <= j < k + i then c[j - k] else old(mem[j])
    {
      mem[k'] := x[i];
      k' := k' + 1;
      i := i + 1;
    }
    assert mem[..] == old(mem[..])[..k] + c + old(mem[..])[k + |x|..];
  }

  /** The total byte length of the strings of `x`. */
  method StrArrCapacity(x: seq<seq<byte>>) returns (c: nat)
    ensures c == |Concat(x)|
  {
    var i := 0;
    c := 0;
    while i < |x|
      invariant i <= |x| && c == |Concat(x[..i])|
    {
      assert x[..i + 1] == x[..i] + [x[i]];
      ConcatSnoc(x[..i], x[i]);
      c := c + |x[i]|;
      i := i + 1;
    }
    assert x[..i] == x;
  }

  // ---------------------------------------------------------------------
  // The three builders

  /** The loop of the concatenating builder: lays the strings of `src` as
      entries `base .. base + |src|` of the layout of `z`. */
  method LayStrings(src: seq<seq<byte>>, base: nat, mem: array<byte>, indices: array<Span>,
                    k: nat, ghost z: seq<seq<byte>>, ghost m0: seq<byte>)
    returns (k': nat)
    requires base + |src| <= |z| && base + |src| <= indices.Length
    requires src == z[base..base + |src|]
    requires Layout(z, base, m0, mem[..], indices[..], k)
    modifies mem, indices
    ensures Layout(z, base + |src|, m0, mem[..], indices[..], k')
  {
    hide Layout, Concat, Spans;
    k' := k;
    var i := base;
    while i < base + |src|
      invariant base <= i <= base + |src| && Layout(z, i, m0, mem[..], indices[..], k')
    {
      assert src[i - base] == z[i];
      LayoutRoom(z, i, m0, mem[..], indices[..], k');
      ghost var mem0, idx0 := mem[..], indices[..];
      var k0 := k';
      k' := CopyBytes(src[i - base], mem, k');
      indices[i] := (k0, k');
      LayoutStep(z, i, m0, mem0, mem[..], idx0, k0);
      i := i + 1;
    }
  }

  /** Lays the strings of `x` and then those of `y` end to end in `mem`,
      recording the span of each in `indices`. */
  method ConcPopulateMem(x: seq<seq<byte>>, y: seq<seq<byte>>,
                         mem: array<byte>, indices: array<Span>)
    requires indices.Length == |x| + |y|
    requires |Concat(x)| + |Concat(y)| <= mem.Length
    modifies mem, indices
    ensures |Concat(x + y)| <= mem.Length
    ensures mem[..] == Concat(x + y) + old(mem[..])[|Concat(x + y)|..]
    ensures Spans(x + y, indices[..])
  {
    ghost var z := x + y;
    ghost var m0 := mem[..];
    ConcatAppend(x, y);
    LayoutStart(z, m0, indices[..]);
    assert z[0..|x|] == x && z[|x|..|x| + |y|] == y;
    hide *;
    var k := LayStrings(x, 0, mem, indices, 0, z, m0);
    k := LayStrings(y, |x|, mem, indices, k, z, m0);
    assert |x| + |y| == |z| == indices.Length;
    LayoutDone(z, m0, mem[..], indices[..], k);
    assert indices[..][..|z|] == indices[..];
  }

  /** Each string of `x` followed by its capitalized copy. */
  function WithCapitalized(x: seq<seq<byte>>): (r: seq<seq<byte>>)
    requires forall i :: 0 <= i < |x| ==> Capitalizable(x[i])
    ensures |r| == 2 * |x|
    ensures forall i :: 0 <= i < |x| ==> r[2 * i] == x[i] && r[2 * i + 1] == Capitalized(x[i])
  {
    if x == [] then []
    else WithCapitalized(x[..|x| - 1]) + [x[|x| - 1], Capitalized(x[|x| - 1])]
  }

  /** The capitalized copies double the byte count, so a buffer of twice
      the capacity of `x` holds the result. */
  lemma {:induction false} WithCapitalizedBytes(x: seq<seq<byte>>)
    requires forall i :: 0 <= i < |x| ==> Capitalizable(x[i])
    ensures |Concat(WithCapitalized(x))| == 2 * |Concat(x)|
  {
    if x != [] {
      var p := x[..|x| - 1];
      var a := x[|x| - 1];
      WithCapitalizedBytes(p);
      var e: seq<seq<byte>> := [];
      ConcatSnoc(e, a);
      assert e + [a] == [a];
      ConcatSnoc([a], Capitalized(a));
      assert [a] + [Capitalized(a)] == [a, Capitalized(a)];
      ConcatAppend(WithCapitalized(p), [a, Capitalized(a)]);
      assert x == p + [a];
      ConcatSnoc(p, a);
    }
  }

  /** One round of the capitalizing builder: lays `s` and its capitalized
      copy as entries `2 * i` and `2 * i + 1` of the layout of `z`. */
  method LayPair(s: seq<byte>, i: nat, mem: array<byte>, indices: array<Span>,
                 k: nat, ghost z: seq<seq<byte>>, ghost m0: seq<byte>)
    returns (k': nat)
    requires Capitalizable(s)
    requires 2 * i + 1 < |z| && 2 * i + 1 < indices.Length
    requires z[2 * i] == s && z[2 * i + 1] == Capitalized(s)
    requires Layout(z, 2 * i, m0, mem[..], indices[..], k)
    modifies mem, indices
    ensures Layout(z, 2 * i + 2, m0, mem[..], indices[..], k')
    ensures forall j :: 2 * i + 2 <= j < indices.Length ==> indices[j] == old(indices[j])
  {
    hide Layout, Concat, Spans;
    LayoutRoom(z, 2 * i, m0, mem[..], indices[..], k);
    ghost var mem0, idx0 := mem[..], indices[..];
    var k0 := k;
    k' := CopyBytes(s, mem, k);
    indices[2 * i] := (k0, k');
    LayoutStep(z, 2 * i, m0, mem0, mem[..], idx0, k0);
    LayoutRoom(z, 2 * i + 1, m0, mem[..], indices[..], k');
    mem0, idx0 := mem[..], indices[..];
    k0 := k';
    k' := CopyBytesCapitalized(s, mem, k');
    indices[2 * i + 1] := (k0, k');
    LayoutStep(z, 2 * i + 1, m0, mem0, mem[..], idx0, k0);
  }

  /** Lays each string of `x` followed by its capitalized copy end to end
      in `mem`, recording their spans in `indices`; the cells of `indices`
      past the `2 * |x|` entries are left as they were. */
  method WithCapitalizedPopulateMem(x: seq<seq<byte>>, mem: array<byte>, indices: array<Span>)
    requires forall i :: 0 <= i < |x| ==> Capitalizable(x[i])
    requires 2 * |Concat(x)| <= mem.Length && 2 * |x| <= indices.Length
    modifies mem, indices
    ensures |Concat(WithCapitalized(x))| <= mem.Length
    ensures mem[..] == Concat(WithCapitalized(x)) + old(mem[..])[|Concat(WithCapitalized(x))|..]
    ensures Spans(WithCapitalized(x), indices[..2 * |x|])
    ensures forall j :: 2 * |x| <= j < indices.Length ==> indices[j] == old(indices[j])
  {
    ghost var z := WithCapitalized(x);
    ghost var m0 := mem[..];
    WithCapitalizedBytes(x);
    LayoutStart(z, m0, indices[..]);
    hide Layout, Concat, Spans, WithCapitalized;
    var k := 0;
    var i := 0;
    while i < |x|
      invariant i <= |x| && Layout(z, 2 * i, m0, mem[..], indices[..], k)
      invariant forall j :: 2 * i <= j < indices.Length ==> indices[j] == old(indices[j])
    {
      k := LayPair(x[i], i, mem, indices, k, z, m0);
      i := i + 1;
    }
    LayoutDone(z, m0, mem[..], indices[..], k);
  }

  // ---------------------------------------------------------------------
  // The cartesian product

  /** `a` followed by each string of `y`, in order. */
  function Row(a: seq<byte>, y: seq<seq<byte>>): (r: seq<seq<byte>>)
    ensures |r| == |y|
    ensures forall j :: 0 <= j < |y| ==> r[j] == a + y[j]
  {
    if y == [] then [] else Row(a, y[..|y| - 1]) + [a + y[|y| - 1]]
  }

  /** Every string of `x` followed by every string of `y`, in row-major
      order. */
  function Product(x: seq<seq<byte>>, y: seq<seq<byte>>): (r: seq<seq<byte>>)
    ensures |r| == |x| * |y|
  {
    if x == [] then [] else Product(x[..|x| - 1], y) + Row(x[|x| - 1], y)
  }

  lemma MulBelow(i: nat, n: nat, b: nat)
    requires i < n
    ensures i * b + b <= n * b
  {
    assert (i + 1) * b == i * b + b;
    assert (i + 1) * b <= n * b;
  }

  /** Row `i` of the product: entry `i * |y| + j` is `x[i]` followed by
      `y[j]`. */
  lemma {:induction false} ProductRow(x: seq<seq<byte>>, y: seq<seq<byte>>, i: nat)
    requires i < |x|
    ensures i * |y| + |y| <= |x| * |y|
    ensures forall j :: 0 <= j < |y| ==> Product(x, y)[i * |y| + j] == x[i] + y[j]
  {
    var p := x[..|x| - 1];
    var pp, r := Product(p, y), Row(x[|x| - 1], y);
    assert Product(x, y) == pp + r;
    assert (|p| + 1) * |y| == |p| * |y| + |y|;
    hide *;
    if i < |p| {
      ProductRow(p, y, i);
      MulBelow(i, |p|, |y|);
      forall j | 0 <= j < |y|
        ensures Product(x, y)[i * |y| + j] == x[i] + y[j]
      {
        assert (pp + r)[i * |y| + j] == pp[i * |y| + j];
      }
    } else {
      assert i == |p|;
      forall j | 0 <= j < |y|
        ensures Product(x, y)[i * |y| + j] == x[i] + y[j]
      {
        assert (pp + r)[i * |y| + j] == r[j];
      }
    }
  }

  /** A row holds the bytes of `a` once per string of `y`, and those of
      every string of `y` once. */
  lemma {:induction false} RowBytes(a: seq<byte>, y: seq<seq<byte>>)
    ensures |Concat(Row(a, y))| == |a| * |y| + |Concat(y)|
  {
    if y != [] {
      var q, b := y[..|y| - 1], y[|y| - 1];
      assert Row(a, y) == Row(a, q) + [a + b];
      assert y == q + [b];
      RowBytes(a, q);
      ConcatSnoc(Row(a, q), a + b);
      ConcatSnoc(q, b);
      assert (|q| + 1) * |a| == |q| * |a| + |a|;
      assert |a| * |y| == |q| * |a| + |a|;
    }
  }

  /** The byte count of the product: each string of `x` appears `|y|`
      times and each string of `y` appears `|x|` times. */
  lemma {:induction false} ProductBytes(x: seq<seq<byte>>, y: seq<seq<byte>>)
    ensures |Concat(Product(x, y))| == |Concat(x)| * |y| + |x| * |Concat(y)|
  {
    if x != [] {
      var p, a := x[..|x| - 1], x[|x| - 1];
      assert Product(x, y) == Product(p, y) + Row(a, y);
      assert x == p + [a];
      ProductBytes(p, y);
      RowBytes(a, y);
      ConcatAppend(Product(p, y), Row(a, y));
      ConcatSnoc(p, a);
      AddRow(|Concat(x)|, |x|, |Concat(p)|, |a|, |y|, |p|, |Concat(y)|);
    }
  }

  lemma AddRow(cx: nat, nx: nat, cp: nat, a: nat, ny: nat, np: nat, cy: nat)
    requires cx == cp + a && nx == np + 1
    ensures cx * ny + nx * cy == (cp * ny + np * cy) + (a * ny + cy)
  {
  }

  /** The buffer size of the cartesian product: exactly the bytes of all
      its entries. */
  function CartesianProductCapacity(x: seq<seq<byte>>, y: seq<seq<byte>>): (r: nat)
    ensures r == |Concat(Product(x, y))|
  {
    ProductBytes(x, y);
    |Concat(x)| * |y| + |x| * |Concat(y)|
  }

  /** Copies `a` and then `b` at cursor `k`: the two copies together
      write `a + b` there. */
  method CopyPair(a: seq<byte>, b: seq<byte>, mem: array<byte>, k: nat) returns (k': nat)
    requires k + |a| + |b| <= mem.Length
    modifies mem
    ensures k' == k + |a + b|
    ensures mem[..] == old(mem[..])[..k] + (a + b) + old(mem[..])[k + |a + b|..]
  {
    ghost var mem0 := mem[..];
    k' := CopyBytes(a, mem, k);
    k' := CopyBytes(b, mem, k');
    WriteTwice(mem0, k, a, b);
  }

  /** One round of the inner loop of the product builder: copies `a` and
      then `b` at the cursor as entry `n` of the layout of `z`. */
  method LayProductEntry(a: seq<byte>, b: seq<byte>, n: nat, mem: array<byte>,
                         indices: array<Span>, k: nat,
                         ghost z: seq<seq<byte>>, ghost m0: seq<byte>)
    returns (k': nat)
    requires n < |z| && n < indices.Length && z[n] == a + b
    requires Layout(z, n, m0, mem[..], indices[..], k)
    modifies mem, indices
    ensures Layout(z, n + 1, m0, mem[..], indices[..], k')
  {
    hide Layout, Concat, Spans;
    LayoutRoom(z, n, m0, mem[..], indices[..], k);
    ghost var mem0, idx0 := mem[..], indices[..];
    var k0 := k;
    k' := CopyPair(a, b, mem, k);
    indices[n] := (k0, k');
    LayoutStep(z, n, m0, mem0, mem[..], idx0, k0);
  }

  /** The inner loop of the product builder: lays `a` followed by each
      string of `y` as entries `base .. base + |y|` of the layout of `z`. */
  method LayRow(a: seq<byte>, y: seq<seq<byte>>, base: nat, mem: array<byte>,
                indices: array<Span>, k: nat,
                ghost z: seq<seq<byte>>, ghost m0: seq<byte>)
    returns (k': nat)
    requires base + |y| <= |z| && base + |y| <= indices.Length
    requires forall j :: 0 <= j < |y| ==> z[base + j] == a + y[j]
    requires Layout(z, base, m0, mem[..], indices[..], k)
    modifies mem, indices
    ensures Layout(z, base + |y|, m0, mem[..], indices[..], k')
  {
    hide Layout, Concat, Spans;
    k' := k;
    var j := 0;
    while j < |y|
      invariant j <= |y| && Layout(z, base + j, m0, mem[..], indices[..], k')
    {
      k' := LayProductEntry(a, y[j], base + j, mem, indices, k', z, m0);
      j := j + 1;
    }
  }

  /** Lays every string of `x` followed by every string of `y` end to end
      in `mem`, in row-major order, recording the span of each in
      `indices`; both arrays have exactly the size the product needs. */
  method CartesianProductPopulateMem(x: seq<seq<byte>>, y: seq<seq<byte>>,
                                     mem: array<byte>, indices: array<Span>)
    requires mem.Length == CartesianProductCapacity(x, y)
    requires indices.Length == |x| * |y|
    modifies mem, indices
    ensures mem[..] == Concat(Product(x, y))
    ensures Spans(Product(x, y), indices[..])
  {
    ghost var z := Product(x, y);
    ghost var m0 := mem[..];
    LayoutStart(z, m0, indices[..]);
    hide Layout, Concat, Spans, Product;
    var k: nat, i: nat, row: nat := 0, 0, 0;
    while i < |x|
      invariant i <= |x| && row == i * |y| && Layout(z, row, m0, mem[..], indices[..], k)
    {
      ProductRow(x, y, i);
      k := LayRow(x[i], y, row, mem, indices, k, z, m0);
      assert (i + 1) * |y| == i * |y| + |y|;
      i, row := i + 1, row + |y|;
    }
    LayoutDone(z, m0, mem[..], indices[..], k);
    assert m0[k..] == [];
  }

  // ---------------------------------------------------------------------
  // From the buffer back to strings

  /** Slices each span of `indices` out of `mem` into the matching cell of
      `strings`. Every span must be a range of `mem` holding well-formed
      UTF-8: the slicing panics otherwise. */
  method MemToStrArr(mem: seq<byte>, indices: seq<Span>, strings: array<seq<byte>>)
    requires |indices| == strings.Length
    requires forall i :: 0 <= i < |indices| ==>
               indices[i].0 <= indices[i].1 <= |mem| && ValidUtf8(mem[indices[i].0..indices[i].1])
    modifies strings
    ensures forall i :: 0 <= i < |indices| ==> strings[i] == mem[indices[i].0..indices[i].1]
  {
    var i := 0;
    while i < |indices|
      invariant i <= |indices|
      invariant forall j :: 0 <= j < i ==> strings[j] == mem[indices[j].0..indices[j].1]
    {
      var (l, r) := indices[i];
      strings[i] := mem[l..][..r - l];
      i := i + 1;
    }
  }

  /** The strings of a layout come back out of the buffer: if the buffer
      starts with the entries of `z` laid end to end and `idx` holds their
      spans, every span is valid and slices out its entry, provided the
      entries are well-formed UTF-8. */
  lemma LayoutSlices(z: seq<seq<byte>>, mem: seq<byte>, idx: seq<Span>)
    requires Spans(z, idx)
    requires |Concat(z)| <= |mem| && mem[..|Concat(z)|] == Concat(z)
    requires forall i :: 0 <= i < |z| ==> ValidUtf8(z[i])
    ensures forall i :: 0 <= i < |idx| ==>
              idx[i].0 <= idx[i].1 <= |mem| && ValidUtf8(mem[idx[i].0..idx[i].1])
              && mem[idx[i].0..idx[i].1] == z[i]
  {
    SpansDelimit(z, idx, mem);
  }

  /** Reads the built strings out of the buffer: with their spans recorded
      in `indices`, the result is exactly `z`. */
  method ReadBack(mem: array<byte>, indices: array<Span>, ghost z: seq<seq<byte>>)
    returns (strings: seq<seq<byte>>)
    requires Spans(z, indices[..])
    requires |Concat(z)| <= mem.Length && mem[..][..|Concat(z)|] == Concat(z)
    requires forall i :: 0 <= i < |z| ==> ValidUtf8(z[i])
    ensures strings == z
  {
    LayoutSlices(z, mem[..], indices[..]);
    var arr := new seq<byte>[indices.Length];
    MemToStrArr(mem[..], indices[..], arr);
    strings := arr[..];
  }

  // ---------------------------------------------------------------------
  // The macros

  /** All strings of `x` are well-formed UTF-8, as Rust's `&str` are. */
  predicate AllValid(x: seq<seq<byte>>)
  {
    forall i :: 0 <= i < |x| ==> ValidUtf8(x[i])
  }

  /** `conc!(l, r)`: the strings of `l` followed by those of `r`. */
  method Conc(l: seq<seq<byte>>, r: seq<seq<byte>>) returns (strings: seq<seq<byte>>)
    requires AllValid(l) && AllValid(r)
    ensures strings == l + r
  {
    var cl := StrArrCapacity(l);
    var cr := StrArrCapacity(r);
    var mem := new byte[cl + cr];
    var indices := new Span[|l| + |r|];
    ConcPopulateMem(l, r, mem, indices);
    assert mem[..][..|Concat(l + r)|] == Concat(l + r);
    assert AllValid(l + r) by {
      assert forall i :: 0 <= i < |l + r| ==> (l + r)[i] == if i < |l| then l[i] else r[i - |l|];
    }
    strings := ReadBack(mem, indices, l + r);
  }

  /** `expand!(l, r)`: every string of `l` followed by every string of
      `r`, in row-major order. */
  method Expand(l: seq<seq<byte>>, r: seq<seq<byte>>) returns (strings: seq<seq<byte>>)
    requires AllValid(l) && AllValid(r)
    ensures strings == Product(l, r)
  {
    var cap := CartesianProductCapacity(l, r);
    var mem := new byte[cap];
    var indices := new Span[|l| * |r|];
    CartesianProductPopulateMem(l, r, mem, indices);
    assert mem[..][..|Concat(Product(l, r))|] == Concat(Product(l, r));
    ProductValid(l, r);
    strings := ReadBack(mem, indices, Product(l, r));
  }

  /** `with_capitalized!(x)`: each string of `x` followed by its
      capitalized copy. */
  method WithCapitalizedStrings(x: seq<seq<byte>>) returns (strings: seq<seq<byte>>)
    requires AllValid(x) && forall i :: 0 <= i < |x| ==> Capitalizable(x[i])
    ensures strings == WithCapitalized(x)
  {
    var c := StrArrCapacity(x);
    var mem := new byte[2 * c];
    var indices := new Span[2 * |x|];
    WithCapitalizedPopulateMem(x, mem, indices);
    WithCapitalizedBytes(x);
    assert mem[..][..|Concat(WithCapitalized(x))|] == Concat(WithCapitalized(x));
    assert indices[..2 * |x|] == indices[..];
    WithCapitalizedValid(x);
    strings := ReadBack(mem, indices, WithCapitalized(x));
  }

  lemma AllValidAppend(u: seq<seq<byte>>, v: seq<seq<byte>>)
    requires AllValid(u) && AllValid(v)
    ensures AllValid(u + v)
  {
    assert forall i :: 0 <= i < |u + v| ==> (u + v)[i] == if i < |u| then u[i] else v[i - |u|];
  }

  /** The entries of the product of well-formed strings are well-formed. */
  lemma {:induction false} ProductValid(x: seq<seq<byte>>, y: seq<seq<byte>>)
    requires AllValid(x) && AllValid(y)
    ensures AllValid(Product(x, y))
  {
    if x != [] {
      var p, a := x[..|x| - 1], x[|x| - 1];
      ProductValid(p, y);
      forall j | 0 <= j < |y|
        ensures ValidUtf8(Row(a, y)[j])
      {
        ValidAppend(a, y[j]);
      }
      AllValidAppend(Product(p, y), Row(a, y));
    }
  }

  /** The strings and capitalized copies of well-formed strings are
      well-formed. */
  lemma {:induction false} WithCapitalizedValid(x: seq<seq<byte>>)
    requires AllValid(x) && forall i :: 0 <= i < |x| ==> Capitalizable(x[i])
    ensures AllValid(WithCapitalized(x))
  {
    if x != [] {
      var p, a := x[..|x| - 1], x[|x| - 1];
      WithCapitalizedValid(p);
      CapitalizedValid(a);
      AllValidAppend(WithCapitalized(p), [a, Capitalized(a)]);
    }
  }
}
