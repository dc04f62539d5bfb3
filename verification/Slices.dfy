/**
Byte strings and their order (bolt/slice.h).

A `Slice` is modelled by the bytes it refers to. `Memcmp` is the C library comparison, `Compare`,
`Equal` and `Less` follow the three operators of the source, and `Lex` is the dictionary order that
they are measured against.
 */
module Slices {

  type Byte = x: int | 0 <= x < 256

  type Slice = seq<Byte>

  datatype Option<+T> = None | Some(value: T)

  function Min(a: nat, b: nat): nat {
    if a < b then a else b
  }

  /** memcmp over the first n bytes: the difference of the first two bytes that differ, or 0. */
  function Memcmp(x: Slice, y: Slice, n: nat): int
    requires n <= |x| && n <= |y|
    decreases n
  {
    if n == 0 then 0
    else if x[0] != y[0] then x[0] - y[0]
    else Memcmp(x[1..], y[1..], n - 1)
  }

  function Compare(x: Slice, y: Slice): int {
    var r := Memcmp(x, y, Min(|x|, |y|));
    if r == 0 then (if |x| < |y| then -1 else if |x| > |y| then 1 else 0) else r
  }

  predicate Equal(x: Slice, y: Slice) {
    |x| == |y| && Memcmp(x, y, |x|) == 0
  }

  predicate Less(x: Slice, y: Slice) {
    var r := Memcmp(x, y, Min(|x|, |y|));
    r < 0 || (r == 0 && |x| < |y|)
  }

  /** Dictionary order on byte strings. */
  predicate Lex(x: Slice, y: Slice) {
    y != [] && (x == [] || x[0] < y[0] || (x[0] == y[0] && Lex(x[1..], y[1..])))
  }

  lemma {:induction false} LessIsLex(x: Slice, y: Slice)
    ensures Less(x, y) <==> Lex(x, y)
  {
    if x != [] && y != [] && x[0] == y[0] {
      LessIsLex(x[1..], y[1..]);
    }
  }

  lemma {:induction false} EqualIsSame(x: Slice, y: Slice)
    ensures Equal(x, y) <==> x == y
  {
    if x != [] && y != [] {
      EqualIsSame(x[1..], y[1..]);
      assert x == [x[0]] + x[1..] && y == [y[0]] + y[1..];
    }
  }

  lemma {:induction false} LexTransitive(x: Slice, y: Slice, z: Slice)
    requires Lex(x, y) && Lex(y, z)
    ensures Lex(x, z)
  {
    if x != [] && x[0] == y[0] == z[0] {
      LexTransitive(x[1..], y[1..], z[1..]);
    }
  }

  lemma {:induction false} LexTrichotomy(x: Slice, y: Slice)
    ensures Lex(x, y) || x == y || Lex(y, x)
    ensures !(Lex(x, y) && x == y) && !(Lex(x, y) && Lex(y, x))
  {
    if x != [] && y != [] && x[0] == y[0] {
      LexTrichotomy(x[1..], y[1..]);
      assert x == [x[0]] + x[1..] && y == [y[0]] + y[1..];
    }
  }

  /** `operator<` is a strict order ... */
  lemma {:induction false} LessTransitive(x: Slice, y: Slice, z: Slice)
    requires Less(x, y) && Less(y, z)
    ensures Less(x, z)
  {
    LessIsLex(x, y);
    LessIsLex(y, z);
    LessIsLex(x, z);
    LexTransitive(x, y, z);
  }

  /** ... and total: exactly one of less, equal (as contents) and greater holds. */
  lemma {:induction false} LessTrichotomy(x: Slice, y: Slice)
    ensures Less(x, y) || x == y || Less(y, x)
    ensures !Less(x, x)
    ensures Less(x, y) ==> x != y && !Less(y, x)
  {
    LessIsLex(x, y);
    LessIsLex(y, x);
    LessIsLex(x, x);
    LexTrichotomy(x, y);
    LexTrichotomy(x, x);
  }

  /** x is below z whenever x is below y and z is not below y. */
  lemma {:induction false} LessThenNotLess(x: Slice, y: Slice, z: Slice)
    requires Less(x, y) && !Less(z, y)
    ensures Less(x, z)
  {
    LessTrichotomy(y, z);
    if y != z {
      LessTransitive(x, y, z);
    }
  }

  lemma {:induction false} MemcmpFlip(x: Slice, y: Slice, n: nat)
    requires n <= |x| && n <= |y|
    ensures Memcmp(x, y, n) == -Memcmp(y, x, n)
    decreases n
  {
    if n > 0 {
      MemcmpFlip(x[1..], y[1..], n - 1);
    }
  }

  /** The sign of `compare` is the order: negative, zero and positive are less, equal and greater. */
  lemma {:induction false} CompareSign(x: Slice, y: Slice)
    ensures Compare(x, y) < 0 <==> Less(x, y)
    ensures Compare(x, y) == 0 <==> x == y
    ensures Compare(x, y) > 0 <==> Less(y, x)
  {
    MemcmpFlip(x, y, Min(|x|, |y|));
    EqualIsSame(x, y);
  }

  /** Walks the common prefix; stops at the first byte that differs or at the shorter end. */
  method DifferenceOffset(x: Slice, y: Slice) returns (off: nat)
    ensures off <= |x| && off <= |y| && x[..off] == y[..off]
    ensures off < |x| && off < |y| ==> x[off] != y[off]
    ensures Less(x, y) <==> (off < |y| && (off == |x| || x[off] < y[off]))
    ensures x == y <==> off == |x| == |y|
  {
    off := 0;
    var len := Min(|x|, |y|);
    while off < len
      invariant off <= len && x[..off] == y[..off]
    {
      if x[off] != y[off] {
        break;
      }
      off := off + 1;
    }
    OffsetDecides(x, y, off);
  }

  /** After a common prefix of n bytes the order is that of the two rests. */
  lemma {:induction false} CommonPrefixLex(x: Slice, y: Slice, n: nat)
    requires n <= |x| && n <= |y| && x[..n] == y[..n]
    ensures Lex(x, y) <==> Lex(x[n..], y[n..])
    decreases n
  {
    if n == 0 {
      assert x[0..] == x && y[0..] == y;
    } else {
      assert x[..n][0] == x[0] && y[..n][0] == y[0];
      assert x[1..][..n - 1] == x[..n][1..] && y[1..][..n - 1] == y[..n][1..];
      CommonPrefixLex(x[1..], y[1..], n - 1);
      assert x[1..][n - 1..] == x[n..] && y[1..][n - 1..] == y[n..];
    }
  }

  lemma {:induction false} OffsetDecides(x: Slice, y: Slice, off: nat)
    requires off <= |x| && off <= |y| && x[..off] == y[..off]
    requires off < |x| && off < |y| ==> x[off] != y[off]
    ensures Less(x, y) <==> (off < |y| && (off == |x| || x[off] < y[off]))
    ensures x == y <==> off == |x| == |y|
  {
    LessIsLex(x, y);
    CommonPrefixLex(x, y, off);
    if off == |x| == |y| {
      assert x == x[..off] && y == y[..off];
    }
  }

  // ---- cutting and joining sequences ----

  lemma {:induction false} CutOfCut<T>(d: seq<T>, h: nat, e: nat, i: nat, j: nat)
    requires h <= e <= |d| && i <= j <= e - h
    ensures d[h..e][i..j] == d[h + i..h + j]
  {
    var l, r := d[h..e][i..j], d[h + i..h + j];
    assert |l| == |r| && forall k :: 0 <= k < j - i ==> l[k] == r[k];
  }

  lemma {:induction false} CutOfRight<T>(a: seq<T>, b: seq<T>, i: nat, j: nat)
    requires i <= j <= |b|
    ensures (a + b)[|a| + i..|a| + j] == b[i..j]
  {
  }

  lemma {:induction false} CutOfLeft<T>(a: seq<T>, d: seq<T>, i: nat, j: nat)
    requires a <= d && i <= j <= |a|
    ensures d[i..j] == a[i..j]
  {
  }
}
