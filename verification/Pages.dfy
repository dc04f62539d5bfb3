/**
Pages and the element headers stored in them (bolt/page.h, bolt/page.cpp).

An element finds its key relative to its own address, so every accessor below works on the bytes
that follow the page's data pointer. Integers are stored with the low byte first.
 */
module Pages {
  import opened Slices

  /** Element headers are 16 bytes long; the number is written out where offsets are multiples of it. */
  const PAGE_HEADER_SIZE: nat := 24

  /** The largest number of elements that `write` accepts. */
  const MAX_COUNT: nat := 0xffff

  type U32 = x: int | 0 <= x < 0x1_0000_0000
  type U16 = x: int | 0 <= x < 0x1_0000
  type U64 = x: int | 0 <= x < 0x1_0000_0000_0000_0000

  /** Page flag 0x01. */
  predicate BranchBit(flags: int) {
    flags % 2 == 1
  }

  /** Page flag 0x02. */
  predicate LeafBit(flags: int) {
    flags / 2 % 2 == 1
  }

  /** Flag 0x01 of a leaf element: the value is a nested bucket. */
  predicate BucketBit(flags: int) {
    flags % 2 == 1
  }

  /** Bitwise or with one of the two page flags. */
  function OrFlag(flags: U16, leaf: bool): (r: U16)
    ensures if leaf then LeafBit(r) else BranchBit(r)
    ensures r == flags || r == flags + if leaf then 2 else 1
  {
    if leaf then (if LeafBit(flags) then flags else flags + 2)
    else (if BranchBit(flags) then flags else flags + 1)
  }

  /** Conversion to a 32-bit `int`: the low 32 bits in two's complement. */
  function AsInt(n: int): int {
    var m := n % 0x1_0000_0000;
    if m < 0x8000_0000 then m else m - 0x1_0000_0000
  }

  /** Adding in 32 bits, turn by turn, is adding first and converting once. */
  lemma {:induction false} AddWraps(a: int, b: int)
    ensures AsInt(AsInt(a) + b) == AsInt(a + b)
  {
    var k := a / 0x1_0000_0000;
    assert a == 0x1_0000_0000 * k + a % 0x1_0000_0000;
  }

  /** The n low bytes of x, lowest first. */
  function LowBytes(x: nat, n: nat): (r: Slice)
    ensures |r| == n
    decreases x, n
  {
    if n == 0 then [] else [x % 256] + LowBytes(x / 256, n - 1)
  }

  /** The stored form of the low 32 bits of x. */
  function Le32(x: nat): (r: Slice)
    ensures |r| == 4
  {
    LowBytes(x, 4)
  }

  /** Consecutive 32-bit words in stored form. */
  function Words(ws: seq<nat>): (r: Slice)
    ensures |r| == 4 * |ws|
  {
    if ws == [] then [] else Le32(ws[0]) + Words(ws[1..])
  }

  lemma {:induction false} FourWords(a: nat, b: nat, c: nat, d: nat)
    ensures Words([a, b, c, d]) == Le32(a) + Le32(b) + Le32(c) + Le32(d)
  {
    assert [d][1..] == [] && Words([d]) == Le32(d);
    assert [c, d][1..] == [d] && Words([c, d]) == Le32(c) + Le32(d);
    assert [b, c, d][1..] == [c, d] && Words([b, c, d]) == Le32(b) + Le32(c) + Le32(d);
    assert [a, b, c, d][1..] == [b, c, d];
  }

  /** A 64-bit value is stored as two words, low word first. */
  function Low(x: U64): nat {
    x % 0x1_0000_0000
  }

  function High(x: U64): nat {
    x / 0x1_0000_0000
  }

  function FromBytes(b0: int, b1: int, b2: int, b3: int): int {
    b0 + 256 * (b1 + 256 * (b2 + 256 * b3))
  }

  function U32At(d: Slice, off: nat): U32
    requires off + 4 <= |d|
  {
    FromBytes(d[off], d[off + 1], d[off + 2], d[off + 3])
  }

  function U64At(d: Slice, off: nat): U64
    requires off + 8 <= |d|
  {
    U32At(d, off) + 0x1_0000_0000 * U32At(d, off + 4)
  }

  lemma {:induction false} U32RoundTrip(d: Slice, off: nat, x: U32)
    requires off + 4 <= |d| && d[off..off + 4] == Le32(x)
    ensures U32At(d, off) == x
  {
    var s := d[off..off + 4];
    assert s[0] == d[off] && s[1] == d[off + 1] && s[2] == d[off + 2] && s[3] == d[off + 3];
    DigitsOf(x);
  }

  lemma {:induction false} DigitsOf(x: U32)
    ensures var s := Le32(x); FromBytes(s[0], s[1], s[2], s[3]) == x
  {
    var x1 := x / 256;
    var x2 := x1 / 256;
    var x3 := x2 / 256;
    assert LowBytes(x3, 1) == [x3 % 256] + LowBytes(x3 / 256, 0) == [x3 % 256];
    assert LowBytes(x2, 2) == [x2 % 256, x3 % 256];
    assert LowBytes(x1, 3) == [x1 % 256, x2 % 256, x3 % 256];
    assert Le32(x) == [x % 256, x1 % 256, x2 % 256, x3 % 256];
  }

  /** Integers are stored with the low byte first. */
  lemma {:induction false} LowByteFirst(x: U32, d: Slice, off: nat)
    requires off + 4 <= |d|
    ensures Le32(x) == [x % 256, x / 0x100 % 256, x / 0x1_0000 % 256, x / 0x100_0000]
    ensures var b: seq<int> := d[off..off + 4];
      U32At(d, off) == b[0] + 0x100 * b[1] + 0x1_0000 * b[2] + 0x100_0000 * b[3]
  {
    var x1 := x / 256;
    var x2 := x1 / 256;
    var x3 := x2 / 256;
    assert LowBytes(x3, 1) == [x3 % 256] + LowBytes(x3 / 256, 0) == [x3 % 256];
    assert LowBytes(x2, 2) == [x2 % 256, x3 % 256];
    assert LowBytes(x1, 3) == [x1 % 256, x2 % 256, x3 % 256];
    assert x2 == x / 0x1_0000 && x3 == x / 0x100_0000;
  }

  lemma {:induction false} FourParts(d: Slice, h: nat, a: Slice, b: Slice, c: Slice, e: Slice)
    requires h + 16 <= |d| && |a| == |b| == |c| == |e| == 4 && d[h..h + 16] == a + b + c + e
    ensures d[h..h + 4] == a && d[h + 4..h + 8] == b && d[h + 8..h + 12] == c && d[h + 12..h + 16] == e
  {
    var s := d[h..h + 16];
    CutOfCut(d, h, h + 16, 0, 4);
    CutOfCut(d, h, h + 16, 4, 8);
    CutOfCut(d, h, h + 16, 8, 12);
    CutOfCut(d, h, h + 16, 12, 16);
    assert s[0..4] == a && s[4..8] == b && s[8..12] == c && s[12..16] == e;
  }

  /** A stored header reads back as its four words. */
  lemma {:induction false} HeaderWords(d: Slice, h: nat, w0: U32, w1: U32, w2: U32, w3: U32)
    requires h + 16 <= |d| && d[h..h + 16] == Words([w0, w1, w2, w3])
    ensures U32At(d, h) == w0 && U32At(d, h + 4) == w1 && U32At(d, h + 8) == w2 && U32At(d, h + 12) == w3
  {
    FourWords(w0, w1, w2, w3);
    FourParts(d, h, Le32(w0), Le32(w1), Le32(w2), Le32(w3));
    U32RoundTrip(d, h, w0);
    U32RoundTrip(d, h + 4, w1);
    U32RoundTrip(d, h + 8, w2);
    U32RoundTrip(d, h + 12, w3);
  }

  /** A page as its readers see it: header fields and the bytes from the data pointer on. */
  datatype PageView = PageView(id: U64, flags: U16, count: U32, data: Slice)

  /** Where element i starts; the accessors take the index as a 16-bit value. */
  function ElementOffset(i: nat): nat {
    i % 0x1_0000 * 16
  }

  datatype LeafElement = LeafElement(flags: U32, pos: U32, ksize: U32, vsize: U32)
  datatype BranchElement = BranchElement(pos: U32, ksize: U32, id: U64)

  predicate HasElement(p: PageView, i: nat) {
    ElementOffset(i) + 16 <= |p.data|
  }

  function LeafElementAt(p: PageView, i: nat): LeafElement
    requires HasElement(p, i)
  {
    var o := ElementOffset(i);
    LeafElement(U32At(p.data, o), U32At(p.data, o + 4), U32At(p.data, o + 8), U32At(p.data, o + 12))
  }

  function BranchElementAt(p: PageView, i: nat): BranchElement
    requires HasElement(p, i)
  {
    var o := ElementOffset(i);
    BranchElement(U32At(p.data, o), U32At(p.data, o + 4), U64At(p.data, o + 8))
  }

  /** The key and value of leaf element i lie inside the page. */
  predicate LeafReadable(p: PageView, i: nat) {
    && HasElement(p, i)
    && var e := LeafElementAt(p, i);
    ElementOffset(i) + e.pos + e.ksize + e.vsize <= |p.data|
  }

  function LeafKey(p: PageView, i: nat): Slice
    requires LeafReadable(p, i)
  {
    var e, o := LeafElementAt(p, i), ElementOffset(i);
    p.data[o + e.pos..o + e.pos + e.ksize]
  }

  function LeafValue(p: PageView, i: nat): Slice
    requires LeafReadable(p, i)
  {
    var e, o := LeafElementAt(p, i), ElementOffset(i);
    p.data[o + e.pos + e.ksize..o + e.pos + e.ksize + e.vsize]
  }

  predicate BranchReadable(p: PageView, i: nat) {
    && HasElement(p, i)
    && var e := BranchElementAt(p, i);
    ElementOffset(i) + e.pos + e.ksize <= |p.data|
  }

  function BranchKey(p: PageView, i: nat): Slice
    requires BranchReadable(p, i)
  {
    var e, o := BranchElementAt(p, i), ElementOffset(i);
    p.data[o + e.pos..o + e.pos + e.ksize]
  }

  /** s with `bytes` stored at position `at`. */
  function Splice(s: Slice, at: nat, bytes: Slice): (r: Slice)
    requires at + |bytes| <= |s|
    ensures |r| == |s|
  {
    seq(|s|, j requires 0 <= j < |s| => if at <= j < at + |bytes| then bytes[j - at] else s[j])
  }

  /** Four adjacent four-byte fields stored in the order first, third, fourth, second. */
  lemma {:induction false} FieldStores(s: Slice, o: nat, f0: Slice, f1: Slice, f2: Slice, f3: Slice)
    requires o + 16 <= |s| && |f0| == |f1| == |f2| == |f3| == 4
    ensures Splice(Splice(Splice(Splice(s, o, f0), o + 8, f2), o + 12, f3), o + 4, f1)
         == Splice(s, o, f0 + f1 + f2 + f3)
  {
    var l := Splice(Splice(Splice(Splice(s, o, f0), o + 8, f2), o + 12, f3), o + 4, f1);
    var r := Splice(s, o, f0 + f1 + f2 + f3);
    assert forall j :: 0 <= j < |s| ==> l[j] == r[j];
  }

  /** The same with the order second, third, fourth, first. */
  lemma {:induction false} FieldStoresBackward(s: Slice, o: nat, f0: Slice, f1: Slice, f2: Slice, f3: Slice)
    requires o + 16 <= |s| && |f0| == |f1| == |f2| == |f3| == 4
    ensures Splice(Splice(Splice(Splice(s, o + 4, f1), o + 8, f2), o + 12, f3), o, f0)
         == Splice(s, o, f0 + f1 + f2 + f3)
  {
    var l := Splice(Splice(Splice(Splice(s, o + 4, f1), o + 8, f2), o + 12, f3), o, f0);
    var r := Splice(s, o, f0 + f1 + f2 + f3);
    assert forall j :: 0 <= j < |s| ==> l[j] == r[j];
  }

  /** memcpy into a buffer: the stored range holds the bytes and nothing else changes. */
  method Memcpy(buf: array<Byte>, at: nat, bytes: Slice)
    requires at + |bytes| <= buf.Length
    modifies buf
    ensures buf[..] == Splice(old(buf[..]), at, bytes)
    ensures forall j :: 0 <= j < buf.Length ==> buf[j] == if at <= j < at + |bytes| then bytes[j - at] else old(buf[j])
  {
    for i := 0 to |bytes|
      invariant forall j :: 0 <= j < i ==> buf[at + j] == bytes[j]
      invariant forall j :: 0 <= j < buf.Length && !(at <= j < at + i) ==> buf[j] == old(buf[j])
    {
      buf[at + i] := bytes[i];
    }
  }

  class Page {
    var id: U64
    var flags: U16
    var count: U32
    var overflow: U32
    const buf: array<Byte>
    const ptr: nat

    constructor (id: U64, flag: U16, buf: array<Byte>, ptr: nat)
      ensures this.id == id && flags == flag && count == 0 && overflow == 0
      ensures this.buf == buf && this.ptr == ptr
    {
      this.id, flags, count, overflow := id, flag, 0, 0;
      this.buf, this.ptr := buf, ptr;
    }

    function View(): PageView
      requires ptr <= buf.Length
      reads this, buf
    {
      PageView(id, flags, count, buf[ptr..])
    }

    /** Adds bits; no bit is ever cleared. */
    method SetFlags(leaf: bool)
      modifies this`flags
      ensures flags == OrFlag(old(flags), leaf)
      ensures leaf ==> flags / 2 % 2 == 1 && flags % 2 == old(flags) % 2 && flags / 4 == old(flags) / 4
      ensures !leaf ==> flags % 2 == 1 && flags / 2 == old(flags) / 2
    {
      flags := OrFlag(flags, leaf);
    }

    method StoreU32(off: nat, x: nat)
      requires ptr + off + 4 <= buf.Length
      modifies buf
      ensures buf[..] == Splice(old(buf[..]), ptr + off, Le32(x))
    {
      Memcpy(buf, ptr + off, Le32(x));
    }

    /** The four stores of a leaf element header, in the source's order. */
    method StoreLeafElement(off: nat, flags: nat, pos: nat, ksize: nat, vsize: nat)
      requires ptr + off + 16 <= buf.Length
      modifies buf
      ensures buf[..] == Splice(old(buf[..]), ptr + off, Words([flags, pos, ksize, vsize]))
    {
      FourWords(flags, pos, ksize, vsize);
      FieldStores(buf[..], ptr + off, Le32(flags), Le32(pos), Le32(ksize), Le32(vsize));
      StoreU32(off, flags);
      StoreU32(off + 8, ksize);
      StoreU32(off + 12, vsize);
      StoreU32(off + 4, pos);
    }

    method StoreBranchElement(off: nat, pos: nat, ksize: nat, id: U64)
      requires ptr + off + 16 <= buf.Length
      modifies buf
      ensures buf[..] == Splice(old(buf[..]), ptr + off, Words([pos, ksize, Low(id), High(id)]))
    {
      FourWords(pos, ksize, Low(id), High(id));
      FieldStoresBackward(buf[..], ptr + off, Le32(pos), Le32(ksize), Le32(Low(id)), Le32(High(id)));
      StoreU32(off + 4, ksize);
      StoreU32(off + 8, Low(id));
      StoreU32(off + 12, High(id));
      StoreU32(off, pos);
    }
  }
}
