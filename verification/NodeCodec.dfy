/**
The stored form of a node (bolt/node.cpp, `size`, `write` and `read`).

`Encode` is the whole image that `write` produces from the page's data pointer on: one 16-byte header
per inode, then all keys and values packed in order. Each header holds the distance from itself to
its key.
 */
module NodeCodec {
  import opened Slices
  import opened Pages

  datatype INode = INode(flags: U32, id: U64, key: Slice, value: Slice)

  /** What a leaf inode stores for its reader; the page id is not part of a leaf's image. */
  datatype Entry = Entry(flags: U32, key: Slice, value: Slice)

  datatype NodeView = NodeView(isLeaf: bool, inodes: seq<INode>)

  datatype Result<+T> = Ok(value: T) | Exit

  function EntryOf(n: INode): (e: Entry)
    ensures e.flags == n.flags && e.key == n.key && e.value == n.value
  {
    Entry(n.flags, n.key, n.value)
  }

  /** The keys and values of the first k inodes, packed. */
  function Payload(ns: seq<INode>, k: nat): Slice
    requires k <= |ns|
  {
    if k == 0 then [] else Payload(ns, k - 1) + ns[k - 1].key + ns[k - 1].value
  }

  /** Distance from element header i to the key of inode i. */
  function Pos(ns: seq<INode>, i: nat): nat
    requires i <= |ns|
  {
    (|ns| - i) * 16 + |Payload(ns, i)|
  }

  function Header(isLeaf: bool, ns: seq<INode>, i: nat): (r: Slice)
    requires i < |ns|
    ensures |r| == 16
  {
    Words(if isLeaf then [ns[i].flags, Pos(ns, i), |ns[i].key|, |ns[i].value|]
          else [Pos(ns, i), |ns[i].key|, Low(ns[i].id), High(ns[i].id)])
  }

  function Headers(isLeaf: bool, ns: seq<INode>): (hds: seq<Slice>)
    ensures FullHeaders(hds) && HeadersOf(hds, isLeaf, ns)
  {
    seq(|ns|, i requires 0 <= i < |ns| => Header(isLeaf, ns, i))
  }

  predicate FullHeaders(hds: seq<Slice>) {
    forall i :: 0 <= i < |hds| ==> |hds[i]| == 16
  }

  predicate HeaderOk(hds: seq<Slice>, isLeaf: bool, ns: seq<INode>, i: nat)
    requires |hds| == |ns| && i < |ns|
  {
    hds[i] == Header(isLeaf, ns, i)
  }

  /** hds lists the element headers of the inodes ns. */
  predicate HeadersOf(hds: seq<Slice>, isLeaf: bool, ns: seq<INode>) {
    |hds| == |ns| && forall i {:trigger HeaderOk(hds, isLeaf, ns, i)} :: 0 <= i < |ns| ==> HeaderOk(hds, isLeaf, ns, i)
  }

  /** The first k headers, one after the other. */
  function Joined(hds: seq<Slice>, k: nat): (r: Slice)
    requires k <= |hds| && FullHeaders(hds)
    ensures |r| == k * 16
  {
    if k == 0 then [] else Joined(hds, k - 1) + hds[k - 1]
  }

  function Encode(isLeaf: bool, ns: seq<INode>): Slice {
    Joined(Headers(isLeaf, ns), |ns|) + Payload(ns, |ns|)
  }

  /** The serialized size: page header plus, per inode, an element header, the key and the value. */
  function Size(ns: seq<INode>): nat {
    if ns == [] then PAGE_HEADER_SIZE
    else var m := ns[|ns| - 1]; Size(ns[..|ns| - 1]) + 16 + |m.key| + |m.value|
  }

  /** The image is exactly the bytes that `size` announces after the page header. */
  lemma {:induction false} FootprintIsSize(isLeaf: bool, ns: seq<INode>)
    ensures Size(ns) == 24 + |Encode(isLeaf, ns)|
  {
    PayloadSize(ns, |ns|);
    assert ns[..|ns|] == ns;
  }

  lemma {:induction false} PayloadSize(ns: seq<INode>, k: nat)
    requires k <= |ns|
    ensures |Payload(ns, k)| + k * 16 == Size(ns[..k]) - PAGE_HEADER_SIZE
  {
    if k > 0 {
      PayloadSize(ns, k - 1);
      assert ns[..k][..k - 1] == ns[..k - 1];
    }
  }

  /** Inode i's key and value lie in the payload right after those of the earlier inodes. */
  lemma {:induction false} PayloadAt(ns: seq<INode>, k: nat, i: nat)
    requires i < k <= |ns|
    ensures var o := |Payload(ns, i)|;
      && o + |ns[i].key| + |ns[i].value| <= |Payload(ns, k)|
      && Payload(ns, k)[o..o + |ns[i].key| + |ns[i].value|] == ns[i].key + ns[i].value
  {
    var init, m := Payload(ns, k - 1), ns[k - 1];
    PackedLast(init, m.key, m.value, Payload(ns, k));
    if i < k - 1 {
      PayloadAt(ns, k - 1, i);
      var o := |Payload(ns, i)|;
      CutOfLeft(init, Payload(ns, k), o, o + |ns[i].key| + |ns[i].value|);
    }
  }

  lemma {:induction false} PackedLast(init: Slice, key: Slice, value: Slice, whole: Slice)
    requires whole == init + key + value
    ensures init <= whole && |whole| == |init| + |key| + |value|
    ensures whole[|init|..|init| + |key| + |value|] == key + value
  {
  }

  lemma {:induction false} JoinedAt(hds: seq<Slice>, k: nat, i: nat)
    requires i < k <= |hds| && FullHeaders(hds)
    ensures Joined(hds, k)[i * 16..(i + 1) * 16] == hds[i]
  {
    if i < k - 1 {
      JoinedAt(hds, k - 1, i);
      assert Joined(hds, k)[i * 16..(i + 1) * 16] == Joined(hds, k - 1)[i * 16..(i + 1) * 16];
    }
  }

  lemma {:induction false} PieceAfter(hs: Slice, pay: Slice, d: Slice, o: nat, a: Slice, b: Slice)
    requires hs + pay <= d && o + |a| + |b| <= |pay| && pay[o..o + |a| + |b|] == a + b
    ensures |hs| + o + |a| + |b| <= |d|
    ensures var k := |hs| + o; d[k..k + |a|] == a && d[k + |a|..k + |a| + |b|] == b
  {
    var k := |hs| + o;
    var e := k + |a| + |b|;
    CutOfLeft(hs + pay, d, k, e);
    CutOfRight(hs, pay, o, o + |a| + |b|);
    CutOfCut(d, k, e, 0, |a|);
    CutOfCut(d, k, e, |a|, |a| + |b|);
    assert (a + b)[0..|a|] == a && (a + b)[|a|..|a| + |b|] == b;
  }

  /** The header of inode i in any memory that starts with the image. */
  lemma {:induction false} HeaderInImage(isLeaf: bool, ns: seq<INode>, d: Slice, i: nat)
    requires Encode(isLeaf, ns) <= d && i < |ns|
    ensures i * 16 + 16 <= |d| && d[i * 16..i * 16 + 16] == Header(isLeaf, ns, i)
  {
    var hds := Headers(isLeaf, ns);
    var hs := Joined(hds, |ns|);
    assert d[..|hs|] == hs;
    JoinedAt(hds, |ns|, i);
    assert HeaderOk(hds, isLeaf, ns, i);
    assert d[i * 16..i * 16 + 16] == hs[i * 16..i * 16 + 16];
  }

  /** The key and value of inode i in any memory that starts with the image. */
  lemma {:induction false} PayloadInImage(isLeaf: bool, ns: seq<INode>, d: Slice, i: nat)
    requires Encode(isLeaf, ns) <= d && i < |ns|
    ensures var k := i * 16 + Pos(ns, i);
      var v := k + |ns[i].key|;
      && v + |ns[i].value| <= |Encode(isLeaf, ns)| <= |d|
      && d[k..v] == ns[i].key && d[v..v + |ns[i].value|] == ns[i].value
  {
    PayloadAt(ns, |ns|, i);
    var hs := Joined(Headers(isLeaf, ns), |ns|);
    PieceAfter(hs, Payload(ns, |ns|), d, |Payload(ns, i)|, ns[i].key, ns[i].value);
    assert i * 16 + Pos(ns, i) == |hs| + |Payload(ns, i)|;
  }

  lemma {:induction false} PosFits(ns: seq<INode>, i: nat)
    requires Size(ns) < 0x1_0000_0000 && i < |ns|
    ensures Pos(ns, i) < 0x1_0000_0000 && |ns[i].key| < 0x1_0000_0000 && |ns[i].value| < 0x1_0000_0000
  {
    PayloadInImage(true, ns, Encode(true, ns), i);
    FootprintIsSize(true, ns);
  }

  lemma {:induction false} LeafHeaderRoundTrip(ns: seq<INode>, p: PageView, i: nat)
    requires Encode(true, ns) <= p.data && Size(ns) < 0x1_0000_0000 && |ns| <= 0xffff && i < |ns|
    ensures Pos(ns, i) < 0x1_0000_0000 && |ns[i].key| < 0x1_0000_0000 && |ns[i].value| < 0x1_0000_0000
    ensures ElementOffset(i) == i * 16 && HasElement(p, i)
    ensures LeafElementAt(p, i) == LeafElement(ns[i].flags, Pos(ns, i), |ns[i].key|, |ns[i].value|)
  {
    PosFits(ns, i);
    HeaderInImage(true, ns, p.data, i);
    LeafFieldsAt(p, i, ns[i].flags, Pos(ns, i), |ns[i].key|, |ns[i].value|);
  }

  lemma {:induction false} LeafFieldsAt(p: PageView, i: nat, flags: U32, pos: U32, ksize: U32, vsize: U32)
    requires i < 0x1_0000 && i * 16 + 16 <= |p.data|
    requires p.data[i * 16..i * 16 + 16] == Words([flags, pos, ksize, vsize])
    ensures ElementOffset(i) == i * 16 && HasElement(p, i)
    ensures LeafElementAt(p, i) == LeafElement(flags, pos, ksize, vsize)
  {
    HeaderWords(p.data, i * 16, flags, pos, ksize, vsize);
    assert ElementOffset(i) == i * 16;
  }

  /** Every element of a written leaf page reads back the flags, key and value of its inode. */
  lemma {:induction false} LeafElementRoundTrip(ns: seq<INode>, p: PageView, i: nat)
    requires Encode(true, ns) <= p.data && Size(ns) < 0x1_0000_0000 && |ns| <= 0xffff && i < |ns|
    ensures LeafReadable(p, i)
    ensures LeafINode(p, i) == ns[i].(id := 0)
    ensures LeafElementAt(p, i).pos == (|ns| - i) * 16 + |Payload(ns, i)|
  {
    LeafHeaderRoundTrip(ns, p, i);
    PayloadInImage(true, ns, p.data, i);
  }

  lemma {:induction false} BranchHeaderRoundTrip(ns: seq<INode>, p: PageView, i: nat)
    requires Encode(false, ns) <= p.data && Size(ns) < 0x1_0000_0000 && |ns| <= 0xffff && i < |ns|
    ensures Pos(ns, i) < 0x1_0000_0000 && |ns[i].key| < 0x1_0000_0000
    ensures ElementOffset(i) == i * 16 && HasElement(p, i)
    ensures BranchElementAt(p, i) == BranchElement(Pos(ns, i), |ns[i].key|, ns[i].id)
  {
    PosFits(ns, i);
    HeaderInImage(false, ns, p.data, i);
    BranchFieldsAt(p, i, Pos(ns, i), |ns[i].key|, ns[i].id);
  }

  lemma {:induction false} BranchFieldsAt(p: PageView, i: nat, pos: U32, ksize: U32, id: U64)
    requires i < 0x1_0000 && i * 16 + 16 <= |p.data|
    requires p.data[i * 16..i * 16 + 16] == Words([pos, ksize, Low(id), High(id)])
    ensures ElementOffset(i) == i * 16 && HasElement(p, i)
    ensures BranchElementAt(p, i) == BranchElement(pos, ksize, id)
  {
    HeaderWords(p.data, i * 16, pos, ksize, Low(id), High(id));
    assert ElementOffset(i) == i * 16;
  }

  /** The in-place branch accessors read back the key and the child id of a branch image. */
  lemma {:induction false} BranchElementRoundTrip(ns: seq<INode>, p: PageView, i: nat)
    requires Encode(false, ns) <= p.data && Size(ns) < 0x1_0000_0000 && |ns| <= 0xffff && i < |ns|
    ensures BranchReadable(p, i)
    ensures BranchElementAt(p, i).id == ns[i].id && BranchKey(p, i) == ns[i].key
  {
    BranchHeaderRoundTrip(ns, p, i);
    PayloadInImage(false, ns, p.data, i);
  }

  // ---- reading a page back ----

  predicate IsLeafPage(p: PageView) {
    LeafBit(p.flags)
  }

  /** The elements that `read` visits lie inside the page. */
  predicate Readable(p: PageView) {
    IsLeafPage(p) ==> forall i: nat :: i < p.count ==> LeafReadable(p, i)
  }

  /** Leaf inode i as `read` builds it; the source leaves its page id unset, 0 stands for it. */
  function LeafINode(p: PageView, i: nat): INode
    requires LeafReadable(p, i)
  {
    INode(LeafElementAt(p, i).flags, 0, LeafKey(p, i), LeafValue(p, i))
  }

  /** The entry has the inode's flags, key and value. */
  predicate SameEntry(e: Entry, n: INode) {
    e.flags == n.flags && e.key == n.key && e.value == n.value
  }

  /** The node that `read` builds, or `Exit` where the source terminates the process. */
  ghost function Decode(p: PageView): Result<NodeView>
    requires Readable(p)
  {
    if IsLeafPage(p) then
      var ns := seq(p.count, i requires 0 <= i < p.count => LeafINode(p, i));
      if exists i :: 0 <= i < p.count && ns[i].key == [] then Exit else Ok(NodeView(true, ns))
    else if p.count == 0 then Ok(NodeView(false, []))
    else Exit
  }

  function Entries(ns: seq<INode>): (es: seq<Entry>)
    ensures |es| == |ns| && forall i :: 0 <= i < |ns| ==> SameEntry(es[i], ns[i])
  {
    seq(|ns|, i requires 0 <= i < |ns| => EntryOf(ns[i]))
  }

  /**
  A leaf page is read element by element and fails on an empty key; any other page can be read only if it
  has no element at all.
   */
  lemma {:induction false} DecodeWhen(p: PageView)
    requires Readable(p)
    ensures p.flags / 2 % 2 == 1 ==>
      (Decode(p).Ok? <==> forall i: nat :: i < p.count ==> LeafReadable(p, i) && LeafKey(p, i) != [])
    ensures p.flags / 2 % 2 == 0 ==> (Decode(p).Ok? <==> p.count == 0)
    ensures Decode(p).Ok? ==> (Decode(p).value.isLeaf <==> p.flags / 2 % 2 == 1)
    ensures Decode(p).Ok? ==> var ms := Decode(p).value.inodes;
      |ms| == p.count && forall i :: 0 <= i < |ms| ==>
        && LeafReadable(p, i) && ms[i].flags == LeafElementAt(p, i).flags
        && ms[i].key == LeafKey(p, i) && ms[i].value == LeafValue(p, i)
  {
    if IsLeafPage(p) {
      var ns := seq(p.count, i requires 0 <= i < p.count => LeafINode(p, i));
      assert forall i: nat :: i < p.count ==> ns[i].key == LeafKey(p, i);
    }
  }

  /**
  Reading what `write` stored for a leaf restores every (flags, key, value) in order, whatever other
  flags the page carries; the read succeeds exactly when no key is empty.
   */
  lemma {:induction false} LeafRoundTrip(ns: seq<INode>, p: PageView)
    requires Encode(true, ns) <= p.data && Size(ns) < 0x1_0000_0000 && p.count == |ns| <= 0xffff
    requires IsLeafPage(p)
    ensures Readable(p)
    ensures Decode(p).Ok? <==> forall i :: 0 <= i < |ns| ==> ns[i].key != []
    ensures Decode(p).Ok? ==> Decode(p).value.isLeaf && |Decode(p).value.inodes| == |ns|
    ensures Decode(p).Ok? ==> var ms := Decode(p).value.inodes;
      forall i :: 0 <= i < |ns| ==> ms[i].flags == ns[i].flags && ms[i].key == ns[i].key && ms[i].value == ns[i].value
  {
    forall i: nat | i < p.count
      ensures LeafReadable(p, i) && LeafINode(p, i) == ns[i].(id := 0)
    {
      LeafElementRoundTrip(ns, p, i);
    }
    DecodeOfLeaf(ns, p);
  }

  lemma {:induction false} DecodeOfLeaf(ns: seq<INode>, p: PageView)
    requires IsLeafPage(p) && p.count == |ns|
    requires forall i: nat :: i < p.count ==> LeafReadable(p, i)
    requires forall i: nat :: i < p.count ==> LeafINode(p, i) == ns[i].(id := 0)
    ensures Decode(p).Ok? <==> forall i :: 0 <= i < |ns| ==> ns[i].key != []
    ensures Decode(p).Ok? ==> Decode(p).value.isLeaf && |Decode(p).value.inodes| == |ns|
    ensures Decode(p).Ok? ==> var ms := Decode(p).value.inodes;
      forall i :: 0 <= i < |ns| ==> ms[i].flags == ns[i].flags && ms[i].key == ns[i].key && ms[i].value == ns[i].value
  {
    var ms := seq(p.count, i requires 0 <= i < p.count => LeafINode(p, i));
    assert forall i :: 0 <= i < |ns| ==> ms[i] == ns[i].(id := 0);
  }

  // ---- the buffer while `write` is running ----

  /**
  The buffer `pre` with the headers `hs` stored from ptr on and the payload `pay` stored from e on;
  everything else is as it was.
   */
  function Layout(pre: Slice, ptr: nat, e: nat, hs: Slice, pay: Slice): (r: Slice)
    requires ptr + |hs| <= e && e + |pay| <= |pre|
    ensures |r| == |pre|
  {
    seq(|pre|, j requires 0 <= j < |pre| =>
      if ptr <= j < ptr + |hs| then hs[j - ptr] else if e <= j < e + |pay| then pay[j - e] else pre[j])
  }

  lemma {:induction false} LayoutStart(pre: Slice, ptr: nat, e: nat)
    requires ptr <= e <= |pre|
    ensures Layout(pre, ptr, e, [], []) == pre
  {
  }

  lemma {:induction false} LayoutDone(pre: Slice, ptr: nat, e: nat, hs: Slice, pay: Slice)
    requires ptr + |hs| == e && e + |pay| <= |pre|
    ensures Layout(pre, ptr, e, hs, pay) == Splice(pre, ptr, hs + pay)
  {
  }

  lemma {:induction false} PayloadGrows(ns: seq<INode>, i: nat, k: nat)
    requires i <= k <= |ns|
    ensures |Payload(ns, i)| <= |Payload(ns, k)|
    decreases k
  {
    if i < k {
      PayloadGrows(ns, i, k - 1);
    }
  }

  /** One header, key and value stored, as three separate writes. */
  function StoreAll(s: Slice, h: nat, hd: Slice, b: nat, key: Slice, value: Slice): (r: Slice)
    requires h + |hd| <= |s| && b + |key| + |value| <= |s|
    ensures |r| == |s|
  {
    Splice(Splice(Splice(s, h, hd), b, key), b + |key|, value)
  }

  predicate Room(pre: Slice, ptr: nat, hds: seq<Slice>, ns: seq<INode>) {
    |hds| == |ns| && FullHeaders(hds) && ptr + |ns| * 16 + |Payload(ns, |ns|)| <= |pre|
  }

  lemma {:induction false} NextFits(pre: Slice, ptr: nat, hds: seq<Slice>, ns: seq<INode>, i: nat)
    requires i < |ns| && Room(pre, ptr, hds, ns)
    ensures |hds[i]| == 16 && ptr + i * 16 + 16 <= |pre|
    ensures ptr + |ns| * 16 + |Payload(ns, i)| + |ns[i].key| + |ns[i].value| <= |pre|
  {
    PayloadGrows(ns, i + 1, |ns|);
  }

  /** The buffer after the writes for inode i. */
  ghost function WithInode(cur: Slice, ptr: nat, hds: seq<Slice>, ns: seq<INode>, i: nat): (r: Slice)
    requires i < |ns| && Room(cur, ptr, hds, ns)
    ensures |r| == |cur|
  {
    NextFits(cur, ptr, hds, ns, i);
    StoreAll(cur, ptr + i * 16, hds[i], ptr + |ns| * 16 + |Payload(ns, i)|, ns[i].key, ns[i].value)
  }

  /** The buffer after the writes for the first i inodes. */
  ghost function Progress(pre: Slice, ptr: nat, hds: seq<Slice>, ns: seq<INode>, i: nat): (r: Slice)
    requires i <= |ns| && Room(pre, ptr, hds, ns)
    ensures |r| == |pre|
    decreases i
  {
    if i == 0 then pre else WithInode(Progress(pre, ptr, hds, ns, i - 1), ptr, hds, ns, i - 1)
  }

  lemma {:induction false} ProgressStep(pre: Slice, ptr: nat, hds: seq<Slice>, ns: seq<INode>, i: nat)
    requires i < |ns| && Room(pre, ptr, hds, ns)
    ensures Progress(pre, ptr, hds, ns, i + 1) == WithInode(Progress(pre, ptr, hds, ns, i), ptr, hds, ns, i)
  {
  }

  lemma {:induction false} WithInodeStores(cur: Slice, ptr: nat, hds: seq<Slice>, ns: seq<INode>, i: nat, b: nat)
    requires i < |ns| && Room(cur, ptr, hds, ns) && b == ptr + |ns| * 16 + |Payload(ns, i)|
    ensures ptr + i * 16 + |hds[i]| <= |cur| && b + |ns[i].key| + |ns[i].value| <= |cur|
    ensures StoreAll(cur, ptr + i * 16, hds[i], b, ns[i].key, ns[i].value) == WithInode(cur, ptr, hds, ns, i)
  {
    NextFits(cur, ptr, hds, ns, i);
  }

  lemma {:induction false} ProgressNext(pre: Slice, ptr: nat, hds: seq<Slice>, ns: seq<INode>, i: nat,
                                        cur: Slice, b: nat)
    requires i < |ns| && Room(pre, ptr, hds, ns) && cur == Progress(pre, ptr, hds, ns, i)
    requires b == ptr + |ns| * 16 + |Payload(ns, i)|
    ensures |cur| == |pre| && ptr + i * 16 + |hds[i]| <= |pre|
    ensures b + |ns[i].key| + |ns[i].value| <= |pre|
    ensures StoreAll(cur, ptr + i * 16, hds[i], b, ns[i].key, ns[i].value) == Progress(pre, ptr, hds, ns, i + 1)
  {
    ProgressStep(pre, ptr, hds, ns, i);
    WithInodeStores(cur, ptr, hds, ns, i, b);
  }

  /** No write damages an earlier one: after i inodes all i headers and payloads are in place. */
  lemma {:induction false} ProgressIsLayout(pre: Slice, ptr: nat, hds: seq<Slice>, ns: seq<INode>, i: nat)
    requires i <= |ns| && Room(pre, ptr, hds, ns)
    ensures |Payload(ns, i)| <= |Payload(ns, |ns|)|
    ensures Progress(pre, ptr, hds, ns, i) == Layout(pre, ptr, ptr + |ns| * 16, Joined(hds, i), Payload(ns, i))
    decreases i
  {
    PayloadGrows(ns, i, |ns|);
    if i == 0 {
      LayoutStart(pre, ptr, ptr + |ns| * 16);
    } else {
      ProgressIsLayout(pre, ptr, hds, ns, i - 1);
      LayoutAdvances(pre, ptr, hds, ns, i - 1, Progress(pre, ptr, hds, ns, i - 1));
    }
  }

  /** Storing one more header, its key and its value advances the layout by one inode. */
  lemma {:induction false} LayoutAdvances(pre: Slice, ptr: nat, hds: seq<Slice>, ns: seq<INode>, i: nat, cur: Slice)
    requires i < |ns| && Room(pre, ptr, hds, ns) && |Payload(ns, i + 1)| <= |Payload(ns, |ns|)|
    requires |Payload(ns, i)| <= |Payload(ns, |ns|)|
    requires cur == Progress(pre, ptr, hds, ns, i)
    requires cur == Layout(pre, ptr, ptr + |ns| * 16, Joined(hds, i), Payload(ns, i))
    ensures Progress(pre, ptr, hds, ns, i + 1)
         == Layout(pre, ptr, ptr + |ns| * 16, Joined(hds, i + 1), Payload(ns, i + 1))
  {
    var e := ptr + |ns| * 16;
    var hs, pay, hs', pay' := Joined(hds, i), Payload(ns, i), Joined(hds, i + 1), Payload(ns, i + 1);
    OneMoreInode(hds, ns, i, hs, pay, hs', pay');
    ProgressNext(pre, ptr, hds, ns, i, cur, e + |pay|);
    OneMore(pre, ptr, e, hs, pay, hds[i], ns[i].key, ns[i].value, cur, Progress(pre, ptr, hds, ns, i + 1), hs', pay');
  }

  lemma {:induction false} OneMoreInode(hds: seq<Slice>, ns: seq<INode>, i: nat,
                                        hs: Slice, pay: Slice, hs': Slice, pay': Slice)
    requires i < |ns| == |hds| && FullHeaders(hds)
    requires hs == Joined(hds, i) && pay == Payload(ns, i) && hs' == Joined(hds, i + 1) && pay' == Payload(ns, i + 1)
    ensures hs' == hs + hds[i] && pay' == pay + ns[i].key + ns[i].value
    ensures |hds[i]| == 16 && |hs| == i * 16 && |hs| + 16 <= |ns| * 16
  {
  }

  lemma {:induction false} OneMore(pre: Slice, ptr: nat, e: nat, hs: Slice, pay: Slice, hd: Slice,
                                   key: Slice, value: Slice, cur: Slice, next: Slice, hs': Slice, pay': Slice)
    requires |hd| == 16 && ptr + |hs| + 16 <= e && e + |pay| + |key| + |value| <= |pre|
    requires cur == Layout(pre, ptr, e, hs, pay)
    requires next == StoreAll(cur, ptr + |hs|, hd, e + |pay|, key, value)
    requires hs' == hs + hd && pay' == pay + key + value
    ensures next == Layout(pre, ptr, e, hs', pay')
  {
    var r := Layout(pre, ptr, e, hs', pay');
    assert forall j :: 0 <= j < |pre| ==> next[j] == r[j];
  }

  lemma {:induction false} ProgressEnds(pre: Slice, ptr: nat, hds: seq<Slice>, ns: seq<INode>)
    requires Room(pre, ptr, hds, ns)
    ensures Progress(pre, ptr, hds, ns, |ns|) == Splice(pre, ptr, Joined(hds, |ns|) + Payload(ns, |ns|))
  {
    ProgressIsLayout(pre, ptr, hds, ns, |ns|);
    LayoutDone(pre, ptr, ptr + |ns| * 16, Joined(hds, |ns|), Payload(ns, |ns|));
  }
}
