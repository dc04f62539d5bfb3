/**
The bucket's view of its tree: nodes in memory over pages on file (bolt/bucket.cpp, bolt/tx.cpp).

`Represents` relates the store to the abstract tree that the cursor walks. A vertex may be backed by
an in-memory node or by the bytes of a page.
 */
module Buckets {
  import opened Slices
  import opened Pages
  import opened NodeCodec
  import Ordered
  import opened Trees

  datatype Ref = OfNode(node: NodeView) | OfPage(page: PageView)

  /** `dirty` are the transaction's written pages, `mapped` those of the memory-mapped file. */
  datatype Bucket = Bucket(root: U64, rootNode: Option<NodeView>, inlinePage: Option<PageView>,
                           nodes: map<U64, NodeView>, dirty: map<U64, PageView>, mapped: map<U64, PageView>)

  predicate Inline(b: Bucket) {
    b.root == 0
  }

  /** A page of the transaction: its own copy before the file's. */
  function TxPage(b: Bucket, id: U64): Option<PageView> {
    if id in b.dirty then Some(b.dirty[id]) else if id in b.mapped then Some(b.mapped[id]) else None
  }

  /** The node or page behind an id; `None` where the source exits or no page exists. */
  function PageNode(b: Bucket, id: U64): Option<Ref> {
    if Inline(b) then
      if id != 0 then None
      else if b.rootNode.Some? then Some(OfNode(b.rootNode.value))
      else if b.inlinePage.Some? then Some(OfPage(b.inlinePage.value)) else None
    else if id in b.nodes then Some(OfNode(b.nodes[id]))
    else if TxPage(b, id).Some? then Some(OfPage(TxPage(b, id).value)) else None
  }

  predicate IsLeaf(r: Ref) {
    match r
    case OfNode(n) => n.isLeaf
    case OfPage(p) => LeafBit(p.flags)
  }

  /** A branch; a page must also carry the branch flag, or `search` rejects its type. */
  predicate IsBranch(r: Ref) {
    !IsLeaf(r) && (r.OfPage? ==> BranchBit(r.page.flags))
  }

  function Count(r: Ref): int {
    match r
    case OfNode(n) => AsInt(|n.inodes|)
    case OfPage(p) => AsInt(p.count)
  }

  predicate HasEntry(r: Ref, i: nat) {
    match r
    case OfNode(n) => i < |n.inodes|
    case OfPage(p) => LeafReadable(p, i)
  }

  function EntryAt(r: Ref, i: nat): Entry
    requires HasEntry(r, i)
  {
    match r
    case OfNode(n) => EntryOf(n.inodes[i])
    case OfPage(p) => EntryOf(LeafINode(p, i))
  }

  predicate HasChild(r: Ref, i: nat) {
    match r
    case OfNode(n) => i < |n.inodes|
    case OfPage(p) => BranchReadable(p, i)
  }

  function ChildId(r: Ref, i: nat): U64
    requires HasChild(r, i)
  {
    match r
    case OfNode(n) => n.inodes[i].id
    case OfPage(p) => BranchElementAt(p, i).id
  }

  function SepAt(r: Ref, i: nat): Slice
    requires HasChild(r, i)
  {
    match r
    case OfNode(n) => n.inodes[i].key
    case OfPage(p) => BranchKey(p, i)
  }

  predicate LeafHolds(r: Ref, es: seq<Entry>) {
    && IsLeaf(r) && Count(r) == |es|
    && (r.OfNode? ==> |r.node.inodes| == |es|)
    && forall i :: 0 <= i < |es| ==> HasEntry(r, i) && EntryAt(r, i) == es[i]
  }

  predicate BranchHolds(r: Ref, seps: seq<Slice>) {
    && IsBranch(r) && Count(r) == |seps| > 0
    && (r.OfNode? ==> |r.node.inodes| == |seps|)
    && forall i :: 0 <= i < |seps| ==> HasChild(r, i) && SepAt(r, i) == seps[i]
  }

  /** The vertex with this id, and everything below it, is the tree t. */
  predicate Represents(b: Bucket, id: U64, t: Tree)
    decreases t
  {
    && PageNode(b, id).Some?
    && var r := PageNode(b, id).value;
    match t
    case Leaf(es) => LeafHolds(r, es)
    case Branch(seps, kids) =>
      && |seps| == |kids| && BranchHolds(r, seps)
      && forall i :: 0 <= i < |kids| ==> Represents(b, ChildId(r, i), kids[i])
  }

  // ---- what stands for what ----

  /** A node is behind an id if it is cached there; of an inline bucket, only the root node behind id 0. */
  lemma {:induction false} NodeBehind(b: Bucket, id: U64, n: NodeView)
    ensures PageNode(b, id) == Some(OfNode(n)) <==>
      if b.root == 0 then id == 0 && b.rootNode == Some(n) else id in b.nodes && b.nodes[id] == n
  {
  }

  /** A page is behind an id if no node is: a dirty page before the file's, or the inline page. */
  lemma {:induction false} PageBehind(b: Bucket, id: U64, p: PageView)
    ensures PageNode(b, id) == Some(OfPage(p)) <==>
      if b.root == 0 then id == 0 && b.rootNode.None? && b.inlinePage == Some(p)
      else id !in b.nodes && if id in b.dirty then b.dirty[id] == p else id in b.mapped && b.mapped[id] == p
  {
  }

  lemma {:induction false} NodeLeafMeans(b: Bucket, id: U64, n: NodeView, es: seq<Entry>)
    requires PageNode(b, id) == Some(OfNode(n))
    ensures Represents(b, id, Leaf(es)) <==>
      && n.isLeaf && |n.inodes| == |es| < 0x8000_0000
      && forall i :: 0 <= i < |es| ==>
        es[i].flags == n.inodes[i].flags && es[i].key == n.inodes[i].key && es[i].value == n.inodes[i].value
  {
    var r := OfNode(n);
    forall i | 0 <= i < |es| && HasEntry(r, i)
      ensures EntryAt(r, i) == es[i] <==>
        es[i].flags == n.inodes[i].flags && es[i].key == n.inodes[i].key && es[i].value == n.inodes[i].value
    {
    }
    if |n.inodes| == |es| {
      assert forall i :: 0 <= i < |es| ==> HasEntry(r, i);
      assert AsInt(|es|) == |es| <==> |es| < 0x8000_0000;
    }
  }

  lemma {:induction false} PageLeafMeans(b: Bucket, id: U64, p: PageView, es: seq<Entry>)
    requires PageNode(b, id) == Some(OfPage(p))
    ensures Represents(b, id, Leaf(es)) <==>
      && p.flags / 2 % 2 == 1 && p.count == |es| < 0x8000_0000
      && forall i :: 0 <= i < |es| ==> LeafReadable(p, i) && es[i].flags == LeafElementAt(p, i).flags
                                       && es[i].key == LeafKey(p, i) && es[i].value == LeafValue(p, i)
  {
    var r := OfPage(p);
    forall i | 0 <= i < |es| && HasEntry(r, i)
      ensures LeafReadable(p, i)
      ensures EntryAt(r, i) == es[i] <==> es[i].flags == LeafElementAt(p, i).flags
                                          && es[i].key == LeafKey(p, i) && es[i].value == LeafValue(p, i)
    {
    }
    assert forall i: nat :: HasEntry(r, i) <==> LeafReadable(p, i);
    assert AsInt(p.count) == |es| <==> p.count == |es| < 0x8000_0000;
  }

  /** Child i of a branch node is the tree behind the id of its inode i. */
  lemma {:induction false} NodeBranchMeans(b: Bucket, id: U64, n: NodeView, seps: seq<Slice>, kids: seq<Tree>)
    requires PageNode(b, id) == Some(OfNode(n))
    ensures Represents(b, id, Branch(seps, kids)) <==>
      && !n.isLeaf && |n.inodes| == |seps| == |kids| && 0 < |kids| < 0x8000_0000
      && forall i :: 0 <= i < |kids| ==> seps[i] == n.inodes[i].key && Represents(b, n.inodes[i].id, kids[i])
  {
    var r := OfNode(n);
    forall i: nat | HasChild(r, i)
      ensures SepAt(r, i) == n.inodes[i].key && ChildId(r, i) == n.inodes[i].id
    {
    }
    if |n.inodes| == |seps| {
      assert forall i :: 0 <= i < |seps| ==> HasChild(r, i);
      assert AsInt(|seps|) == |seps| <==> |seps| < 0x8000_0000;
    }
  }

  /** Child i of a branch page is the tree behind the id that its element i stores. */
  lemma {:induction false} PageBranchMeans(b: Bucket, id: U64, p: PageView, seps: seq<Slice>, kids: seq<Tree>)
    requires PageNode(b, id) == Some(OfPage(p))
    ensures Represents(b, id, Branch(seps, kids)) <==>
      && p.flags / 2 % 2 == 0 && p.flags % 2 == 1 && p.count == |seps| == |kids| && 0 < |kids| < 0x8000_0000
      && forall i :: 0 <= i < |kids| ==> BranchReadable(p, i) && seps[i] == BranchKey(p, i)
                                         && Represents(b, BranchElementAt(p, i).id, kids[i])
  {
    var r := OfPage(p);
    forall i: nat | HasChild(r, i)
      ensures BranchReadable(p, i) && SepAt(r, i) == BranchKey(p, i) && ChildId(r, i) == BranchElementAt(p, i).id
    {
    }
    assert forall i: nat :: HasChild(r, i) <==> BranchReadable(p, i);
    assert AsInt(p.count) == |seps| <==> p.count == |seps| < 0x8000_0000;
  }

  lemma {:induction false} RepresentsWellFormed(b: Bucket, id: U64, t: Tree)
    requires Represents(b, id, t)
    ensures WellFormed(t)
    decreases t
  {
    match t
    case Leaf(_) =>
    case Branch(_, kids) =>
      var r := PageNode(b, id).value;
      forall i | 0 <= i < |kids|
        ensures WellFormed(kids[i])
      {
        RepresentsWellFormed(b, ChildId(r, i), kids[i]);
      }
  }

  /** The store determines the tree. */
  lemma {:induction false} TreeIsUnique(b: Bucket, id: U64, t: Tree, u: Tree)
    requires Represents(b, id, t) && Represents(b, id, u)
    ensures t == u
    decreases t
  {
    var r := PageNode(b, id).value;
    match t
    case Leaf(es) =>
      assert u.Leaf? && forall i :: 0 <= i < |es| ==> es[i] == u.entries[i];
    case Branch(seps, kids) =>
      assert u.Branch? && |u.kids| == |kids| == |u.seps|;
      forall i | 0 <= i < |kids|
        ensures kids[i] == u.kids[i] && seps[i] == u.seps[i]
      {
        TreeIsUnique(b, ChildId(r, i), kids[i], u.kids[i]);
      }
  }

  // ---- pages and nodes are interchangeable ----

  /** Behind this id, c has the same vertex as b, or the node that `read` builds from b's leaf page. */
  ghost predicate SameOrRead(b: Bucket, c: Bucket, id: U64) {
    || PageNode(b, id) == PageNode(c, id)
    || (&& PageNode(b, id).Some? && PageNode(b, id).value.OfPage?
        && var p := PageNode(b, id).value.page;
        && IsLeafPage(p) && Readable(p) && Decode(p).Ok?
        && PageNode(c, id) == Some(OfNode(Decode(p).value)))
  }

  ghost predicate LeavesCached(b: Bucket, c: Bucket) {
    forall id: U64 :: SameOrRead(b, c, id)
  }

  lemma {:induction false} ReadLeafHolds(p: PageView, es: seq<Entry>)
    requires IsLeafPage(p) && Readable(p) && Decode(p).Ok?
    ensures LeafHolds(OfPage(p), es) <==> LeafHolds(OfNode(Decode(p).value), es)
  {
    var ns := Decode(p).value.inodes;
    forall i: nat | i < p.count
      ensures LeafReadable(p, i) && ns[i] == LeafINode(p, i)
    {
    }
    SameElements(p, ns, es);
  }

  lemma {:induction false} SameElements(p: PageView, ns: seq<INode>, es: seq<Entry>)
    requires IsLeafPage(p) && |ns| == p.count
    requires forall i: nat :: i < p.count ==> LeafReadable(p, i)
    requires forall i: nat :: i < p.count ==> ns[i] == LeafINode(p, i)
    ensures LeafHolds(OfPage(p), es) <==> LeafHolds(OfNode(NodeView(true, ns)), es)
  {
    var r, q := OfPage(p), OfNode(NodeView(true, ns));
    assert Count(r) == Count(q);
    if Count(r) == |es| {
      assert |es| == p.count;
      assert forall i :: 0 <= i < |es| ==> HasEntry(r, i) && HasEntry(q, i) && EntryAt(r, i) == EntryAt(q, i);
    }
  }

  /** Any mix of cached leaves stands for the same tree, so no cursor result can tell them apart. */
  lemma {:induction false} CachingKeepsTree(b: Bucket, c: Bucket, id: U64, t: Tree)
    requires LeavesCached(b, c)
    ensures Represents(b, id, t) <==> Represents(c, id, t)
    decreases t
  {
    assert SameOrRead(b, c, id);
    match t
    case Leaf(es) =>
      if PageNode(b, id) != PageNode(c, id) {
        ReadLeafHolds(PageNode(b, id).value.page, es);
      }
    case Branch(seps, kids) =>
      if PageNode(b, id) == PageNode(c, id) && PageNode(b, id).Some? && BranchHolds(PageNode(b, id).value, seps) {
        var r := PageNode(b, id).value;
        forall i | 0 <= i < |kids| && HasChild(r, i)
          ensures Represents(b, ChildId(r, i), kids[i]) <==> Represents(c, ChildId(r, i), kids[i])
        {
          CachingKeepsTree(b, c, ChildId(r, i), kids[i]);
        }
      }
  }

  /** Loading one leaf page into the node cache, or an inline bucket's page into its root node. */
  lemma {:induction false} LoadingALeafCaches(b: Bucket, id: U64, n: NodeView)
    requires PageNode(b, id).Some? && PageNode(b, id).value.OfPage?
    requires var p := PageNode(b, id).value.page; IsLeafPage(p) && Readable(p) && Decode(p) == Ok(n)
    ensures LeavesCached(b, if Inline(b) then b.(rootNode := Some(n)) else b.(nodes := b.nodes[id := n]))
  {
    var c := if Inline(b) then b.(rootNode := Some(n)) else b.(nodes := b.nodes[id := n]);
    forall j: U64
      ensures SameOrRead(b, c, j)
    {
      if j != id {
        assert PageNode(b, j) == PageNode(c, j);
      }
    }
  }

  /** A page that holds a written leaf image is a leaf vertex with the node's flags, keys and values. */
  lemma {:induction false} WrittenLeafIsVertex(ns: seq<INode>, p: PageView, es: seq<Entry>)
    requires Encode(true, ns) <= p.data && Size(ns) < 0x1_0000_0000 && p.count == |ns| <= 0xffff && LeafBit(p.flags)
    requires |es| == |ns|
    requires forall i :: 0 <= i < |ns| ==>
      es[i].flags == ns[i].flags && es[i].key == ns[i].key && es[i].value == ns[i].value
    ensures LeafHolds(OfPage(p), es)
  {
    forall i | 0 <= i < |ns|
      ensures HasEntry(OfPage(p), i) && EntryAt(OfPage(p), i) == es[i]
    {
      WrittenEntry(ns, p, i, es[i]);
    }
    EntriesMakeLeaf(p, es);
  }

  lemma {:induction false} EntriesMakeLeaf(p: PageView, es: seq<Entry>)
    requires LeafBit(p.flags) && p.count == |es| <= 0xffff
    requires forall i :: 0 <= i < |es| ==> HasEntry(OfPage(p), i) && EntryAt(OfPage(p), i) == es[i]
    ensures LeafHolds(OfPage(p), es)
  {
  }

  lemma {:induction false} WrittenEntry(ns: seq<INode>, p: PageView, i: nat, e: Entry)
    requires Encode(true, ns) <= p.data && Size(ns) < 0x1_0000_0000 && p.count == |ns| <= 0xffff && i < |ns|
    requires e.flags == ns[i].flags && e.key == ns[i].key && e.value == ns[i].value
    ensures HasEntry(OfPage(p), i) && EntryAt(OfPage(p), i) == e
  {
    LeafElementRoundTrip(ns, p, i);
  }

  /** From bytes to scan: a bucket whose root is a written leaf, in its own page, in the file or inline. */
  lemma {:induction false} StoredLeafScans(b: Bucket, ns: seq<INode>, p: PageView)
    requires b.root == 0 ==> b.rootNode.None? && b.inlinePage == Some(p)
    requires b.root != 0 ==> b.root !in b.nodes && (b.root in b.dirty || b.root in b.mapped)
    requires b.root != 0 ==> p == if b.root in b.dirty then b.dirty[b.root] else b.mapped[b.root]
    requires Encode(true, ns) <= p.data && Size(ns) < 0x1_0000_0000 && p.count == |ns| <= 0xffff && p.flags / 2 % 2 == 1
    ensures Represents(b, b.root, Leaf(Entries(ns))) && Scan(Leaf(Entries(ns))) == Entries(ns)
    ensures forall i :: 0 <= i < |ns| ==> var e := Scan(Leaf(Entries(ns)))[i];
      e.flags == ns[i].flags && e.key == ns[i].key && e.value == ns[i].value
  {
    PageBehind(b, b.root, p);
    WrittenLeafIsVertex(ns, p, Entries(ns));
    ScanIsFlatten(Leaf(Entries(ns)));
  }

  /** A page that holds a branch image is a branch vertex with the node's separators and child ids. */
  lemma {:induction false} WrittenBranchIsVertex(ns: seq<INode>, p: PageView)
    requires Encode(false, ns) <= p.data && Size(ns) < 0x1_0000_0000 && p.count == |ns| <= 0xffff && ns != []
    requires BranchBit(p.flags) && !LeafBit(p.flags)
    ensures BranchHolds(OfPage(p), Ordered.Keys(ns))
    ensures forall i :: 0 <= i < |ns| ==> ChildId(OfPage(p), i) == ns[i].id
  {
    forall i | 0 <= i < |ns|
      ensures BranchReadable(p, i) && BranchElementAt(p, i).id == ns[i].id && BranchKey(p, i) == ns[i].key
    {
      BranchElementRoundTrip(ns, p, i);
    }
    ElementsMakeBranch(ns, p);
  }

  lemma {:induction false} ElementsMakeBranch(ns: seq<INode>, p: PageView)
    requires p.count == |ns| <= 0xffff && ns != [] && BranchBit(p.flags) && !LeafBit(p.flags)
    requires forall i :: 0 <= i < |ns| ==>
      BranchReadable(p, i) && BranchElementAt(p, i).id == ns[i].id && BranchKey(p, i) == ns[i].key
    ensures BranchHolds(OfPage(p), Ordered.Keys(ns))
    ensures forall i :: 0 <= i < |ns| ==> ChildId(OfPage(p), i) == ns[i].id
  {
  }
}
