/**
The in-memory node (bolt/node.h, bolt/node.cpp): an inode vector that is searched, changed, written
to a page and read back.
 */
module Nodes {
  import opened Slices
  import opened Pages
  import opened NodeCodec
  import opened Ordered

  class Node {
    var isLeaf: bool
    var unbalanced: bool
    var key: Slice
    var id: U64
    var inodes: seq<INode>

    constructor (isLeaf: bool)
      ensures this.isLeaf == isLeaf && inodes == [] && !unbalanced
    {
      this.isLeaf, unbalanced, key, id, inodes := isLeaf, false, [], 0, [];
    }

    /** The serialized size, computed in a 32-bit `int`: exact while it fits, otherwise its low 32 bits. */
    method SerializedSize() returns (sz: int)
      ensures sz == AsInt(Size(inodes)) && Size(inodes) == 24 + |Encode(isLeaf, inodes)|
      ensures -0x8000_0000 <= sz < 0x8000_0000 && (Size(inodes) - sz) % 0x1_0000_0000 == 0
      ensures Size(inodes) < 0x8000_0000 <==> sz == Size(inodes)
    {
      sz := PAGE_HEADER_SIZE;
      for i := 0 to |inodes|
        invariant sz == AsInt(Size(inodes[..i]))
      {
        AddWraps(Size(inodes[..i]), 16 + |inodes[i].key| + |inodes[i].value|);
        sz := AsInt(sz + 16 + |inodes[i].key| + |inodes[i].value|);
        assert inodes[..i + 1][..i] == inodes[..i];
      }
      assert inodes[..|inodes|] == inodes;
      FootprintIsSize(isLeaf, inodes);
    }

    /**
    Returns 0 and the stored value, or -1 and nothing; without a place for the result (`hasResult`
    false) the source exits, and so there is no code.
     */
    method Lookup(k: Slice, hasResult: bool) returns (code: Option<int>, value: Option<Slice>)
      requires Sorted(inodes)
      ensures code.None? <==> !hasResult
      ensures hasResult ==> code == Some(if k in AsMap(inodes) then 0 else -1)
      ensures value == if hasResult && k in AsMap(inodes) then Some(AsMap(inodes)[k].value) else None
    {
      if !hasResult {
        return None, None;
      }
      var i := FindLowerBound(Keys(inodes), k);
      ExactIsMember(inodes, k);
      if i < |inodes| && Equal(inodes[i].key, k) {
        return Some(0), Some(inodes[i].value);
      }
      return Some(-1), None;
    }

    /** Inserts or overwrites at the slot of the old key; dies on the inputs that the source rejects. */
    method Insert(meta: Option<nat>, oldKey: Slice, newKey: Slice, value: Slice, pgid: U64, flags: U32)
      returns (ok: bool)
      requires Sorted(inodes)
      modifies this`inodes
      ensures ok <==> meta.Some? && pgid < meta.value && oldKey != [] && newKey != []
      ensures ok ==> inodes == PutAt(old(inodes), oldKey, INode(flags, pgid, newKey, value))
      ensures ok ==> (Sorted(inodes) <==> FitsSlot(old(inodes), oldKey, newKey))
      ensures ok && FitsSlot(old(inodes), oldKey, newKey) ==>
        AsMap(inodes) == (old(AsMap(inodes)) - {oldKey})[newKey := INode(flags, pgid, newKey, value)]
      ensures oldKey == newKey ==> FitsSlot(old(inodes), oldKey, newKey)
      ensures !ok ==> inodes == old(inodes)
    {
      OwnSlotFits(inodes, newKey);
      if meta.None? || pgid >= meta.value || |oldKey| <= 0 || |newKey| <= 0 {
        return false;
      }
      ok := true;
      var n := INode(flags, pgid, newKey, value);
      ghost var before := inodes;
      ReplaceSlot(oldKey, n);
      InsertOutcome(before, oldKey, n);
    }

    /** The slot's inode is overwritten, after a blank one was inserted if the old key is absent. */
    method ReplaceSlot(oldKey: Slice, n: INode)
      requires Sorted(inodes)
      modifies this`inodes
      ensures inodes == PutAt(old(inodes), oldKey, n)
    {
      var i := FindLowerBound(Keys(inodes), oldKey);
      var exact := i < |inodes| && Equal(inodes[i].key, oldKey);
      if !exact {
        inodes := inodes[..i] + [INode(0, 0, [], [])] + inodes[i..];
      }
      inodes := inodes[i := n];
    }

    /** Removes a key; an absent key leaves the node and its rebalance mark alone. */
    method Delete(k: Slice) returns (ok: bool)
      requires Sorted(inodes)
      modifies this`inodes, this`unbalanced
      ensures ok <==> k != []
      ensures ok ==> inodes == Without(old(inodes), k)
      ensures ok ==> Sorted(inodes) && AsMap(inodes) == old(AsMap(inodes)) - {k}
      ensures ok && k !in old(AsMap(inodes)) ==> inodes == old(inodes)
      ensures unbalanced == (old(unbalanced) || (ok && k in old(AsMap(inodes))))
      ensures !ok ==> inodes == old(inodes)
    {
      if |k| <= 0 {
        return false;
      }
      ok := true;
      DelIsMapRemoval(inodes, k);
      DelKeepsOrder(inodes, k);
      ExactIsMember(inodes, k);
      var found := RemoveSlot(k);
      if found {
        unbalanced := true;
      }
    }

    /** Erases the inode of an exact match. */
    method RemoveSlot(k: Slice) returns (found: bool)
      requires Sorted(inodes)
      modifies this`inodes
      ensures inodes == Without(old(inodes), k) && found == Exact(old(inodes), k)
    {
      var i := FindLowerBound(Keys(inodes), k);
      found := i < |inodes| && Equal(inodes[i].key, k);
      if found {
        inodes := inodes[..i] + inodes[i + 1..];
      }
    }

    /** One operation of a caller; `Died` where the source exits. */
    method Perform(meta: Option<nat>, op: Op) returns (r: Reply)
      requires Sorted(inodes)
      modifies this`inodes, this`unbalanced
      ensures r == Apply(old(inodes), meta, op).0 && inodes == Apply(old(inodes), meta, op).1
    {
      match op
      case Get(k) =>
        ExactIsMember(inodes, k);
        var code, value := Lookup(k, true);
        r := if code == Some(0) then Found(value.value) else Missing;
      case Put(oldKey, n) =>
        var ok := Insert(meta, oldKey, n.key, n.value, n.id, n.flags);
        r := if ok then Done else Died;
      case Del(k) =>
        var ok := Delete(k);
        r := if ok then Done else Died;
    }

    /** A run of operations whose renames keep their places answers as the finite map does. */
    method PerformAll(meta: Option<nat>, ops: seq<Op>) returns (rs: seq<Reply>)
      requires Sorted(inodes) && PlacesKept(AsMap(inodes), meta, ops)
      modifies this`inodes, this`unbalanced
      ensures Sorted(inodes) && (rs, AsMap(inodes)) == MapRun(old(AsMap(inodes)), meta, ops)
      decreases |ops|
    {
      if ops == [] {
        return [];
      }
      ApplyRefinesMap(inodes, meta, ops[0]);
      var r := Perform(meta, ops[0]);
      if r.Died? {
        return [r];
      }
      var rest := PerformAll(meta, ops[1..]);
      rs := [r] + rest;
    }

    /**
    Stores the node on a page. The image fills exactly the announced size from the data pointer on
    and nothing else in the buffer changes. A branch survives only if every child id is the page's own.
     */
    method Write(p: Page) returns (ok: bool)
      requires p.ptr + |Encode(isLeaf, inodes)| <= p.buf.Length
      modifies p, p.buf
      ensures ok <==> |inodes| <= 0xffff && (isLeaf || forall i :: 0 <= i < |inodes| ==> inodes[i].id == p.id)
      ensures p.id == old(p.id)
      ensures ok ==> p.flags == OrFlag(old(p.flags), isLeaf)
      ensures ok ==> p.count == |inodes| && p.overflow == 0
      ensures ok ==> p.buf[..] == Splice(old(p.buf[..]), p.ptr, Encode(isLeaf, inodes))
    {
      p.SetFlags(isLeaf);
      if |inodes| > MAX_COUNT {
        return false;
      }
      p.overflow := 0;
      p.count := |inodes|;
      if p.count == 0 {
        EmptyImage(isLeaf, p.buf[..], p.ptr);
        return true;
      }
      ghost var hds := Headers(isLeaf, inodes);
      ProgressEnds(p.buf[..], p.ptr, hds, inodes);
      ok := WriteElements(p, hds);
    }

    /** The loop of `Write`: element after element, the packed payload growing behind the headers. */
    method WriteElements(p: Page, ghost hds: seq<Slice>) returns (ok: bool)
      requires HeadersOf(hds, isLeaf, inodes) && Room(p.buf[..], p.ptr, hds, inodes)
      modifies p.buf
      ensures ok <==> isLeaf || forall i :: 0 <= i < |inodes| ==> inodes[i].id == p.id
      ensures ok ==> p.buf[..] == Progress(old(p.buf[..]), p.ptr, hds, inodes, |inodes|)
    {
      ghost var pre := p.buf[..];
      var b := p.ptr + |inodes| * 16;
      for i := 0 to |inodes|
        invariant isLeaf || forall j :: 0 <= j < i ==> inodes[j].id == p.id
        invariant b == p.ptr + |inodes| * 16 + |Payload(inodes, i)|
        invariant p.buf[..] == Progress(pre, p.ptr, hds, inodes, i)
      {
        var alive := WriteElement(p, i, b, pre, hds);
        if !alive {
          return false;
        }
        b := b + |inodes[i].key| + |inodes[i].value|;
      }
      ok := true;
    }

    method WriteElement(p: Page, i: nat, b: nat, ghost pre: Slice, ghost hds: seq<Slice>) returns (ok: bool)
      requires i < |inodes| && HeadersOf(hds, isLeaf, inodes) && Room(pre, p.ptr, hds, inodes) && |pre| == p.buf.Length
      requires b == p.ptr + |inodes| * 16 + |Payload(inodes, i)|
      requires p.buf[..] == Progress(pre, p.ptr, hds, inodes, i)
      modifies p.buf
      ensures ok <==> isLeaf || inodes[i].id == p.id
      ensures ok ==> p.buf[..] == Progress(pre, p.ptr, hds, inodes, i + 1)
    {
      ghost var cur, n := p.buf[..], inodes[i];
      ProgressNext(pre, p.ptr, hds, inodes, i, cur, b);
      ghost var next := Progress(pre, p.ptr, hds, inodes, i + 1);
      assert next == StoreAll(cur, p.ptr + i * 16, hds[i], b, n.key, n.value);
      ok := StoreElement(p, i, b, hds);
    }

    method StoreElement(p: Page, i: nat, b: nat, ghost hds: seq<Slice>) returns (ok: bool)
      requires i < |inodes| && HeadersOf(hds, isLeaf, inodes) && FullHeaders(hds)
      requires b == p.ptr + |inodes| * 16 + |Payload(inodes, i)|
      requires b + |inodes[i].key| + |inodes[i].value| <= p.buf.Length
      modifies p.buf
      ensures ok <==> isLeaf || inodes[i].id == p.id
      ensures ok ==> p.buf[..] == StoreAll(old(p.buf[..]), p.ptr + i * 16, hds[i], b, inodes[i].key, inodes[i].value)
    {
      ok := WriteHeader(p, i, b, hds);
      if ok {
        Memcpy(p.buf, b, inodes[i].key);
        Memcpy(p.buf, b + |inodes[i].key|, inodes[i].value);
      }
    }

    /** The header of inode i, whose key is going to be stored at b. */
    method WriteHeader(p: Page, i: nat, b: nat, ghost hds: seq<Slice>) returns (ok: bool)
      requires i < |inodes| && HeadersOf(hds, isLeaf, inodes) && FullHeaders(hds)
      requires b == p.ptr + |inodes| * 16 + |Payload(inodes, i)| <= p.buf.Length
      modifies p.buf
      ensures ok <==> isLeaf || inodes[i].id == p.id
      ensures p.buf[..] == Splice(old(p.buf[..]), p.ptr + i * 16, hds[i])
    {
      assert HeaderOk(hds, isLeaf, inodes, i);
      var n, off := inodes[i], i * 16;
      var pos := b - (p.ptr + off);
      if isLeaf {
        p.StoreLeafElement(off, n.flags, pos, |n.key|, |n.value|);
        ok := true;
      } else {
        p.StoreBranchElement(off, pos, |n.key|, n.id);
        ok := n.id == p.id;
      }
    }

    /** Rebuilds the node from a page; the first key is remembered as the node's own. */
    method Read(p: Page) returns (ok: bool)
      requires p.ptr <= p.buf.Length && Readable(p.View())
      modifies this
      ensures ok <==> Decode(p.View()).Ok?
      ensures ok ==> NodeView(isLeaf, inodes) == Decode(p.View()).value
      ensures ok ==> id == p.id && key == if inodes == [] then old(key) else inodes[0].key
    {
      var v := p.View();
      id := p.id;
      isLeaf := LeafBit(v.flags);
      inodes := [];
      var read := ReadElements(v);
      if read.Exit? {
        return false;
      }
      inodes := read.value.inodes;
      if |inodes| > 0 {
        key := inodes[0].key;
      }
      ok := true;
    }
  }

  /** The loop of `Read`: leaf elements one by one, until one has an empty key. */
  method ReadElements(v: PageView) returns (r: Result<NodeView>)
    requires Readable(v)
    ensures r == Decode(v)
  {
    var ns: seq<INode> := [];
    for i := 0 to v.count
      invariant |ns| == i && (i > 0 ==> IsLeafPage(v))
      invariant forall j :: 0 <= j < i ==> LeafReadable(v, j) && ns[j] == LeafINode(v, j)
      invariant forall j :: 0 <= j < i ==> ns[j].key != []
    {
      if !LeafBit(v.flags) {
        // The branch case fills a variable of its own, so the key checked here is the empty default.
        return Exit;
      }
      var n := LeafINode(v, i);
      if |n.key| <= 0 {
        EmptyKeyStops(v, i);
        return Exit;
      }
      ns := ns + [n];
    }
    AllKeysPass(v, ns);
    r := Ok(NodeView(LeafBit(v.flags), ns));
  }

  lemma {:induction false} InsertOutcome(ns: seq<INode>, oldKey: Slice, n: INode)
    requires Sorted(ns)
    ensures Sorted(PutAt(ns, oldKey, n)) <==> FitsSlot(ns, oldKey, n.key)
    ensures FitsSlot(ns, oldKey, n.key) ==> AsMap(PutAt(ns, oldKey, n)) == (AsMap(ns) - {oldKey})[n.key := n]
  {
    RenameKeepsOrder(ns, oldKey, n);
    if Sorted(PutAt(ns, oldKey, n)) {
      RenameIsMapUpdate(ns, oldKey, n);
    }
  }

  lemma {:induction false} EmptyImage(isLeaf: bool, pre: Slice, ptr: nat)
    requires ptr <= |pre|
    ensures Encode(isLeaf, []) == [] && Splice(pre, ptr, []) == pre
  {
  }

  lemma {:induction false} EmptyKeyStops(v: PageView, i: nat)
    requires Readable(v) && IsLeafPage(v) && i < v.count && LeafINode(v, i).key == []
    ensures Decode(v) == Exit
  {
    var ns := seq(v.count, j requires 0 <= j < v.count => LeafINode(v, j));
    assert ns[i].key == [];
  }

  lemma {:induction false} AllKeysPass(v: PageView, ns: seq<INode>)
    requires Readable(v) && |ns| == v.count && (|ns| > 0 ==> IsLeafPage(v))
    requires forall j :: 0 <= j < |ns| ==> LeafReadable(v, j) && ns[j] == LeafINode(v, j)
    requires forall j :: 0 <= j < |ns| ==> ns[j].key != []
    ensures Decode(v) == Ok(NodeView(IsLeafPage(v), ns))
  {
    if IsLeafPage(v) {
      assert ns == seq(v.count, j requires 0 <= j < v.count => LeafINode(v, j));
    }
  }

  /** Writing a leaf with non-empty keys and reading the page into another node restores the leaf. */
  method WriteThenRead(n: Node, p: Page, m: Node) returns (ok: bool)
    requires n != m && n.isLeaf && |n.inodes| <= 0xffff && Size(n.inodes) < 0x1_0000_0000
    requires p.ptr + |Encode(true, n.inodes)| <= p.buf.Length
    modifies p, p.buf, m
    ensures ok <==> forall i :: 0 <= i < |n.inodes| ==> n.inodes[i].key != []
    ensures ok ==> m.isLeaf && |m.inodes| == |n.inodes|
    ensures ok ==> forall i :: 0 <= i < |n.inodes| ==>
      && m.inodes[i].flags == n.inodes[i].flags
      && m.inodes[i].key == n.inodes[i].key && m.inodes[i].value == n.inodes[i].value
    ensures n.inodes == old(n.inodes)
  {
    var written := n.Write(p);
    ghost var v := p.View();
    ImageFollowsPointer(old(p.buf[..]), p.ptr, Encode(true, n.inodes));
    LeafRoundTrip(n.inodes, v);
    ok := m.Read(p);
  }

  lemma {:induction false} ImageFollowsPointer(pre: Slice, ptr: nat, image: Slice)
    requires ptr + |image| <= |pre|
    ensures image <= Splice(pre, ptr, image)[ptr..]
  {
  }
}
