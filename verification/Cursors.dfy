/**
The cursor (bolt/cursor.h, bolt/cursor.cpp): a stack of vertex references that is cleared, pushed,
cut and bumped in place. Each method is tied to the position functions of `Trees`, `Seeking` and
`Backward`.
 */
module Cursors {
  import opened Slices
  import opened Pages
  import opened NodeCodec
  import Ordered
  import opened Strays
  import opened Trees
  import opened Seeking
  import Backward
  import opened Buckets
  import opened Searches
  import opened Stacks

  /** What the public moves return: the value of a nested bucket is withheld. */
  datatype Pair = Pair(key: Option<Slice>, value: Option<Slice>)

  function Shown(e: Option<Entry>): Pair {
    match e
    case None => Pair(None, None)
    case Some(x) => Pair(Some(x.key), if BucketBit(x.flags) then None else Some(x.value))
  }

  lemma {:induction false} ScanBackMeans(t: Tree, es: seq<Entry>)
    requires WellFormed(t) && OnTree(t, Rightmost(t)) && es == Backward.BackScan(t, Rightmost(t))
    ensures es == Backward.Reverse(Backward.Tail(Backward.Leaves(t)))
    ensures es == Backward.Reverse(Flatten(t)) <==> Backward.NoGap(Backward.Leaves(t))
    ensures Backward.NoGap(Backward.Leaves(t)) ==>
      |es| == |Flatten(t)| && forall i :: 0 <= i < |es| ==> es[i] == Flatten(t)[|es| - 1 - i]
  {
    Backward.ScanBackIsTail(t);
    Backward.ScanBackIsReverseWhen(t);
    Backward.ReverseMirrors(Flatten(t));
  }

  class Cursor {
    const bucket: Bucket
    ghost const tree: Tree
    var stack: seq<ElemRef>

    constructor (b: Bucket, ghost t: Tree)
      requires Represents(b, b.root, t)
      ensures Valid() && bucket == b && tree == t && stack == []
    {
      RepresentsWellFormed(b, b.root, t);
      bucket, tree, stack := b, t, [];
    }

    /** The bucket's store is the tree. */
    ghost predicate Valid()
      reads this
    {
      Represents(bucket, bucket.root, tree) && WellFormed(tree)
    }

    ghost function Position(): Path
      reads this
    {
      Indices(stack)
    }

    /** The stack is a root-to-leaf path. */
    ghost predicate Positioned()
      reads this
    {
      Valid() && Held(bucket, bucket.root, tree, stack) && OnTree(tree, Position())
    }

    /** The stack is a path that a descent may continue. */
    ghost predicate Descending()
      reads this
    {
      Valid() && Held(bucket, bucket.root, tree, stack) && Partial(tree, Position()) && TopInRange(tree, Position())
    }

    /** What the reference on top of the stack reports. */
    method TopInfo() returns (leaf: bool, count: int)
      requires Descending()
      ensures leaf == Top(tree, Position()).Leaf? && count == Width(Top(tree, Position()))
    {
      ghost var id := HeldTop(bucket, bucket.root, tree, stack);
      RefReports(bucket, id, Top(tree, Position()));
      var r := stack[|stack| - 1].ref;
      return IsLeaf(r), Count(r);
    }

    /** From this stack a descent along one edge reaches the position q. */
    ghost predicate Leads(left: bool, q: Path)
      reads this
    {
      Valid() && LeadsTo(bucket, bucket.root, tree, stack, left, q)
    }

    /** Pushes the child that the top index selects, at its first or last index. */
    method PushChild(left: bool, ghost q: Path)
      requires Leads(left, q) && Top(tree, Position()).Branch?
      modifies this`stack
      ensures Leads(left, q)
      ensures Top(tree, Position()) == old(Top(tree, Position()).kids[Position()[|stack| - 1]])
      ensures |stack| == old(|stack|) + 1 && stack[..|stack| - 1] == old(stack)
      ensures var i := stack[|stack| - 2].index;
        match stack[|stack| - 2].ref
        case OfNode(n) => 0 <= i < |n.inodes| && PageNode(bucket, n.inodes[i].id) == Some(stack[|stack| - 1].ref)
        case OfPage(p) =>
          0 <= i && HasElement(p, i) && PageNode(bucket, BranchElementAt(p, i).id) == Some(stack[|stack| - 1].ref)
    {
      PushStack(bucket, bucket.root, tree, stack, left, q);
      stack := stack + [ChildElem(bucket, stack[|stack| - 1], left)];
    }

    /** `first_` */
    method FirstDown(ghost q: Path)
      requires Leads(true, q)
      modifies this`stack
      ensures Positioned() && Position() == q
    {
      var leaf, count := TopInfo();
      while !leaf
        invariant Leads(true, q) && leaf == Top(tree, Position()).Leaf?
        decreases Top(tree, Position())
      {
        PushChild(true, q);
        leaf, count := TopInfo();
      }
    }

    /** `last_` */
    method LastDown(ghost q: Path)
      requires Leads(false, q)
      modifies this`stack
      ensures Positioned() && Position() == q
    {
      var leaf, count := TopInfo();
      while !leaf
        invariant Leads(false, q) && leaf == Top(tree, Position()).Leaf?
        decreases Top(tree, Position())
      {
        PushChild(false, q);
        leaf, count := TopInfo();
      }
    }

    /** `keyValue`: the entry under the cursor, read from the node or from the page bytes. */
    method KeyValue() returns (e: Option<Entry>)
      requires Positioned()
      ensures e == Current(tree, Position())
    {
      OnTreeIsPartial(tree, Position());
      CurrentByIndex(tree, Position());
      ghost var id := HeldTop(bucket, bucket.root, tree, stack);
      RefReports(bucket, id, Top(tree, Position()));
      var top := stack[|stack| - 1];
      if Count(top.ref) == 0 || top.index >= Count(top.ref) {
        return None;
      }
      return Some(EntryAt(top.ref, top.index));
    }

    method TopCount() returns (count: int)
      requires Positioned()
      ensures count == |LeafAt(tree, Position())|
    {
      OnTreeIsPartial(tree, Position());
      var _, c := TopInfo();
      return c;
    }

    /** The deepest level whose index can grow, or -1. */
    method RoomRight(ghost p: Path) returns (d: int)
      requires Positioned() && p == Position()
      ensures -1 <= d < |p|
      ensures d >= 0 ==> !FullAt(tree, p, d)
      ensures forall j :: d < j < |p| ==> FullAt(tree, p, j)
    {
      d := |stack| - 1;
      while d >= 0
        invariant -1 <= d < |stack|
        invariant forall j :: d < j < |p| ==> FullAt(tree, p, j)
      {
        CountIsWidth(bucket, bucket.root, tree, stack, d);
        if stack[d].index < Count(stack[d].ref) - 1 {
          return;
        }
        d := d - 1;
      }
    }

    /** One turn of the retry loop of `next_`; false when no level can grow. */
    method BumpOnce() returns (moved: bool)
      requires Positioned()
      modifies this`stack
      ensures Positioned()
      ensures moved <==> old(Bump(tree, Position())).Some?
      ensures moved ==> Some(Position()) == old(Bump(tree, Position()))
      ensures !moved ==> stack == old(stack)
    {
      ghost var p := Position();
      var d := RoomRight(p);
      if d < 0 {
        NoRoomRight(tree, p);
        return false;
      }
      BumpLevel(p, d);
      moved := true;
    }

    /** Cuts the stack after level d, takes that level's index up by one and descends. */
    method BumpLevel(ghost p: Path, d: nat)
      requires Positioned() && p == Position() && d < |p|
      requires !FullAt(tree, p, d) && forall j :: d < j < |p| ==> FullAt(tree, p, j)
      modifies this`stack
      ensures Positioned() && Some(Position()) == Bump(tree, p)
    {
      BumpByLevel(tree, p, d);
      CutLeads(bucket, bucket.root, tree, stack, d, p[d] + 1, p[..d] + [p[d] + 1], true, Bump(tree, p).value);
      stack := CutAt(stack, d, stack[d].index + 1);
      FirstDown(Bump(tree, p).value);
    }

    /** `next_` */
    method NextEntry() returns (e: Option<Entry>)
      requires Positioned()
      modifies this`stack
      ensures Positioned()
      ensures Move(Position(), e) == old(Trees.Next(tree, Position()))
    {
      while true
        invariant Positioned()
        invariant Trees.Next(tree, Position()) == old(Trees.Next(tree, Position()))
        decreases LeavesAfter(tree, Position())
      {
        ghost var p := Position();
        BumpAdvances(tree, p);
        var moved := BumpOnce();
        if !moved {
          return None;
        }
        var count := TopCount();
        if count == 0 {
          continue;
        }
        e := KeyValue();
        return;
      }
    }

    method StartAtRoot(left: bool)
      requires Valid()
      modifies this`stack
      ensures Leads(left, Edge(tree, left))
    {
      RootStack(bucket, bucket.root, tree, left);
      stack := [];
      var r := PageNode(bucket, bucket.root).value;
      var i := if left then 0 else Count(r) - 1;
      assert i == EdgeIndex(tree, left);
      stack := [ElemRef(r, i)];
    }

    /** Moves to the first entry of the tree, over any empty leaves, and returns it. */
    method First() returns (r: Pair)
      requires Valid()
      modifies this`stack
      ensures Positioned() && Position() == Trees.First(tree)
      ensures Flatten(tree) == [] ==> r == Pair(None, None)
      ensures Flatten(tree) != [] ==> var x := Flatten(tree)[0];
        r.key == Some(x.key) && r.value == if x.flags % 2 == 1 then None else Some(x.value)
    {
      StartAtRoot(true);
      FirstDown(Leftmost(tree));
      var count := TopCount();
      if count == 0 {
        var _ := NextEntry();
      }
      var e := KeyValue();
      r := Shown(e);
    }

    /** Returns the entry after the cursor and moves onto it, or returns nothing at the end. */
    method Next() returns (r: Pair)
      requires Positioned()
      modifies this`stack
      ensures Positioned() && Position() == old(Trees.Next(tree, Position())).path
      ensures old(After(tree, Position())) == [] ==> r == Pair(None, None)
      ensures old(After(tree, Position())) != [] ==> var x := old(After(tree, Position()))[0];
        r.key == Some(x.key) && r.value == if x.flags % 2 == 1 then None else Some(x.value)
    {
      var e := NextEntry();
      r := Shown(e);
    }

    /** Moves to the last index of the rightmost leaf; an empty rightmost leaf yields nothing. */
    method Last() returns (r: Pair)
      requires Valid()
      modifies this`stack
      ensures Positioned() && Position() == Rightmost(tree)
      ensures LeafAt(tree, Rightmost(tree)) == [] ==> r == Pair(None, None)
      ensures LeafAt(tree, Rightmost(tree)) != [] ==>
        var x := LeafAt(tree, Rightmost(tree))[|LeafAt(tree, Rightmost(tree))| - 1];
        r.key == Some(x.key) && r.value == if x.flags % 2 == 1 then None else Some(x.value)
    {
      StartAtRoot(false);
      LastDown(Rightmost(tree));
      Backward.RightmostIsEnd(tree);
      var e := KeyValue();
      r := Shown(e);
    }

    /** Pops elements at index 0 and takes the first other index down by one. */
    method StepBack(ghost p: Path) returns (moved: bool, ghost d: nat)
      requires p == Position()
      modifies this`stack
      ensures moved <==> Backward.AnyPositive(p)
      ensures !moved ==> stack == []
      ensures moved ==> d < |p| && p[d] > 0 && forall j :: d < j < |p| ==> p[j] <= 0
      ensures moved ==> stack == CutAt(old(stack), d, old(stack)[d].index - 1)
    {
      moved, d := false, 0;
      while stack != []
        invariant |stack| <= |p| && stack == old(stack)[..|stack|]
        invariant forall j :: |stack| <= j < |p| ==> p[j] <= 0
        decreases |stack|
      {
        var n := |stack| - 1;
        assert stack[n].index == p[n];
        if stack[n].index > 0 {
          d := n;
          stack := CutAt(stack, n, stack[n].index - 1);
          return true, d;
        }
        stack := stack[..n];
      }
    }

    /** `prev` as written: after the step back it restarts at the root through `last`. */
    method Prev() returns (r: Pair)
      requires Valid() && (stack == [] || Positioned())
      modifies this`stack
      ensures Valid()
      ensures old(Backward.PrevWritten(tree, Position())).None? ==> stack == [] && r == Pair(None, None)
      ensures old(Backward.PrevWritten(tree, Position())).Some? ==>
        Positioned() && Position() == Rightmost(tree)
      ensures stack != [] && Current(tree, Position()).None? ==> r == Pair(None, None)
      ensures stack != [] && Current(tree, Position()).Some? ==> var x := Current(tree, Position()).value;
        r.key == Some(x.key) && r.value == if x.flags % 2 == 1 then None else Some(x.value)
    {
      var moved, d := StepBack(Position());
      if |stack| == 0 {
        return Pair(None, None);
      }
      var _ := Last();
      var e := KeyValue();
      r := Shown(e);
    }

    /** `prev` as its comments describe it: after the step back it descends by `last_`. */
    method PrevIntended() returns (r: Pair)
      requires Valid() && (stack == [] || Positioned())
      modifies this`stack
      ensures Valid()
      ensures old(stack == [] || Backward.Prev(tree, Position()).None?) ==> stack == [] && r == Pair(None, None)
      ensures old(stack != [] && Backward.Prev(tree, Position()).Some?) ==>
        Positioned() && Some(Position()) == old(Backward.Prev(tree, Position()))
      ensures stack != [] && Current(tree, Position()).None? ==> r == Pair(None, None)
      ensures stack != [] && Current(tree, Position()).Some? ==> var x := Current(tree, Position()).value;
        r.key == Some(x.key) && r.value == if x.flags % 2 == 1 then None else Some(x.value)
    {
      ghost var p := Position();
      if stack == [] {
        return Pair(None, None);
      }
      Backward.PrevExists(tree, p);
      var moved, d := StepBack(p);
      if |stack| == 0 {
        return Pair(None, None);
      }
      PrevByLevel(tree, p, d);
      DescendBack(old(stack), d, p[..d] + [p[d] - 1], Backward.Prev(tree, p).value);
      var e := KeyValue();
      r := Shown(e);
    }

    /** Without empty leaves, a successful `next` followed by the intended `prev` restores the very same stack. */
    method NextThenPrev() returns (r: Pair)
      requires Positioned() && Backward.NoEmptyLeaf(tree)
      requires Current(tree, Position()).Some? && Trees.Next(tree, Position()).result.Some?
      modifies this`stack
      ensures stack == old(stack) && r.key == Some(old(Current(tree, Position())).value.key)
    {
      Backward.PrevUndoesNext(tree, Position());
      ghost var before := stack;
      var _ := Next();
      r := PrevIntended();
      HeldByIndices(bucket, bucket.root, tree, stack, before);
    }

    method DescendBack(ghost before: seq<ElemRef>, ghost d: nat, ghost cut: Path, ghost q: Path)
      requires Valid() && Held(bucket, bucket.root, tree, before) && d < |before|
      requires cut == Indices(before)[..d] + [before[d].index - 1] && PathLeads(tree, cut, false, q)
      requires stack == CutAt(before, d, before[d].index - 1)
      modifies this`stack
      ensures Positioned() && Position() == q
    {
      CutLeads(bucket, bucket.root, tree, before, d, before[d].index - 1, cut, false, q);
      LastDown(q);
    }

    /**
    `search`: pushes the vertices from this id down to a leaf and sets their indices. `stray` is what
    the copies of page elements find in place of their key bytes.
     */
    method Search(key: Slice, id: U64, stray: Stray, ghost t: Tree) returns (ghost tail: seq<ElemRef>)
      requires Represents(bucket, id, t) && WellFormed(t) && KeysOrdered(t)
      modifies this`stack
      ensures stack == old(stack) + tail
      ensures Held(bucket, id, t, tail) && Indices(tail) == PathTaken(bucket, id, t, key, stray)
      decreases t, 1
    {
      var r := PageNode(bucket, id).value;
      RefReports(bucket, id, t);
      stack := stack + [ElemRef(r, 0)];
      if IsLeaf(r) {
        tail := SearchLeafTop(key, id, stray, t);
      } else {
        tail := SearchBranchTop(key, id, stray, t);
      }
    }

    method SearchLeafTop(key: Slice, id: U64, stray: Stray, ghost t: Tree) returns (ghost tail: seq<ElemRef>)
      requires Represents(bucket, id, t) && t.Leaf? && KeysOrdered(t) && stack != []
      modifies this`stack
      ensures stack == old(stack)[..|old(stack)| - 1] + tail
      ensures Held(bucket, id, t, tail) && Indices(tail) == PathTaken(bucket, id, t, key, stray)
    {
      var r := PageNode(bucket, id).value;
      var i := LeafIndex(r, key, id, stray, t.entries);
      SearchStops(bucket, id, t, key, stray);
      tail := [ElemRef(r, i)];
      stack := stack[..|stack| - 1] + [ElemRef(r, i)];
    }

    /** `searchNode` and `searchPage`: set the index on top and search the selected child. */
    method SearchBranchTop(key: Slice, id: U64, stray: Stray, ghost t: Tree) returns (ghost tail: seq<ElemRef>)
      requires Represents(bucket, id, t) && t.Branch? && WellFormed(t) && KeysOrdered(t) && stack != []
      modifies this`stack
      ensures stack == old(stack)[..|old(stack)| - 1] + tail
      ensures Held(bucket, id, t, tail) && Indices(tail) == PathTaken(bucket, id, t, key, stray)
      decreases t, 0
    {
      var r := PageNode(bucket, id).value;
      var c := BranchIndex(r, key, id, stray, t.seps);
      ghost var base := stack[..|stack| - 1];
      stack := stack[..|stack| - 1] + [ElemRef(r, c)];
      ghost var rest := Search(key, ChildId(r, c), stray, t.kids[c]);
      tail := [ElemRef(r, c)] + rest;
      SearchExtends(bucket, id, t, key, stray, c, rest);
      PushThenAppend(base, ElemRef(r, c), rest);
    }

    /** `nsearch`: lower bound in a leaf node; in a page, what the stray key bytes lead to. */
    method LeafIndex(r: Ref, key: Slice, id: U64, stray: Stray, ghost es: seq<Entry>) returns (i: int)
      requires LeafHolds(r, es) && AscendingEntries(es)
      ensures i == LeafStop(r, id, es, key, stray)
    {
      match r
      case OfNode(n) =>
        assert Ordered.Keys(n.inodes) == EntryKeys(es);
        assert Ordered.Ascending(EntryKeys(es));
        i := Ordered.FindLowerBound(Ordered.Keys(n.inodes), key);
      case OfPage(p) =>
        LeafPageSizes(p, es);
        var keys := StrayKeys(CopiedSizes(p), id, stray);
        i := Ordered.HalvingSearch(keys, key);
        assert i == Stop(keys, key);
    }

    /** The index computation of `searchNode` and `searchPage`. */
    method BranchIndex(r: Ref, key: Slice, id: U64, stray: Stray, ghost seps: seq<Slice>) returns (c: int)
      requires BranchHolds(r, seps) && Ordered.Ascending(seps)
      ensures c == BranchPick(r, id, seps, key, stray)
    {
      match r
      case OfNode(n) =>
        assert Ordered.Keys(n.inodes) == seps;
        PickIsChildFor(seps, key);
        c := PickIndex(Ordered.Keys(n.inodes), key);
      case OfPage(p) =>
        BranchPageSizes(p, seps);
        var keys := StrayKeys(CopiedSizes(p), id, stray);
        assert |keys| == |Sizes(keys)|;
        c := PickIndex(keys, key);
    }

    /** An exact match selects its own index, anything else the index before it. */
    method PickIndex(keys: seq<Slice>, key: Slice) returns (c: nat)
      requires |keys| > 0
      ensures c == Pick(keys, key)
    {
      c := Ordered.HalvingSearch(keys, key);
      var exact := c < |keys| && Equal(keys[c], key);
      if !exact && c > 0 {
        c := c - 1;
      }
    }

    /** `seek_`: where the search from the root stops. A reliable search stops at the lower bound. */
    method SeekStop(key: Slice, stray: Stray)
      requires Valid() && KeysOrdered(tree)
      modifies this`stack
      ensures Positioned() && Position() == PathTaken(bucket, bucket.root, tree, key, stray)
      ensures Reliable(bucket, bucket.root, tree, key) ==> From(tree, Position()) == AtLeast(Flatten(tree), key)
    {
      stack := [];
      ghost var tail := Search(key, bucket.root, stray, tree);
      assert stack == tail;
      if Reliable(bucket, bucket.root, tree, key) {
        ReliableTaken(bucket, bucket.root, tree, key, stray);
      }
    }

    /** The end of `seek`: past the end of a leaf it moves on to the next entry. */
    method SettleDown() returns (e: Option<Entry>)
      requires Positioned()
      modifies this`stack
      ensures Positioned() && Position() == Settle(tree, old(Position()))
      ensures e == Current(tree, Position())
    {
      ghost var p := Position();
      SettleByNext(tree, p);
      e := KeyValue();
      if e.None? {
        e := NextEntry();
        assert Move(Position(), e) == Trees.Next(tree, p);
      }
    }

    /**
    `seek`: searches from the root and, past the end of a leaf, moves on to the next entry. The test on
    the found key is inverted, so nothing is ever returned; the position is what counts.
     */
    method Seek(key: Slice, stray: Stray) returns (r: Pair)
      requires Valid() && KeysOrdered(tree)
      modifies this`stack
      ensures r == Pair(None, None)
      ensures Positioned() && Position() == Settle(tree, PathTaken(bucket, bucket.root, tree, key, stray))
      ensures Reliable(bucket, bucket.root, tree, key) ==> From(tree, Position()) == AtLeast(Flatten(tree), key)
    {
      SeekStop(key, stray);
      var e := SettleDown();
      if e.Some? {
        return Pair(None, None);
      }
      r := Shown(e);
    }

    // ---- whole scans ----

    /** First, then next until nothing is returned. */
    method ScanAll() returns (es: seq<Entry>)
      requires Valid()
      modifies this`stack
      ensures Positioned() && es == Flatten(tree)
    {
      var _ := First();
      FromIsCurrentThenAfter(tree, Position());
      es := Drain();
    }

    /**
    Seek, then next until nothing is returned: everything from where the search stopped. Where the
    search is reliable, as for the empty key or over nodes, that is the range from the key on.
     */
    method ScanFrom(key: Slice, stray: Stray) returns (es: seq<Entry>)
      requires Valid() && KeysOrdered(tree)
      modifies this`stack
      ensures Positioned() && AscendingEntries(Flatten(tree))
      ensures es == From(tree, PathTaken(bucket, bucket.root, tree, key, stray))
      ensures Reliable(bucket, bucket.root, tree, key) ==> es == AtLeast(Flatten(tree), key)
    {
      FlattenAscends(tree);
      var _ := Seek(key, stray);
      FromIsCurrentThenAfter(tree, Position());
      es := Drain();
    }

    /** From the empty key a range scan yields everything, on every store. */
    method ScanFromEmpty(stray: Stray) returns (es: seq<Entry>)
      requires Valid() && KeysOrdered(tree)
      modifies this`stack
      ensures Positioned() && es == Flatten(tree)
    {
      EmptyKeyReliable(bucket, bucket.root, tree);
      AtLeastEmpty(Flatten(tree));
      es := ScanFrom([], stray);
    }

    /** The entries taken so far and those that steps back still yield are all. */
    ghost predicate BackAt(r: Pair, es: seq<Entry>, all: seq<Entry>)
      reads this
    {
      && Valid()
      && if r.key.None? then es == all
         else Positioned() && Current(tree, Position()).Some? && es + Backward.BackScan(tree, Position()) == all
    }

    ghost function BackLeft(r: Pair): nat
      reads this
    {
      if r.key.Some? && Positioned() then 1 + |Backward.BackScan(tree, Position())| else 0
    }

    method TakeAndStepBack(es: seq<Entry>, r: Pair, ghost all: seq<Entry>) returns (more: seq<Entry>, next: Pair)
      requires r.key.Some? && BackAt(r, es, all)
      modifies this`stack
      ensures BackAt(next, more, all) && BackLeft(next) < old(BackLeft(r))
    {
      ghost var p := Position();
      Backward.BackScanStep(tree, p, es, all);
      var e := KeyValue();
      more := es + [e.value];
      next := PrevIntended();
    }

    /** Last, then the intended prev until nothing is returned: the entries behind the last empty leaf, reversed. */
    method ScanBack() returns (es: seq<Entry>)
      requires Valid()
      modifies this`stack
      ensures Valid() && es == Backward.Reverse(Backward.Tail(Backward.Leaves(tree)))
      ensures es == Backward.Reverse(Flatten(tree)) <==> Backward.NoGap(Backward.Leaves(tree))
      ensures Backward.NoGap(Backward.Leaves(tree)) ==>
        |es| == |Flatten(tree)| && forall i :: 0 <= i < |es| ==> es[i] == Flatten(tree)[|es| - 1 - i]
    {
      es := TakeAllBack();
      ScanBackMeans(tree, es);
    }

    method TakeAllBack() returns (es: seq<Entry>)
      requires Valid()
      modifies this`stack
      ensures Valid() && OnTree(tree, Rightmost(tree)) && es == Backward.BackScan(tree, Rightmost(tree))
    {
      Backward.RightmostIsEnd(tree);
      ghost var all := Backward.BackScan(tree, Rightmost(tree));
      es := [];
      var r := Last();
      while r.key.Some?
        invariant BackAt(r, es, all)
        decreases BackLeft(r)
      {
        es, r := TakeAndStepBack(es, r, all);
      }
    }

    /** The entry under the cursor and all that `next` then returns. */
    method Drain() returns (es: seq<Entry>)
      requires Positioned() && (Current(tree, Position()).None? ==> After(tree, Position()) == [])
      modifies this`stack
      ensures Positioned() && es == old(From(tree, Position()))
    {
      es := [];
      var e := KeyValue();
      ghost var all := From(tree, Position());
      FromIsCurrentThenAfter(tree, Position());
      while e.Some?
        invariant Positioned()
        invariant e.None? ==> es == all
        invariant e.Some? ==> es + ([e.value] + After(tree, Position())) == all
        decreases if e.Some? then 1 + |After(tree, Position())| else 0
      {
        ghost var p := Position();
        ScanStep(tree, p, es, e.value, all);
        es := es + [e.value];
        e := NextEntry();
        assert Move(Position(), e) == Trees.Next(tree, p);
      }
    }
  }

  /** From bytes to scan with the real cursor: the root leaf's own page, the file's page or the inline page. */
  method ScanStoredLeaf(b: Bucket, ns: seq<INode>, p: PageView) returns (es: seq<Entry>)
    requires b.root == 0 ==> b.rootNode.None? && b.inlinePage == Some(p)
    requires b.root != 0 ==> b.root !in b.nodes && (b.root in b.dirty || b.root in b.mapped)
    requires b.root != 0 ==> p == if b.root in b.dirty then b.dirty[b.root] else b.mapped[b.root]
    requires Encode(true, ns) <= p.data && Size(ns) < 0x1_0000_0000 && p.count == |ns| <= 0xffff && p.flags / 2 % 2 == 1
    ensures |es| == |ns|
    ensures forall i :: 0 <= i < |ns| ==>
      es[i].flags == ns[i].flags && es[i].key == ns[i].key && es[i].value == ns[i].value
  {
    StoredLeafScans(b, ns, p);
    var c := new Cursor(b, Leaf(Entries(ns)));
    es := c.ScanAll();
  }
}
