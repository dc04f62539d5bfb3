/**
The cursor's stack as a path through the tree (bolt/cursor.h, `stack_`): how pushes, truncations and
index changes at its end act on the path that starts at the root.
 */
module Stacks {
  import opened Slices
  import opened Pages
  import opened NodeCodec
  import opened Trees
  import Ordered
  import Strays
  import Seeking
  import Backward
  import opened Buckets
  import opened Searches

  datatype ElemRef = ElemRef(ref: Ref, index: int)

  function Indices(s: seq<ElemRef>): (p: Path)
    ensures |p| == |s| && forall i :: 0 <= i < |s| ==> p[i] == s[i].index
  {
    seq(|s|, i requires 0 <= i < |s| => s[i].index)
  }

  /** Each stack element is the vertex that its parent's index selects; the last index is free. */
  predicate Held(b: Bucket, id: U64, t: Tree, s: seq<ElemRef>)
    decreases t
  {
    && |s| > 0 && PageNode(b, id) == Some(s[0].ref)
    && (|s| > 1 ==>
        && t.Branch? && 0 <= s[0].index < |t.kids| && HasChild(s[0].ref, s[0].index)
        && Held(b, ChildId(s[0].ref, s[0].index), t.kids[s[0].index], s[1..]))
  }

  /** A path that may end above the leaves. */
  predicate Partial(t: Tree, p: Path)
    decreases t
  {
    |p| > 0 && (|p| > 1 ==> t.Branch? && 0 <= p[0] < |t.kids| && Partial(t.kids[p[0]], p[1..]))
  }

  /** The vertex whose index is the last of the path. */
  function Top(t: Tree, p: Path): Tree
    requires Partial(t, p)
    decreases t
  {
    if |p| == 1 then t else Top(t.kids[p[0]], p[1..])
  }

  function Width(t: Tree): int {
    match t
    case Leaf(es) => |es|
    case Branch(_, kids) => |kids|
  }

  lemma {:induction false} TopWellFormed(t: Tree, p: Path)
    requires WellFormed(t) && Partial(t, p)
    ensures WellFormed(Top(t, p))
    decreases t
  {
    if |p| > 1 {
      TopWellFormed(t.kids[p[0]], p[1..]);
    }
  }

  lemma {:induction false} IndicesTail(s: seq<ElemRef>)
    requires |s| > 0
    ensures Indices(s)[1..] == Indices(s[1..])
  {
  }

  lemma {:induction false} PushThenAppend(base: seq<ElemRef>, e: ElemRef, rest: seq<ElemRef>)
    ensures base + [e] + rest == base + ([e] + rest)
  {
  }

  lemma {:induction false} IndicesPush(s: seq<ElemRef>, e: ElemRef)
    ensures Indices(s + [e]) == Indices(s) + [e.index]
  {
  }

  /** A held stack is a path, and its last element is the vertex on top. */
  lemma {:induction false} HeldTop(b: Bucket, id: U64, t: Tree, s: seq<ElemRef>) returns (top: U64)
    requires Represents(b, id, t) && Held(b, id, t, s)
    ensures Partial(t, Indices(s))
    ensures Represents(b, top, Top(t, Indices(s))) && PageNode(b, top).value == s[|s| - 1].ref
    decreases t
  {
    if |s| == 1 {
      top := id;
    } else {
      IndicesTail(s);
      top := HeldTop(b, ChildId(s[0].ref, s[0].index), t.kids[s[0].index], s[1..]);
    }
  }

  /** What a vertex's reference reports about it. */
  lemma {:induction false} RefReports(b: Bucket, id: U64, t: Tree)
    requires Represents(b, id, t)
    ensures var r := PageNode(b, id).value; IsLeaf(r) == t.Leaf? && Count(r) == Width(t)
  {
  }

  /** The entry under a held stack is inode `index` of the node on top, or element `index` of the page. */
  lemma {:induction false} EntryOnTop(b: Bucket, id: U64, t: Tree, s: seq<ElemRef>)
    requires Represents(b, id, t) && Held(b, id, t, s) && OnTree(t, Indices(s))
    ensures var e, i := Current(t, Indices(s)), s[|s| - 1].index;
      match s[|s| - 1].ref
      case OfNode(n) =>
        && (e.Some? <==> 0 <= i < |n.inodes|)
        && (e.Some? ==> e.value.flags == n.inodes[i].flags
                        && e.value.key == n.inodes[i].key && e.value.value == n.inodes[i].value)
      case OfPage(p) =>
        && (e.Some? <==> 0 <= i < p.count)
        && (e.Some? ==> LeafReadable(p, i) && e.value.flags == LeafElementAt(p, i).flags
                        && e.value.key == LeafKey(p, i) && e.value.value == LeafValue(p, i))
  {
    var p := Indices(s);
    OnTreeIsPartial(t, p);
    CurrentByIndex(t, p);
    var top := HeldTop(b, id, t, s);
    match s[|s| - 1].ref
    case OfNode(n) => NodeLeafMeans(b, top, n, LeafAt(t, p));
    case OfPage(q) => PageLeafMeans(b, top, q, LeafAt(t, p));
  }

  /** Pushing the selected child keeps the stack held. */
  lemma {:induction false} HeldPush(b: Bucket, id: U64, t: Tree, s: seq<ElemRef>, e: ElemRef)
    requires Held(b, id, t, s) && Partial(t, Indices(s))
    requires var v, i := Top(t, Indices(s)), s[|s| - 1].index;
      v.Branch? && 0 <= i < |v.kids| && HasChild(s[|s| - 1].ref, i)
      && PageNode(b, ChildId(s[|s| - 1].ref, i)) == Some(e.ref)
    ensures Held(b, id, t, s + [e])
    decreases t
  {
    if |s| == 1 {
      assert (s + [e])[1..] == [e];
    } else {
      IndicesTail(s);
      assert (s + [e])[1..] == s[1..] + [e];
      HeldPush(b, ChildId(s[0].ref, s[0].index), t.kids[s[0].index], s[1..], e);
    }
  }

  /** The stack cut at level d with a new index there. */
  function CutAt(s: seq<ElemRef>, d: nat, j: int): seq<ElemRef>
    requires d < |s|
  {
    s[..d] + [ElemRef(s[d].ref, j)]
  }

  lemma {:induction false} IndicesCut(s: seq<ElemRef>, d: nat, j: int)
    requires d < |s|
    ensures Indices(CutAt(s, d, j)) == Indices(s)[..d] + [j]
  {
  }

  /** Cutting the stack and giving its new last element any index keeps it held. */
  lemma {:induction false} HeldCut(b: Bucket, id: U64, t: Tree, s: seq<ElemRef>, n: nat, j: int)
    requires Held(b, id, t, s) && n < |s|
    ensures Held(b, id, t, CutAt(s, n, j))
    decreases t
  {
    if n > 0 {
      HeldCut(b, ChildId(s[0].ref, s[0].index), t.kids[s[0].index], s[1..], n - 1, j);
      assert CutAt(s, n, j)[1..] == CutAt(s[1..], n - 1, j);
    }
  }

  // ---- descents ----

  function Edge(t: Tree, left: bool): Path
    requires WellFormed(t)
  {
    if left then Leftmost(t) else Rightmost(t)
  }

  function EdgeIndex(t: Tree, left: bool): int {
    if left then 0 else Width(t) - 1
  }

  predicate TopInRange(t: Tree, p: Path)
    requires Partial(t, p)
  {
    Top(t, p).Branch? ==> 0 <= p[|p| - 1] < |Top(t, p).kids|
  }

  /** The path continued down to a leaf along one edge of the selected child. */
  function Complete(t: Tree, p: Path, left: bool): Path
    requires WellFormed(t) && Partial(t, p) && TopInRange(t, p)
  {
    TopWellFormed(t, p);
    var v := Top(t, p);
    if v.Leaf? then p else p + Edge(v.kids[p[|p| - 1]], left)
  }

  lemma {:induction false} PushTop(t: Tree, p: Path, j: int)
    requires Partial(t, p) && Top(t, p).Branch? && 0 <= p[|p| - 1] < |Top(t, p).kids|
    ensures Partial(t, p + [j]) && Top(t, p + [j]) == Top(t, p).kids[p[|p| - 1]]
    decreases t
  {
    if |p| == 1 {
      assert (p + [j])[1..] == [j];
    } else {
      assert (p + [j])[1..] == p[1..] + [j];
      PushTop(t.kids[p[0]], p[1..], j);
    }
  }

  lemma {:induction false} EdgeUnfolds(v: Tree, left: bool)
    requires WellFormed(v)
    ensures v.Branch? ==> 0 <= EdgeIndex(v, left) < |v.kids|
    ensures Edge(v, left) ==
      [EdgeIndex(v, left)] + if v.Leaf? then [] else Edge(v.kids[EdgeIndex(v, left)], left)
  {
    if left {
    } else {
    }
  }

  lemma {:induction false} PushIsPrefix(p: Path, j: int, rest: Path, whole: Path)
    requires whole == [j] + rest
    ensures (p + [j]) + rest == p + whole && (p + [j])[|p|] == j
  {
  }

  /** One turn of a descent loop: pushing the edge index continues the same completion. */
  lemma {:induction false} DescendStep(t: Tree, p: Path, left: bool)
    requires WellFormed(t) && Partial(t, p) && TopInRange(t, p) && Top(t, p).Branch?
    ensures var v := Top(t, p).kids[p[|p| - 1]];
      var q := p + [EdgeIndex(v, left)];
      Partial(t, q) && Top(t, q) == v && TopInRange(t, q) && Complete(t, q, left) == Complete(t, p, left)
  {
    TopWellFormed(t, p);
    var v := Top(t, p).kids[p[|p| - 1]];
    var j := EdgeIndex(v, left);
    PushTop(t, p, j);
    EdgeUnfolds(v, left);
    var rest := if v.Leaf? then [] else Edge(v.kids[j], left);
    PushIsPrefix(p, j, rest, Edge(v, left));
  }

  /** The completion one level down. */
  lemma {:induction false} CompleteBelow(t: Tree, i: int, q: Path, left: bool)
    requires WellFormed(t) && t.Branch? && 0 <= i < |t.kids|
    requires Partial(t.kids[i], q) && TopInRange(t.kids[i], q)
    ensures Partial(t, [i] + q) && TopInRange(t, [i] + q)
    ensures Complete(t, [i] + q, left) == [i] + Complete(t.kids[i], q, left)
  {
    var p := [i] + q;
    assert p[1..] == q;
    TopWellFormed(t.kids[i], q);
    var v := Top(t.kids[i], q);
    if v.Branch? {
      assert p + Edge(v.kids[q[|q| - 1]], left) == [i] + (q + Edge(v.kids[q[|q| - 1]], left));
    }
  }

  // ---- the level that a move changes ----

  lemma {:induction false} OnTreeIsPartial(t: Tree, p: Path)
    requires OnTree(t, p)
    ensures Partial(t, p) && Top(t, p) == Leaf(LeafAt(t, p)) && TopInRange(t, p)
    decreases t
  {
    match t
    case Leaf(_) =>
    case Branch(_, kids) => OnTreeIsPartial(kids[p[0]], p[1..]);
  }

  lemma {:induction false} CurrentByIndex(t: Tree, p: Path)
    requires OnTree(t, p)
    ensures var es, i := LeafAt(t, p), p[|p| - 1];
      && (es == [] || 0 <= i <= |es|)
      && Current(t, p) == if es == [] || i >= |es| then None else Some(es[i])
    decreases t
  {
    match t
    case Leaf(_) =>
    case Branch(_, kids) => CurrentByIndex(kids[p[0]], p[1..]);
  }

  /** Number of elements of the vertex at level j of the path. */
  function WidthAt(t: Tree, p: Path, j: nat): int
    requires OnTree(t, p) && j < |p|
    decreases t
  {
    if j == 0 then Width(t) else WidthAt(t.kids[p[0]], p[1..], j - 1)
  }

  /** Level j is at its last index, or past it. */
  predicate FullAt(t: Tree, p: Path, j: nat)
    requires OnTree(t, p) && j < |p|
  {
    p[j] >= WidthAt(t, p, j) - 1
  }

  lemma {:induction false} CountIsWidth(b: Bucket, id: U64, t: Tree, s: seq<ElemRef>, j: nat)
    requires Represents(b, id, t) && Held(b, id, t, s) && OnTree(t, Indices(s)) && j < |s|
    ensures Count(s[j].ref) == WidthAt(t, Indices(s), j)
    decreases t
  {
    RefReports(b, id, t);
    if j > 0 {
      IndicesTail(s);
      CountIsWidth(b, ChildId(s[0].ref, s[0].index), t.kids[s[0].index], s[1..], j - 1);
    }
  }

  lemma {:induction false} NoRoomRight(t: Tree, p: Path)
    requires WellFormed(t) && OnTree(t, p)
    requires forall j :: 0 <= j < |p| ==> FullAt(t, p, j)
    ensures Bump(t, p).None?
    decreases t
  {
    assert FullAt(t, p, 0);
    match t
    case Leaf(_) =>
    case Branch(_, kids) =>
      var r := p[1..];
      forall j | 0 <= j < |r|
        ensures FullAt(kids[p[0]], r, j)
      {
        assert FullAt(t, p, j + 1);
      }
      NoRoomRight(kids[p[0]], r);
  }

  /** Bumping the deepest level that has room, and descending from there, is one step to the right. */
  lemma {:induction false} BumpAtLevel(t: Tree, p: Path, d: nat)
    requires WellFormed(t) && OnTree(t, p) && d < |p| && !FullAt(t, p, d)
    requires forall j :: d < j < |p| ==> FullAt(t, p, j)
    ensures var q := p[..d] + [p[d] + 1];
      Partial(t, q) && TopInRange(t, q) && Bump(t, p) == Some(Complete(t, q, true))
    decreases t
  {
    var q := p[..d] + [p[d] + 1];
    match t
    case Leaf(_) => assert q == [p[0] + 1];
    case Branch(_, kids) =>
      var i, r := p[0], p[1..];
      FullBelow(t, p, d);
      if d == 0 {
        NoRoomRight(kids[i], r);
        BumpRoot(t, p);
      } else {
        BumpAtLevel(kids[i], r, d - 1);
        var q' := r[..d - 1] + [r[d - 1] + 1];
        ChangeBelow(p, d, p[d] + 1);
        CompleteBelow(t, i, q', true);
      }
  }

  lemma {:induction false} FullBelow(t: Tree, p: Path, d: nat)
    requires OnTree(t, p) && t.Branch? && d < |p| && forall j :: d < j < |p| ==> FullAt(t, p, j)
    ensures forall j :: d <= j < |p| - 1 ==> FullAt(t.kids[p[0]], p[1..], j)
    ensures d > 0 ==> FullAt(t, p, d) == FullAt(t.kids[p[0]], p[1..], d - 1)
  {
    forall j | d <= j < |p| - 1
      ensures FullAt(t.kids[p[0]], p[1..], j)
    {
      assert FullAt(t, p, j + 1);
    }
  }

  lemma {:induction false} BumpRoot(t: Tree, p: Path)
    requires WellFormed(t) && OnTree(t, p) && t.Branch? && p[0] + 1 < |t.kids| && Bump(t.kids[p[0]], p[1..]).None?
    ensures var q := p[..0] + [p[0] + 1];
      Partial(t, q) && TopInRange(t, q) && Bump(t, p) == Some(Complete(t, q, true))
  {
    assert p[..0] + [p[0] + 1] == [p[0] + 1];
  }

  /** Changing an index below the root changes the path below the root. */
  lemma {:induction false} ChangeBelow(p: Path, d: nat, x: int)
    requires 0 < d < |p|
    ensures p[..d] + [x] == [p[0]] + (p[1..][..d - 1] + [x]) && p[1..][d - 1] == p[d]
  {
    assert p[..d] == [p[0]] + p[1..][..d - 1];
  }

  lemma {:induction false} NoRoomLeft(t: Tree, p: Path)
    requires WellFormed(t) && OnTree(t, p)
    requires forall j :: 0 <= j < |p| ==> p[j] <= 0
    ensures Backward.Prev(t, p).None?
    decreases t
  {
    match t
    case Leaf(_) =>
    case Branch(_, kids) => NoRoomLeft(kids[p[0]], p[1..]);
  }

  /** Taking the deepest positive index down by one, and descending from there, is one step to the left. */
  lemma {:induction false} PrevAtLevel(t: Tree, p: Path, d: nat)
    requires WellFormed(t) && OnTree(t, p) && d < |p| && p[d] > 0
    requires forall j :: d < j < |p| ==> p[j] <= 0
    ensures var q := p[..d] + [p[d] - 1];
      Partial(t, q) && TopInRange(t, q) && Backward.Prev(t, p) == Some(Complete(t, q, false))
    decreases t
  {
    var q := p[..d] + [p[d] - 1];
    match t
    case Leaf(_) => assert q == [p[0] - 1];
    case Branch(_, kids) =>
      var i, r := p[0], p[1..];
      if d == 0 {
        assert q == [i - 1];
        NoRoomLeft(kids[i], r);
      } else {
        PrevAtLevel(kids[i], r, d - 1);
        var q' := r[..d - 1] + [r[d - 1] - 1];
        ChangeBelow(p, d, p[d] - 1);
        CompleteBelow(t, i, q', false);
      }
  }

  // ---- moves on the stack itself ----

  /** A path from which a descent along one edge reaches exactly the position q. */
  predicate PathLeads(t: Tree, p: Path, left: bool, q: Path)
    requires WellFormed(t)
  {
    Partial(t, p) && TopInRange(t, p) && Complete(t, p, left) == q && OnTree(t, q)
  }

  /** A held stack from which a descent along one edge reaches exactly the position q. */
  predicate LeadsTo(b: Bucket, id: U64, t: Tree, s: seq<ElemRef>, left: bool, q: Path)
    requires WellFormed(t)
  {
    Held(b, id, t, s) && PathLeads(t, Indices(s), left, q)
  }

  /** The element that a descent pushes: the selected child at its first or last index. */
  function ChildElem(b: Bucket, top: ElemRef, left: bool): ElemRef
    requires top.index >= 0 && HasChild(top.ref, top.index) && PageNode(b, ChildId(top.ref, top.index)).Some?
  {
    var r := PageNode(b, ChildId(top.ref, top.index)).value;
    ElemRef(r, if left then 0 else Count(r) - 1)
  }

  lemma {:induction false} ChildOnTop(b: Bucket, id: U64, t: Tree, s: seq<ElemRef>)
    requires Represents(b, id, t) && Held(b, id, t, s) && Partial(t, Indices(s)) && TopInRange(t, Indices(s))
    requires Top(t, Indices(s)).Branch?
    ensures var top, v := s[|s| - 1], Top(t, Indices(s));
      && 0 <= top.index < |v.kids| && HasChild(top.ref, top.index)
      && Represents(b, ChildId(top.ref, top.index), v.kids[top.index])
      && forall left :: ChildElem(b, top, left).index == EdgeIndex(v.kids[top.index], left)
  {
    var top := HeldTop(b, id, t, s);
    var i := s[|s| - 1].index;
    RefReports(b, ChildId(s[|s| - 1].ref, i), Top(t, Indices(s)).kids[i]);
  }

  /** One turn of a descent loop, on the stack. */
  lemma {:induction false} PushStack(b: Bucket, id: U64, t: Tree, s: seq<ElemRef>, left: bool, q: Path)
    requires Represents(b, id, t) && WellFormed(t) && LeadsTo(b, id, t, s, left, q) && Top(t, Indices(s)).Branch?
    ensures var top := s[|s| - 1];
      && 0 <= top.index < |Top(t, Indices(s)).kids| && HasChild(top.ref, top.index)
      && PageNode(b, ChildId(top.ref, top.index)).Some?
      && LeadsTo(b, id, t, s + [ChildElem(b, top, left)], left, q)
      && Top(t, Indices(s + [ChildElem(b, top, left)])) == Top(t, Indices(s)).kids[top.index]
  {
    ChildOnTop(b, id, t, s);
    var e := ChildElem(b, s[|s| - 1], left);
    HeldPush(b, id, t, s, e);
    DescendStep(t, Indices(s), left);
    IndicesPush(s, e);
  }

  /** A fresh stack with only the root on it leads to the edge of the whole tree. */
  lemma {:induction false} RootStack(b: Bucket, id: U64, t: Tree, left: bool)
    requires Represents(b, id, t) && WellFormed(t)
    ensures Count(PageNode(b, id).value) == Width(t)
    ensures LeadsTo(b, id, t, [ElemRef(PageNode(b, id).value, EdgeIndex(t, left))], left, Edge(t, left))
  {
    RefReports(b, id, t);
    var s := [ElemRef(PageNode(b, id).value, EdgeIndex(t, left))];
    EdgeOnTree(t, left);
    assert Indices(s) == [EdgeIndex(t, left)];
    RootLeads(t, left);
  }

  lemma {:induction false} RootLeads(t: Tree, left: bool)
    requires WellFormed(t) && OnTree(t, Edge(t, left))
    ensures PathLeads(t, [EdgeIndex(t, left)], left, Edge(t, left))
  {
    EdgeUnfolds(t, left);
  }

  lemma {:induction false} EdgeOnTree(t: Tree, left: bool)
    requires WellFormed(t)
    ensures OnTree(t, Edge(t, left))
  {
    LeftmostSeesAll(t);
    Backward.RightmostIsEnd(t);
  }

  lemma {:induction false} BumpByLevel(t: Tree, p: Path, d: nat)
    requires WellFormed(t) && OnTree(t, p) && d < |p| && !FullAt(t, p, d)
    requires forall j :: d < j < |p| ==> FullAt(t, p, j)
    ensures Bump(t, p).Some? && PathLeads(t, p[..d] + [p[d] + 1], true, Bump(t, p).value)
  {
    BumpAtLevel(t, p, d);
    BumpAdvances(t, p);
  }

  lemma {:induction false} PrevByLevel(t: Tree, p: Path, d: nat)
    requires WellFormed(t) && OnTree(t, p) && d < |p| && p[d] > 0
    requires forall j :: d < j < |p| ==> p[j] <= 0
    ensures Backward.Prev(t, p).Some? && PathLeads(t, p[..d] + [p[d] - 1], false, Backward.Prev(t, p).value)
  {
    PrevAtLevel(t, p, d);
    Backward.PrevOnTree(t, p);
  }

  /** Cutting a held stack at level d gives a held stack, whose path is the path cut at d. */
  lemma {:induction false} CutLeads(b: Bucket, id: U64, t: Tree, s: seq<ElemRef>, d: nat, j: int, p: Path,
                                    left: bool, q: Path)
    requires WellFormed(t) && Held(b, id, t, s) && d < |s| && p == Indices(s)[..d] + [j] && PathLeads(t, p, left, q)
    ensures LeadsTo(b, id, t, CutAt(s, d, j), left, q)
  {
    HeldCut(b, id, t, s, d, j);
    IndicesCut(s, d, j);
  }

  /** The leaf's index makes the path taken in a leaf. */
  lemma {:induction false} SearchStops(b: Bucket, id: U64, t: Tree, k: Slice, stray: Strays.Stray)
    requires Represents(b, id, t) && t.Leaf?
    ensures var r := PageNode(b, id).value;
      var tail := [ElemRef(r, LeafStop(r, id, t.entries, k, stray))];
      Held(b, id, t, tail) && Indices(tail) == PathTaken(b, id, t, k, stray)
  {
  }

  /** The path taken below the chosen child, under that choice, is the path taken. */
  lemma {:induction false} SearchExtends(b: Bucket, id: U64, t: Tree, k: Slice, stray: Strays.Stray, c: nat,
                                         rest: seq<ElemRef>)
    requires Represents(b, id, t) && t.Branch? && c < |t.kids|
    requires c == BranchPick(PageNode(b, id).value, id, t.seps, k, stray)
    requires var child := ChildId(PageNode(b, id).value, c);
      Held(b, child, t.kids[c], rest) && Indices(rest) == PathTaken(b, child, t.kids[c], k, stray)
    ensures var tail := [ElemRef(PageNode(b, id).value, c)] + rest;
      Held(b, id, t, tail) && Indices(tail) == PathTaken(b, id, t, k, stray)
  {
    var e := ElemRef(PageNode(b, id).value, c);
    ChildStands(b, id, t, c);
    HeldCons(b, id, t, e, rest);
    IndicesCons(e, rest);
    TakenLevel(b, id, t, k, stray, c, Indices(rest));
  }

  lemma {:induction false} IndicesCons(e: ElemRef, rest: seq<ElemRef>)
    ensures Indices([e] + rest) == [e.index] + Indices(rest)
  {
  }

  lemma {:induction false} HeldCons(b: Bucket, id: U64, t: Tree, e: ElemRef, rest: seq<ElemRef>)
    requires PageNode(b, id) == Some(e.ref) && t.Branch? && 0 <= e.index < |t.kids| && HasChild(e.ref, e.index)
    requires Held(b, ChildId(e.ref, e.index), t.kids[e.index], rest)
    ensures Held(b, id, t, [e] + rest)
  {
    assert ([e] + rest)[1..] == rest;
  }

  /** The indices determine a held stack. */
  lemma {:induction false} HeldByIndices(b: Bucket, id: U64, t: Tree, s: seq<ElemRef>, u: seq<ElemRef>)
    requires Held(b, id, t, s) && Held(b, id, t, u) && Indices(s) == Indices(u)
    ensures s == u
    decreases t
  {
    assert |s| == |Indices(s)| == |u|;
    assert s[0].index == Indices(s)[0] == u[0].index;
    if |s| > 1 {
      IndicesTail(s);
      IndicesTail(u);
      HeldByIndices(b, ChildId(s[0].ref, s[0].index), t.kids[s[0].index], s[1..], u[1..]);
      assert s == [s[0]] + s[1..] && u == [u[0]] + u[1..];
    } else {
      assert s == [s[0]] && u == [u[0]];
    }
  }
}
