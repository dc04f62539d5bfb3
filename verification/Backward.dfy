/**
Moving backward (bolt/cursor.cpp, `last`, `last_`, `prev`).

`Prev` is the move that the comments in `prev` describe: step back, then descend to the last entry by
`last_`. The code calls `last` there, which starts again at the root; `PrevWritten` is that code.
 */
module Backward {
  import opened Slices
  import opened NodeCodec
  import opened Trees
  import Seeking

  function LastOf(es: seq<Entry>): Option<Entry> {
    if es == [] then None else Some(es[|es| - 1])
  }

  /** Nothing lies after the rightmost position, which is on the last entry of its leaf. */
  lemma {:induction false} RightmostIsEnd(t: Tree)
    requires WellFormed(t)
    ensures OnTree(t, Rightmost(t)) && After(t, Rightmost(t)) == []
    ensures Current(t, Rightmost(t)) == LastOf(LeafAt(t, Rightmost(t)))
  {
    match t
    case Leaf(_) =>
    case Branch(_, kids) =>
      var n := |kids| - 1;
      RightmostIsEnd(kids[n]);
      assert ([n] + Rightmost(kids[n]))[1..] == Rightmost(kids[n]);
      assert kids[n + 1..] == [];
  }

  predicate EndsWith(es: seq<Entry>, l: seq<Entry>) {
    |l| <= |es| && es[|es| - |l|..] == l
  }

  /** The rightmost leaf ends the flattening. */
  lemma {:induction false} RightmostLeafIsSuffix(t: Tree)
    requires WellFormed(t)
    ensures OnTree(t, Rightmost(t)) && EndsWith(Flatten(t), LeafAt(t, Rightmost(t)))
  {
    RightmostIsEnd(t);
    match t
    case Leaf(_) =>
    case Branch(_, kids) =>
      var n := |kids| - 1;
      RightmostLeafIsSuffix(kids[n]);
      assert ([n] + Rightmost(kids[n]))[1..] == Rightmost(kids[n]);
      FlattenLast(kids);
      SuffixOfJoin(FlattenAll(kids[..n]), Flatten(kids[n]), LeafAt(kids[n], Rightmost(kids[n])));
  }

  lemma {:induction false} FlattenLast(ts: seq<Tree>)
    requires ts != []
    ensures FlattenAll(ts) == FlattenAll(ts[..|ts| - 1]) + Flatten(ts[|ts| - 1])
  {
    Seeking.FlattenAround(ts, |ts| - 1);
    assert ts[|ts|..] == [];
    assert Flatten(ts[|ts| - 1]) + FlattenAll([]) == Flatten(ts[|ts| - 1]);
  }

  lemma {:induction false} SuffixOfJoin(a: seq<Entry>, b: seq<Entry>, l: seq<Entry>)
    requires EndsWith(b, l)
    ensures EndsWith(a + b, l)
  {
  }

  /** `last` returns the final entry exactly when the rightmost leaf has one or the tree has none. */
  lemma {:induction false} LastIsFinalEntry(t: Tree)
    requires WellFormed(t)
    ensures OnTree(t, Rightmost(t))
    ensures Current(t, Rightmost(t)) == LastOf(Flatten(t)) <==>
            LeafAt(t, Rightmost(t)) != [] || Flatten(t) == []
  {
    RightmostIsEnd(t);
    RightmostLeafIsSuffix(t);
    var l, f := LeafAt(t, Rightmost(t)), Flatten(t);
    if l != [] {
      assert f[|f| - |l|..][|l| - 1] == f[|f| - 1];
    }
  }

  /** One entry in the first of two leaves, the second being empty. */
  function HalfEmpty(e: Entry, k: Slice): Tree {
    Branch([e.key, k], [Leaf([e]), Leaf([])])
  }

  lemma {:induction false} HalfEmptyOrdered(e: Entry, k: Slice)
    requires Less(e.key, k)
    ensures Seeking.KeysOrdered(HalfEmpty(e, k))
  {
    var t := HalfEmpty(e, k);
    assert Flatten(t.kids[0]) == [e] && Flatten(t.kids[1]) == [];
  }

  /** In an ordered tree an empty rightmost leaf hides the entries before it from `last`. */
  lemma {:induction false} LastMissesEntry(e: Entry, k: Slice)
    requires Less(e.key, k)
    ensures var t := HalfEmpty(e, k);
      && WellFormed(t) && Seeking.KeysOrdered(t) && OnTree(t, Rightmost(t)) && Flatten(t) == [e]
      && Current(t, Rightmost(t)) == None
  {
    HalfEmptyOrdered(e, k);
    var t := HalfEmpty(e, k);
    var kids := t.kids;
    assert Rightmost(t) == [1] + [-1];
    assert ([1] + [-1])[1..] == [-1];
    assert kids[1..] == [Leaf([])];
    assert FlattenAll([Leaf([])]) == [] + FlattenAll([]);
    assert FlattenAll(kids) == [e] + FlattenAll([Leaf([])]);
  }

  // ---- stepping back ----

  predicate NoEmptyLeaf(t: Tree) {
    match t
    case Leaf(es) => es != []
    case Branch(_, kids) => forall i :: 0 <= i < |kids| ==> NoEmptyLeaf(kids[i])
  }

  /** One step to the left: the previous index in the leaf, or else the last position of the leaf before. */
  function Prev(t: Tree, p: Path): Option<Path>
    requires WellFormed(t) && OnTree(t, p)
    decreases t
  {
    match t
    case Leaf(_) => if p[0] > 0 then Some([p[0] - 1]) else None
    case Branch(_, kids) =>
      match Prev(kids[p[0]], p[1..])
      case Some(q) => Some([p[0]] + q)
      case None => if p[0] > 0 then Some([p[0] - 1] + Rightmost(kids[p[0] - 1])) else None
  }

  lemma {:induction false} PrevOnTree(t: Tree, p: Path)
    requires WellFormed(t) && OnTree(t, p) && Prev(t, p).Some?
    ensures OnTree(t, Prev(t, p).value)
    decreases t
  {
    match t
    case Leaf(_) =>
    case Branch(_, kids) =>
      var i := p[0];
      match Prev(kids[i], p[1..])
      case Some(q) =>
        PrevOnTree(kids[i], p[1..]);
        assert ([i] + q)[1..] == q;
      case None =>
        RightmostIsEnd(kids[i - 1]);
        assert ([i - 1] + Rightmost(kids[i - 1]))[1..] == Rightmost(kids[i - 1]);
  }

  lemma {:induction false} NothingBeforeLeftmost(t: Tree)
    requires WellFormed(t)
    ensures OnTree(t, Leftmost(t)) && Prev(t, Leftmost(t)).None?
  {
    match t
    case Leaf(_) =>
    case Branch(_, kids) =>
      NothingBeforeLeftmost(kids[0]);
      assert ([0] + Leftmost(kids[0]))[1..] == Leftmost(kids[0]);
  }

  lemma {:induction false} EndIsRightmost(t: Tree, p: Path)
    requires WellFormed(t) && OnTree(t, p) && Current(t, p).Some? && Bump(t, p).None?
    ensures p == Rightmost(t)
    decreases t
  {
    match t
    case Leaf(_) =>
    case Branch(_, kids) =>
      EndIsRightmost(kids[p[0]], p[1..]);
      assert p == [p[0]] + p[1..];
  }

  lemma {:induction false} PrevUndoesBump(t: Tree, p: Path)
    requires WellFormed(t) && OnTree(t, p) && Current(t, p).Some? && Bump(t, p).Some?
    ensures OnTree(t, Bump(t, p).value) && Prev(t, Bump(t, p).value) == Some(p)
    decreases t
  {
    match t
    case Leaf(_) => assert p == [p[0]];
    case Branch(_, kids) =>
      var i, r := p[0], p[1..];
      assert p == [i] + r;
      match Bump(kids[i], r)
      case Some(q) =>
        PrevUndoesBump(kids[i], r);
        assert ([i] + q)[1..] == q;
      case None =>
        EndIsRightmost(kids[i], r);
        NothingBeforeLeftmost(kids[i + 1]);
        assert ([i + 1] + Leftmost(kids[i + 1]))[1..] == Leftmost(kids[i + 1]);
  }

  lemma {:induction false} LeafAtNotEmpty(t: Tree, p: Path)
    requires NoEmptyLeaf(t) && OnTree(t, p)
    ensures LeafAt(t, p) != []
    decreases t
  {
    match t
    case Leaf(_) =>
    case Branch(_, kids) => LeafAtNotEmpty(kids[p[0]], p[1..]);
  }

  /** Without empty leaves, stepping back after a successful `next` restores the exact position. */
  lemma {:induction false} PrevUndoesNext(t: Tree, p: Path)
    requires WellFormed(t) && NoEmptyLeaf(t) && OnTree(t, p)
    requires Current(t, p).Some? && Next(t, p).result.Some?
    ensures Prev(t, Next(t, p).path) == Some(p)
  {
    BumpAdvances(t, p);
    PrevUndoesBump(t, p);
    LeafAtNotEmpty(t, Bump(t, p).value);
  }

  // ---- the code as written ----

  /** Some index of the path is above zero. */
  predicate AnyPositive(p: Path) {
    exists i :: 0 <= i < |p| && p[i] > 0
  }

  /** Position after the written `prev`: the last position if any index is above zero, else an empty stack. */
  function PrevWritten(t: Tree, p: Path): Option<Path>
    requires WellFormed(t)
  {
    if AnyPositive(p) then Some(Rightmost(t)) else None
  }

  lemma {:induction false} PrevExists(t: Tree, p: Path)
    requires WellFormed(t) && OnTree(t, p)
    ensures Prev(t, p).Some? <==> AnyPositive(p)
    decreases t
  {
    match t
    case Leaf(_) =>
    case Branch(_, kids) =>
      var r := p[1..];
      PrevExists(kids[p[0]], r);
      assert forall i :: 0 <= i < |r| ==> r[i] == p[i + 1];
      assert forall i :: 1 <= i < |p| ==> p[i] == r[i - 1];
  }

  /** One past the last entry of the rightmost leaf, where only a seek beyond every key leaves the cursor. */
  function PastEnd(t: Tree): Path
    requires WellFormed(t)
  {
    match t
    case Leaf(es) => [|es|]
    case Branch(_, kids) => [|kids| - 1] + PastEnd(kids[|kids| - 1])
  }

  lemma {:induction false} SamePath(i: int, p: Path, j: int, q: Path)
    ensures [i] + p == [j] + q <==> i == j && p == q
  {
    assert ([i] + p)[0] == i && ([i] + p)[1..] == p;
    assert ([j] + q)[0] == j && ([j] + q)[1..] == q;
  }

  lemma {:induction false} OnlyPastEndPrecedesRightmost(t: Tree, p: Path)
    requires WellFormed(t) && OnTree(t, p)
    ensures Prev(t, p) == Some(Rightmost(t)) <==> p == PastEnd(t) && LeafAt(t, p) != []
    decreases t
  {
    match t
    case Leaf(_) =>
    case Branch(_, kids) =>
      var i, r, n := p[0], p[1..], |kids| - 1;
      assert p == [i] + r;
      OnlyPastEndPrecedesRightmost(kids[i], r);
      SamePath(i, r, n, PastEnd(kids[n]));
      match Prev(kids[i], r)
      case Some(q) => SamePath(i, q, n, Rightmost(kids[n]));
      case None =>
        if i > 0 {
          SamePath(i - 1, Rightmost(kids[i - 1]), n, Rightmost(kids[n]));
        }
  }

  /**
  The written `prev` agrees with the intended one exactly at the very first position and one past the
  last entry of a rightmost leaf that has one; from every other position it jumps to the rightmost leaf.
   */
  lemma {:induction false} PrevWrittenIsRightWhen(t: Tree, p: Path)
    requires WellFormed(t) && OnTree(t, p)
    ensures PrevWritten(t, p) == Prev(t, p) <==>
            (forall i :: 0 <= i < |p| ==> p[i] <= 0) || (p == PastEnd(t) && LeafAt(t, p) != [])
  {
    PrevExists(t, p);
    OnlyPastEndPrecedesRightmost(t, p);
  }

  /** In a leaf of three entries the written `prev` goes from the second entry to the third. */
  lemma {:induction false} PrevWrittenGoesForward(a: Entry, b: Entry, c: Entry)
    ensures var t := Leaf([a, b, c]);
      OnTree(t, [1]) && Prev(t, [1]) == Some([0]) && PrevWritten(t, [1]) == Some([2])
  {
    assert [1][0] > 0;
  }

  // ---- scanning backward as written ----

  /** Position after n calls of the written `prev`; on an empty stack it does nothing. */
  function PrevTimes(t: Tree, p: Path, n: nat): Option<Path>
    requires WellFormed(t)
  {
    if n == 0 then Some(p)
    else match PrevTimes(t, p, n - 1)
      case None => None
      case Some(q) => PrevWritten(t, q)
  }

  lemma {:induction false} AnyPositiveCons(i: int, p: Path)
    ensures AnyPositive([i] + p) <==> i > 0 || AnyPositive(p)
  {
    var q := [i] + p;
    assert q[0] == i && forall j :: 0 <= j < |p| ==> q[j + 1] == p[j];
    assert forall j :: 1 <= j < |q| ==> q[j] == p[j - 1];
  }

  lemma {:induction false} ManyLeaves(ts: seq<Tree>)
    requires forall i :: 0 <= i < |ts| ==> WellFormed(ts[i])
    ensures LeafCountAll(ts) >= |ts|
  {
    if ts != [] {
      ManyLeaves(ts[1..]);
    }
  }

  lemma {:induction false} RightmostPositiveWhen(t: Tree)
    requires WellFormed(t)
    ensures AnyPositive(Rightmost(t)) <==> LeafCount(t) > 1 || |Flatten(t)| > 1
  {
    match t
    case Leaf(es) => assert Rightmost(t)[0] == |es| - 1;
    case Branch(_, kids) =>
      var n := |kids| - 1;
      RightmostPositiveWhen(kids[n]);
      AnyPositiveCons(n, Rightmost(kids[n]));
      ManyLeaves(kids);
      if n == 0 {
        assert kids[1..] == [];
        assert FlattenAll(kids) == Flatten(kids[0]) + FlattenAll(kids[1..]);
      }
  }

  /**
  `last` and then the written `prev`, any number of times, stays on the last position, unless the tree
  is a single leaf with at most one entry; there the first `prev` empties the stack.
   */
  lemma {:induction false} WrittenPrevRepeats(t: Tree, n: nat)
    requires WellFormed(t)
    ensures PrevTimes(t, Rightmost(t), n) ==
      if n == 0 || LeafCount(t) > 1 || |Flatten(t)| > 1 then Some(Rightmost(t)) else None
  {
    RightmostPositiveWhen(t);
    if n > 0 {
      WrittenPrevRepeats(t, n - 1);
    }
  }

  // ---- scanning backward ----

  /** The leaves from left to right. */
  function Leaves(t: Tree): seq<seq<Entry>>
    decreases t, 1
  {
    match t
    case Leaf(es) => [es]
    case Branch(_, kids) => LeavesAll(kids)
  }

  function LeavesAll(ts: seq<Tree>): seq<seq<Entry>>
    decreases ts, 0
  {
    if ts == [] then [] else LeavesAll(ts[..|ts| - 1]) + Leaves(ts[|ts| - 1])
  }

  /** The leaves left of the cursor's leaf. */
  function LeavesBefore(t: Tree, p: Path): seq<seq<Entry>>
    requires OnTree(t, p)
    decreases t
  {
    match t
    case Leaf(_) => []
    case Branch(_, kids) => LeavesAll(kids[..p[0]]) + LeavesBefore(kids[p[0]], p[1..])
  }

  function LastIndex(p: Path): int {
    if p == [] then -1 else p[|p| - 1]
  }

  lemma {:induction false} LeavesAllUpTo(ts: seq<Tree>, i: nat)
    requires i < |ts|
    ensures LeavesAll(ts[..i + 1]) == LeavesAll(ts[..i]) + Leaves(ts[i])
  {
    assert ts[..i + 1][..i] == ts[..i];
  }

  /** The rightmost position is at the end of the last leaf. */
  lemma {:induction false} RightmostLeaves(t: Tree)
    requires WellFormed(t)
    ensures var q := Rightmost(t);
      OnTree(t, q) && Leaves(t) == LeavesBefore(t, q) + [LeafAt(t, q)] && LastIndex(q) == |LeafAt(t, q)| - 1
  {
    match t
    case Leaf(_) =>
    case Branch(_, kids) =>
      var n := |kids| - 1;
      RightmostLeaves(kids[n]);
      RightmostBelow(t, n, Rightmost(kids[n]));
      assert kids[..n + 1] == kids;
  }

  /** A child's rightmost position, seen from its parent. */
  lemma {:induction false} RightmostBelow(t: Tree, i: nat, r: Path)
    requires t.Branch? && i < |t.kids| && OnTree(t.kids[i], r)
    requires Leaves(t.kids[i]) == LeavesBefore(t.kids[i], r) + [LeafAt(t.kids[i], r)]
    ensures var q := [i] + r;
      && OnTree(t, q) && LeafAt(t, q) == LeafAt(t.kids[i], r) && LastIndex(q) == LastIndex(r)
      && LeavesAll(t.kids[..i + 1]) == LeavesBefore(t, q) + [LeafAt(t, q)]
  {
    var q := [i] + r;
    assert q[1..] == r;
    LeavesAllUpTo(t.kids, i);
    JoinGroups(LeavesAll(t.kids[..i]), LeavesBefore(t.kids[i], r), LeafAt(t, q));
  }

  lemma {:induction false} JoinGroups(a: seq<seq<Entry>>, b: seq<seq<Entry>>, l: seq<Entry>)
    ensures a + (b + [l]) == (a + b) + [l]
  {
  }

  lemma {:induction false} PrevInLeaf(t: Tree, p: Path)
    requires WellFormed(t) && OnTree(t, p) && LastIndex(p) > 0
    ensures Prev(t, p).Some?
    ensures var q := Prev(t, p).value;
      OnTree(t, q) && LeafAt(t, q) == LeafAt(t, p) && LeavesBefore(t, q) == LeavesBefore(t, p)
      && LastIndex(q) == LastIndex(p) - 1
    decreases t
  {
    match t
    case Leaf(_) =>
    case Branch(_, kids) =>
      PrevInLeaf(kids[p[0]], p[1..]);
      var r := Prev(kids[p[0]], p[1..]).value;
      assert ([p[0]] + r)[1..] == r;
  }

  /** From the front of a leaf, stepping back leads to the end of the leaf before it, if there is one. */
  lemma {:induction false} PrevToLeaf(t: Tree, p: Path)
    requires WellFormed(t) && OnTree(t, p) && LastIndex(p) <= 0
    ensures Prev(t, p).None? ==> LeavesBefore(t, p) == []
    ensures Prev(t, p).Some? ==> var q := Prev(t, p).value;
      && OnTree(t, q) && LeavesBefore(t, p) == LeavesBefore(t, q) + [LeafAt(t, q)]
      && LastIndex(q) == |LeafAt(t, q)| - 1
    decreases t
  {
    match t
    case Leaf(_) =>
    case Branch(_, kids) =>
      var i, r := p[0], p[1..];
      PrevToLeaf(kids[i], r);
      match Prev(kids[i], r)
      case Some(q) =>
        assert ([i] + q)[1..] == q;
        JoinGroups(LeavesAll(kids[..i]), LeavesBefore(kids[i], q), LeafAt(kids[i], q));
      case None =>
        assert LeavesBefore(t, p) == LeavesAll(kids[..i]);
        if i > 0 {
          RightmostLeaves(kids[i - 1]);
          RightmostBelow(t, i - 1, Rightmost(kids[i - 1]));
        }
  }

  /** The entries of the leaves behind the last empty one. */
  function Tail(ls: seq<seq<Entry>>): seq<Entry> {
    if ls == [] || ls[|ls| - 1] == [] then [] else Tail(ls[..|ls| - 1]) + ls[|ls| - 1]
  }

  function Reverse(es: seq<Entry>): (r: seq<Entry>)
    ensures |r| == |es|
  {
    if es == [] then [] else [es[|es| - 1]] + Reverse(es[..|es| - 1])
  }

  /** What intended steps back yield, the entry under the cursor first, until there is none. */
  function BackScan(t: Tree, p: Path): seq<Entry>
    requires WellFormed(t) && OnTree(t, p)
    decreases |LeavesBefore(t, p)|, if LastIndex(p) > 0 then LastIndex(p) else 0
  {
    if Current(t, p).None? then []
    else
      PrevDescends(t, p);
      match Prev(t, p)
      case None => [Current(t, p).value]
      case Some(q) => [Current(t, p).value] + BackScan(t, q)
  }

  /** A step back leaves fewer entries and leaves behind the cursor. */
  lemma {:induction false} PrevDescends(t: Tree, p: Path)
    requires WellFormed(t) && OnTree(t, p)
    ensures Prev(t, p).Some? ==> var q := Prev(t, p).value;
      && OnTree(t, q)
      && (|LeavesBefore(t, q)| < |LeavesBefore(t, p)|
          || (|LeavesBefore(t, q)| == |LeavesBefore(t, p)| && 0 <= LastIndex(q) < LastIndex(p)))
  {
    if LastIndex(p) > 0 {
      PrevInLeaf(t, p);
    } else {
      PrevToLeaf(t, p);
    }
  }

  /** One turn of the scan: the entry goes to the output and a step back brings the one before. */
  lemma {:induction false} BackScanStep(t: Tree, p: Path, out: seq<Entry>, all: seq<Entry>)
    requires WellFormed(t) && OnTree(t, p) && Current(t, p).Some? && out + BackScan(t, p) == all
    ensures Prev(t, p).None? ==> out + [Current(t, p).value] == all
    ensures Prev(t, p).Some? ==> var q := Prev(t, p).value;
      OnTree(t, q) && (out + [Current(t, p).value]) + BackScan(t, q) == all && |BackScan(t, q)| < |BackScan(t, p)|
  {
    PrevDescends(t, p);
    if Prev(t, p).Some? {
      Regroup(out, [Current(t, p).value], BackScan(t, Prev(t, p).value));
    }
  }

  /** The entries from behind the last empty leaf up to the cursor. */
  function UpTo(t: Tree, p: Path): seq<Entry>
    requires OnTree(t, p)
  {
    CurrentInLeaf(t, p);
    if Current(t, p).None? then [] else Tail(LeavesBefore(t, p)) + LeafAt(t, p)[..LastIndex(p) + 1]
  }

  function UpToPrev(t: Tree, p: Path): seq<Entry>
    requires WellFormed(t) && OnTree(t, p)
  {
    PrevDescends(t, p);
    if Prev(t, p).None? then [] else UpTo(t, Prev(t, p).value)
  }

  lemma {:induction false} ReverseLast(a: seq<Entry>, x: Entry)
    ensures Reverse(a + [x]) == [x] + Reverse(a)
  {
    assert (a + [x])[..|a|] == a;
  }

  lemma {:induction false} UpToFront(t: Tree, p: Path)
    requires WellFormed(t) && OnTree(t, p) && LastIndex(p) == 0
    ensures UpToPrev(t, p) == Tail(LeavesBefore(t, p))
  {
    PrevToLeaf(t, p);
    if Prev(t, p).Some? {
      UpToEnd(t, Prev(t, p).value);
    }
  }

  lemma {:induction false} UpToEnd(t: Tree, q: Path)
    requires OnTree(t, q) && LastIndex(q) == |LeafAt(t, q)| - 1
    ensures UpTo(t, q) == Tail(LeavesBefore(t, q) + [LeafAt(t, q)])
  {
    var m := LeafAt(t, q);
    CurrentInLeaf(t, q);
    TailLast(LeavesBefore(t, q), m);
    assert m[..|m|] == m;
  }

  lemma {:induction false} UpToInside(t: Tree, p: Path)
    requires WellFormed(t) && OnTree(t, p) && Current(t, p).Some? && LastIndex(p) > 0
    ensures 0 <= LastIndex(p) <= |LeafAt(t, p)|
    ensures UpToPrev(t, p) == Tail(LeavesBefore(t, p)) + LeafAt(t, p)[..LastIndex(p)]
  {
    CurrentInLeaf(t, p);
    PrevInLeaf(t, p);
    CurrentInLeaf(t, Prev(t, p).value);
  }

  /** One step of the scan takes the last entry away. */
  lemma {:induction false} UpToStep(t: Tree, p: Path)
    requires WellFormed(t) && OnTree(t, p) && Current(t, p).Some?
    ensures UpTo(t, p) == UpToPrev(t, p) + [Current(t, p).value]
  {
    CurrentInLeaf(t, p);
    TakeOneMore(Tail(LeavesBefore(t, p)), LeafAt(t, p), LastIndex(p));
    if LastIndex(p) > 0 {
      UpToInside(t, p);
    } else {
      UpToFront(t, p);
    }
  }

  lemma {:induction false} TakeOneMore(a: seq<Entry>, l: seq<Entry>, i: nat)
    requires i < |l|
    ensures a + l[..i + 1] == (a + l[..i]) + [l[i]]
    ensures i == 0 ==> a + l[..i] == a
  {
  }

  lemma {:induction false} TailLast(ls: seq<seq<Entry>>, l: seq<Entry>)
    ensures Tail(ls + [l]) == if l == [] then [] else Tail(ls) + l
  {
    assert (ls + [l])[..|ls|] == ls;
  }

  lemma {:induction false} BackScanReverses(t: Tree, p: Path)
    requires WellFormed(t) && OnTree(t, p)
    ensures BackScan(t, p) == Reverse(UpTo(t, p))
    decreases |LeavesBefore(t, p)|, if LastIndex(p) > 0 then LastIndex(p) else 0
  {
    if Current(t, p).Some? {
      PrevDescends(t, p);
      UpToStep(t, p);
      ReverseLast(UpToPrev(t, p), Current(t, p).value);
      if Prev(t, p).Some? {
        BackScanReverses(t, Prev(t, p).value);
      }
    }
  }

  /** `last` and then intended steps back yield, in reverse, the entries behind the last empty leaf. */
  lemma {:induction false} ScanBackIsTail(t: Tree)
    requires WellFormed(t)
    ensures OnTree(t, Rightmost(t)) && BackScan(t, Rightmost(t)) == Reverse(Tail(Leaves(t)))
  {
    RightmostLeaves(t);
    var q := Rightmost(t);
    var l := LeafAt(t, q);
    CurrentInLeaf(t, q);
    TailLast(LeavesBefore(t, q), l);
    BackScanReverses(t, q);
    assert l[..|l|] == l;
  }

  // ---- when nothing is missed ----

  function Concat(ls: seq<seq<Entry>>): seq<Entry> {
    if ls == [] then [] else Concat(ls[..|ls| - 1]) + ls[|ls| - 1]
  }

  lemma {:induction false} ConcatJoins(a: seq<seq<Entry>>, b: seq<seq<Entry>>)
    ensures Concat(a + b) == Concat(a) + Concat(b)
  {
    if b == [] {
      assert a + b == a;
    } else {
      var n := |b| - 1;
      assert (a + b)[..|a| + n] == a + b[..n];
      ConcatJoins(a, b[..n]);
      Regroup(Concat(a), Concat(b[..n]), b[n]);
    }
  }

  lemma {:induction false} LeavesFlatten(t: Tree)
    ensures Concat(Leaves(t)) == Flatten(t)
    decreases t, 1
  {
    match t
    case Leaf(es) => assert [es][..0] == [];
    case Branch(_, kids) => LeavesAllFlatten(kids);
  }

  lemma {:induction false} LeavesAllFlatten(ts: seq<Tree>)
    ensures Concat(LeavesAll(ts)) == FlattenAll(ts)
    decreases ts, 0
  {
    if ts != [] {
      var n := |ts| - 1;
      LeavesAllFlatten(ts[..n]);
      LeavesFlatten(ts[n]);
      ConcatJoins(LeavesAll(ts[..n]), Leaves(ts[n]));
      FlattenLast(ts);
    }
  }

  /** No leaf with entries lies left of an empty one. */
  predicate NoGap(ls: seq<seq<Entry>>) {
    forall i, j :: 0 <= i < j < |ls| && ls[j] == [] ==> ls[i] == []
  }

  lemma {:induction false} ConcatEmptyWhen(ls: seq<seq<Entry>>)
    ensures Concat(ls) == [] <==> forall i :: 0 <= i < |ls| ==> ls[i] == []
  {
    if ls != [] {
      var n := |ls| - 1;
      ConcatEmptyWhen(ls[..n]);
      assert forall i :: 0 <= i < n ==> ls[..n][i] == ls[i];
    }
  }

  lemma {:induction false} TailIsAllWhen(ls: seq<seq<Entry>>)
    ensures |Tail(ls)| <= |Concat(ls)|
    ensures Tail(ls) == Concat(ls) <==> NoGap(ls)
    ensures Tail(ls) != Concat(ls) ==> |Tail(ls)| < |Concat(ls)|
  {
    if ls != [] {
      var n := |ls| - 1;
      var a := ls[..n];
      assert forall i :: 0 <= i < n ==> a[i] == ls[i];
      if ls[n] == [] {
        ConcatEmptyWhen(a);
      } else {
        TailIsAllWhen(a);
        assert NoGap(a) <==> NoGap(ls);
      }
    }
  }

  /** The backward scan yields every entry exactly when no leaf with entries lies left of an empty one. */
  lemma {:induction false} ScanBackIsReverseWhen(t: Tree)
    requires WellFormed(t)
    ensures OnTree(t, Rightmost(t))
    ensures BackScan(t, Rightmost(t)) == Reverse(Flatten(t)) <==> NoGap(Leaves(t))
    ensures NoEmptyLeaf(t) ==> NoGap(Leaves(t))
  {
    ScanBackIsTail(t);
    LeavesFlatten(t);
    TailIsAllWhen(Leaves(t));
    if NoEmptyLeaf(t) {
      NoEmptyLeaves(t);
      assert forall j :: 0 <= j < |Leaves(t)| ==> Leaves(t)[j] in Leaves(t);
    }
  }

  /** No leaf is empty. */
  lemma {:induction false} NoEmptyLeaves(t: Tree)
    ensures NoEmptyLeaf(t) <==> [] !in Leaves(t)
    decreases t, 1
  {
    match t
    case Leaf(_) =>
    case Branch(_, kids) => NoEmptyLeavesAll(kids);
  }

  lemma {:induction false} NoEmptyLeavesAll(ts: seq<Tree>)
    ensures (forall i :: 0 <= i < |ts| ==> NoEmptyLeaf(ts[i])) <==> [] !in LeavesAll(ts)
    decreases ts, 0
  {
    if ts != [] {
      var n := |ts| - 1;
      NoEmptyLeavesAll(ts[..n]);
      NoEmptyLeaves(ts[n]);
      assert forall i :: 0 <= i < n ==> ts[..n][i] == ts[i];
      assert (forall i :: 0 <= i < |ts| ==> NoEmptyLeaf(ts[i]))
        <==> (forall i :: 0 <= i < n ==> NoEmptyLeaf(ts[..n][i])) && NoEmptyLeaf(ts[n]);
    }
  }

  lemma {:induction false} ReverseAt(es: seq<Entry>, i: nat)
    requires i < |es|
    ensures Reverse(es)[i] == es[|es| - 1 - i]
  {
    if i > 0 {
      ReverseAt(es[..|es| - 1], i - 1);
    }
  }

  /** `Reverse` lists the entries the other way round. */
  lemma {:induction false} ReverseMirrors(es: seq<Entry>)
    ensures forall i :: 0 <= i < |es| ==> Reverse(es)[i] == es[|es| - 1 - i]
  {
    forall i | 0 <= i < |es|
      ensures Reverse(es)[i] == es[|es| - 1 - i]
    {
      ReverseAt(es, i);
    }
  }
}
