/**
The tree a cursor walks and the positions it can hold (bolt/cursor.h, bolt/cursor.cpp).

A position is the list of indices on the cursor's stack, root first. Everything here is about trees
and index lists; `Cursors` shows that the stack operations compute these functions.
 */
module Trees {
  import opened Slices
  import opened NodeCodec

  /** Leaves hold entries; branches hold one separator key per child. Depth need not be even. */
  datatype Tree = Leaf(entries: seq<Entry>) | Branch(seps: seq<Slice>, kids: seq<Tree>)

  type Path = seq<int>

  /** Every branch has at least one child; leaves may be empty. */
  predicate WellFormed(t: Tree) {
    match t
    case Leaf(_) => true
    case Branch(seps, kids) =>
      |kids| > 0 && |seps| == |kids| && forall i :: 0 <= i < |kids| ==> WellFormed(kids[i])
  }

  /** All entries of the leaves, from left to right. */
  function Flatten(t: Tree): seq<Entry>
    decreases t, 1
  {
    match t
    case Leaf(es) => es
    case Branch(_, kids) => FlattenAll(kids)
  }

  function FlattenAll(ts: seq<Tree>): seq<Entry>
    decreases ts, 0
  {
    if ts == [] then [] else Flatten(ts[0]) + FlattenAll(ts[1..])
  }

  function LeafCount(t: Tree): (n: nat)
    ensures WellFormed(t) ==> n > 0
    decreases t, 1
  {
    match t
    case Leaf(_) => 1
    case Branch(_, kids) => LeafCountAll(kids)
  }

  function LeafCountAll(ts: seq<Tree>): (n: nat)
    ensures |ts| > 0 && WellFormed(ts[0]) ==> n > 0
    decreases ts, 0
  {
    if ts == [] then 0 else LeafCount(ts[0]) + LeafCountAll(ts[1..])
  }

  // ---- positions ----

  /**
  A root-to-leaf path: every branch index selects a child. The leaf index is an entry, one past the
  last entry, or -1 in an empty leaf.
   */
  predicate OnTree(t: Tree, p: Path)
    decreases t
  {
    match t
    case Leaf(es) => |p| == 1 && (0 <= p[0] <= |es| || (es == [] && p[0] == -1))
    case Branch(_, kids) => |p| > 1 && 0 <= p[0] < |kids| && OnTree(kids[p[0]], p[1..])
  }

  /** The entries of the leaf that the path ends in. */
  function LeafAt(t: Tree, p: Path): seq<Entry>
    requires OnTree(t, p)
    decreases t
  {
    match t
    case Leaf(es) => es
    case Branch(_, kids) => LeafAt(kids[p[0]], p[1..])
  }

  /** The entry under the cursor, if there is one. */
  function Current(t: Tree, p: Path): Option<Entry>
    requires OnTree(t, p)
    decreases t
  {
    match t
    case Leaf(es) => if es == [] || p[0] >= |es| then None else Some(es[p[0]])
    case Branch(_, kids) => Current(kids[p[0]], p[1..])
  }

  /** The entries strictly after the cursor, in order. */
  function After(t: Tree, p: Path): seq<Entry>
    requires OnTree(t, p)
    decreases t
  {
    match t
    case Leaf(es) => if p[0] >= |es| then [] else es[p[0] + 1..]
    case Branch(_, kids) => After(kids[p[0]], p[1..]) + FlattenAll(kids[p[0] + 1..])
  }

  /** The entries at and after the cursor, in order. */
  function From(t: Tree, p: Path): seq<Entry>
    requires OnTree(t, p)
    decreases t
  {
    match t
    case Leaf(es) => if es == [] then [] else es[p[0]..]
    case Branch(_, kids) => From(kids[p[0]], p[1..]) + FlattenAll(kids[p[0] + 1..])
  }

  /** How many leaves lie to the right of the cursor's leaf. */
  function LeavesAfter(t: Tree, p: Path): nat
    requires OnTree(t, p)
    decreases t
  {
    match t
    case Leaf(_) => 0
    case Branch(_, kids) => LeavesAfter(kids[p[0]], p[1..]) + LeafCountAll(kids[p[0] + 1..])
  }

  lemma {:induction false} FromIsCurrentThenAfter(t: Tree, p: Path)
    requires OnTree(t, p)
    ensures From(t, p) == (if Current(t, p).Some? then [Current(t, p).value] else []) + After(t, p)
    decreases t
  {
    match t
    case Leaf(es) =>
    case Branch(_, kids) =>
      FromIsCurrentThenAfter(kids[p[0]], p[1..]);
      Regroup(if Current(t, p).Some? then [Current(t, p).value] else [], After(kids[p[0]], p[1..]),
        FlattenAll(kids[p[0] + 1..]));
  }

  lemma {:induction false} Regroup(a: seq<Entry>, b: seq<Entry>, c: seq<Entry>)
    ensures (a + b) + c == a + (b + c)
  {
  }

  /** What lies at and after a position is the end of the flattening. */
  lemma {:induction false} FromIsSuffix(t: Tree, p: Path) returns (before: seq<Entry>)
    requires OnTree(t, p) && (LeafAt(t, p) != [] ==> p[|p| - 1] >= 0)
    ensures Flatten(t) == before + From(t, p)
    decreases t
  {
    match t
    case Leaf(es) =>
      before := if es == [] then [] else es[..p[0]];
    case Branch(_, kids) =>
      var i := p[0];
      var left := FromIsSuffix(kids[i], p[1..]);
      before := FlattenAll(kids[..i]) + left;
      FlattenSplit(kids, i);
      Regroup(left, From(kids[i], p[1..]), FlattenAll(kids[i + 1..]));
      Regroup(FlattenAll(kids[..i]), left, From(t, p));
  }

  lemma {:induction false} FlattenSplit(ts: seq<Tree>, i: nat)
    requires i < |ts|
    ensures FlattenAll(ts) == FlattenAll(ts[..i]) + (Flatten(ts[i]) + FlattenAll(ts[i + 1..]))
  {
    if i == 0 {
      assert ts[..0] == [];
    } else {
      FlattenSplit(ts[1..], i - 1);
      assert ts[1..][..i - 1] == ts[..i][1..] && ts[1..][i..] == ts[i + 1..];
      Regroup(Flatten(ts[0]), FlattenAll(ts[..i][1..]), Flatten(ts[i]) + FlattenAll(ts[i + 1..]));
    }
  }

  /** An empty leaf has no current entry, and a first entry always is one. */
  lemma {:induction false} CurrentInLeaf(t: Tree, p: Path)
    requires OnTree(t, p)
    ensures LeafAt(t, p) == [] ==> Current(t, p).None?
    ensures Current(t, p).Some? <==> 0 <= p[|p| - 1] < |LeafAt(t, p)|
    ensures Current(t, p).Some? ==> Current(t, p).value == LeafAt(t, p)[p[|p| - 1]]
    decreases t
  {
    match t
    case Leaf(_) =>
    case Branch(_, kids) => CurrentInLeaf(kids[p[0]], p[1..]);
  }

  // ---- descents ----

  function Leftmost(t: Tree): Path
    requires WellFormed(t)
  {
    match t
    case Leaf(_) => [0]
    case Branch(_, kids) => [0] + Leftmost(kids[0])
  }

  function Rightmost(t: Tree): Path
    requires WellFormed(t)
  {
    match t
    case Leaf(es) => [|es| - 1]
    case Branch(_, kids) => [|kids| - 1] + Rightmost(kids[|kids| - 1])
  }

  /** The leftmost position is valid and everything lies at or after it. */
  lemma {:induction false} LeftmostSeesAll(t: Tree)
    requires WellFormed(t)
    ensures OnTree(t, Leftmost(t))
    ensures From(t, Leftmost(t)) == Flatten(t)
    ensures LeavesAfter(t, Leftmost(t)) == LeafCount(t) - 1
    ensures Current(t, Leftmost(t)).Some? <==> LeafAt(t, Leftmost(t)) != []
    ensures Leftmost(t)[|Leftmost(t)| - 1] == 0
  {
    match t
    case Leaf(_) =>
    case Branch(_, kids) =>
      LeftmostSeesAll(kids[0]);
      assert ([0] + Leftmost(kids[0]))[1..] == Leftmost(kids[0]);
  }

  // ---- moving forward ----

  /**
  One step to the right, ignoring whether the leaf reached is empty: the next index in the same leaf,
  or else the first position of the next leaf.
   */
  function Bump(t: Tree, p: Path): Option<Path>
    requires WellFormed(t) && OnTree(t, p)
    decreases t
  {
    match t
    case Leaf(es) => if p[0] < |es| - 1 then Some([p[0] + 1]) else None
    case Branch(_, kids) =>
      match Bump(kids[p[0]], p[1..])
      case Some(q) => Some([p[0]] + q)
      case None => if p[0] < |kids| - 1 then Some([p[0] + 1] + Leftmost(kids[p[0] + 1])) else None
  }

  /** q is one step to the right of p: no entry is lost or skipped, and empty leaves use up leaves. */
  predicate StepsTo(t: Tree, p: Path, q: Path)
    requires OnTree(t, p)
  {
    && OnTree(t, q)
    && From(t, q) == After(t, p)
    && (Current(t, q).Some? <==> LeafAt(t, q) != [])
    && (LeafAt(t, q) == [] ==> q[|q| - 1] == 0 && LeavesAfter(t, q) < LeavesAfter(t, p))
  }

  /** A step loses no entry and skips none; it fails only where no entry and no leaf is left. */
  lemma {:induction false} BumpAdvances(t: Tree, p: Path)
    requires WellFormed(t) && OnTree(t, p)
    ensures Bump(t, p).None? ==> After(t, p) == [] && LeavesAfter(t, p) == 0
    ensures Bump(t, p).Some? ==> StepsTo(t, p, Bump(t, p).value)
    decreases t
  {
    match t
    case Leaf(es) => StepInLeaf(es, p);
    case Branch(_, kids) =>
      BumpAdvances(kids[p[0]], p[1..]);
      BumpInBranch(t, p);
  }

  lemma {:induction false} BumpInBranch(t: Tree, p: Path)
    requires t.Branch? && WellFormed(t) && OnTree(t, p)
    requires var kid, r := t.kids[p[0]], p[1..];
      && (Bump(kid, r).None? ==> After(kid, r) == [] && LeavesAfter(kid, r) == 0)
      && (Bump(kid, r).Some? ==> StepsTo(kid, r, Bump(kid, r).value))
    ensures Bump(t, p).None? ==> After(t, p) == [] && LeavesAfter(t, p) == 0
    ensures Bump(t, p).Some? ==> StepsTo(t, p, Bump(t, p).value)
  {
    var i, kids := p[0], t.kids;
    match Bump(kids[i], p[1..])
    case Some(q) =>
      StepInChild(t, p, q);
    case None =>
      if i < |kids| - 1 {
        StepToSibling(t, p);
      } else {
        StepAtEnd(t, p);
      }
  }

  lemma {:induction false} StepAtEnd(t: Tree, p: Path)
    requires t.Branch? && OnTree(t, p) && p[0] == |t.kids| - 1
    requires After(t.kids[p[0]], p[1..]) == [] && LeavesAfter(t.kids[p[0]], p[1..]) == 0
    ensures After(t, p) == [] && LeavesAfter(t, p) == 0
  {
    assert t.kids[p[0] + 1..] == [];
  }

  lemma {:induction false} StepInLeaf(es: seq<Entry>, p: Path)
    requires OnTree(Leaf(es), p)
    ensures p[0] < |es| - 1 ==> StepsTo(Leaf(es), p, [p[0] + 1])
    ensures p[0] >= |es| - 1 ==> After(Leaf(es), p) == []
  {
  }

  lemma {:induction false} StepInChild(t: Tree, p: Path, q: Path)
    requires t.Branch? && OnTree(t, p) && StepsTo(t.kids[p[0]], p[1..], q)
    ensures StepsTo(t, p, [p[0]] + q)
  {
    assert ([p[0]] + q)[1..] == q;
  }

  lemma {:induction false} StepToSibling(t: Tree, p: Path)
    requires t.Branch? && WellFormed(t) && OnTree(t, p) && p[0] + 1 < |t.kids|
    requires After(t.kids[p[0]], p[1..]) == [] && LeavesAfter(t.kids[p[0]], p[1..]) == 0
    ensures StepsTo(t, p, [p[0] + 1] + Leftmost(t.kids[p[0] + 1]))
  {
    var i, kids := p[0], t.kids;
    LeftmostSeesAll(kids[i + 1]);
    var q := [i + 1] + Leftmost(kids[i + 1]);
    assert q[1..] == Leftmost(kids[i + 1]);
    assert kids[i + 1..][1..] == kids[i + 2..];
  }

  /** The first index of the rightmost leaf. */
  function LastLeafStart(t: Tree): Path
    requires WellFormed(t)
  {
    match t
    case Leaf(_) => [0]
    case Branch(_, kids) => [|kids| - 1] + LastLeafStart(kids[|kids| - 1])
  }

  lemma {:induction false} StartOfLastLeaf(t: Tree, p: Path)
    requires WellFormed(t) && OnTree(t, p) && p[|p| - 1] == 0 && LeavesAfter(t, p) == 0
    ensures p == LastLeafStart(t)
    decreases t
  {
    match t
    case Leaf(_) =>
    case Branch(_, kids) =>
      var i := p[0];
      StartOfLastLeaf(kids[i], p[1..]);
      assert p == [i] + p[1..];
  }

  /** Where `next` leaves the cursor and what it returns. */
  datatype Move = Move(path: Path, result: Option<Entry>)

  /**
  `next_`: steps until it stands on an entry. It returns the first entry after the old position and
  moves exactly past it, or returns nothing, exactly when no entry was left. It then stays where it was
  if that was the last leaf, and otherwise stops at the start of the last leaf, which is empty.
   */
  function Next(t: Tree, p: Path): (m: Move)
    requires WellFormed(t) && OnTree(t, p)
    ensures OnTree(t, m.path)
    ensures m.result == if After(t, p) == [] then None else Some(After(t, p)[0])
    ensures After(t, m.path) == if After(t, p) == [] then [] else After(t, p)[1..]
    ensures m.result.Some? ==> Current(t, m.path) == m.result
    ensures m.result.None? ==> LeavesAfter(t, m.path) == 0 && (m.path == p || Current(t, m.path).None?)
    ensures m.result.None? ==> m.path == if LeavesAfter(t, p) == 0 then p else LastLeafStart(t)
    decreases LeavesAfter(t, p)
  {
    StepFacts(t, p);
    match Bump(t, p)
    case None => Move(p, None)
    case Some(q) => if LeafAt(t, q) == [] then Next(t, q) else Move(q, Current(t, q))
  }

  /** What one step decides: the end, an empty leaf to be stepped over, or the next entry. */
  lemma {:induction false} StepFacts(t: Tree, p: Path)
    requires WellFormed(t) && OnTree(t, p)
    ensures Bump(t, p).None? ==> After(t, p) == [] && LeavesAfter(t, p) == 0
    ensures Bump(t, p).Some? ==> OnTree(t, Bump(t, p).value)
    ensures Bump(t, p).Some? && LeafAt(t, Bump(t, p).value) == [] ==>
      var q := Bump(t, p).value;
      && After(t, q) == After(t, p) && Current(t, q).None? && LeavesAfter(t, q) < LeavesAfter(t, p)
      && (LeavesAfter(t, q) == 0 ==> q == LastLeafStart(t))
    ensures Bump(t, p).Some? && LeafAt(t, Bump(t, p).value) != [] ==>
      var q := Bump(t, p).value;
      After(t, p) != [] && Current(t, q) == Some(After(t, p)[0]) && After(t, q) == After(t, p)[1..]
  {
    BumpAdvances(t, p);
    if Bump(t, p).Some? {
      var q := Bump(t, p).value;
      FromIsCurrentThenAfter(t, q);
      if q[|q| - 1] == 0 && LeavesAfter(t, q) == 0 {
        StartOfLastLeaf(t, q);
      }
    }
  }

  /** Once `next` has returned nothing it returns nothing ever after and no longer moves. */
  lemma {:induction false} NextStaysAtEnd(t: Tree, p: Path)
    requires WellFormed(t) && OnTree(t, p) && Next(t, p).result.None?
    ensures Next(t, Next(t, p).path) == Move(Next(t, p).path, None)
  {
  }

  /** `first`: descend to the left and step over empty leaves. */
  function First(t: Tree): (p: Path)
    requires WellFormed(t)
    ensures OnTree(t, p)
    ensures From(t, p) == Flatten(t)
    ensures Current(t, p) == if Flatten(t) == [] then None else Some(Flatten(t)[0])
  {
    FirstFacts(t);
    var p := Leftmost(t);
    if LeafAt(t, p) == [] then Next(t, p).path else p
  }

  lemma {:induction false} FirstFacts(t: Tree)
    requires WellFormed(t)
    ensures OnTree(t, Leftmost(t))
    ensures var p := Leftmost(t);
      var q := if LeafAt(t, p) == [] then Next(t, p).path else p;
      && From(t, q) == Flatten(t)
      && Current(t, q) == if Flatten(t) == [] then None else Some(Flatten(t)[0])
  {
    var p := Leftmost(t);
    LeftmostSeesAll(t);
    if LeafAt(t, p) == [] {
      CurrentInLeaf(t, p);
      NextKeepsFrom(t, p);
    } else {
      FromIsCurrentThenAfter(t, p);
    }
  }

  /** From a position off any entry, `next` moves to the next entry and loses nothing on the way. */
  lemma {:induction false} NextKeepsFrom(t: Tree, p: Path)
    requires WellFormed(t) && OnTree(t, p) && Current(t, p).None?
    ensures From(t, Next(t, p).path) == From(t, p)
    ensures Current(t, Next(t, p).path) == if From(t, p) == [] then None else Some(From(t, p)[0])
  {
    var q, a := Next(t, p).path, After(t, p);
    FromIsCurrentThenAfter(t, p);
    FromIsCurrentThenAfter(t, q);
    HeadAndTail(a);
  }

  lemma {:induction false} HeadAndTail(a: seq<Entry>)
    ensures [] + a == a && (a != [] ==> [a[0]] + a[1..] == a)
  {
  }

  /** What repeated `next` yields from a position until it returns nothing. */
  function Rest(t: Tree, p: Path): seq<Entry>
    requires WellFormed(t) && OnTree(t, p)
    decreases |After(t, p)|
  {
    var m := Next(t, p);
    if m.result.None? then [] else [m.result.value] + Rest(t, m.path)
  }

  lemma {:induction false} RestIsAfter(t: Tree, p: Path)
    requires WellFormed(t) && OnTree(t, p)
    ensures Rest(t, p) == After(t, p)
    decreases |After(t, p)|
  {
    var m := Next(t, p);
    HeadAndTail(After(t, p));
    if m.result.Some? {
      RestIsAfter(t, m.path);
    }
  }

  /** One turn of a scan: the entry goes to the output and `next` brings the following one. */
  lemma {:induction false} ScanStep(t: Tree, p: Path, out: seq<Entry>, x: Entry, all: seq<Entry>)
    requires WellFormed(t) && OnTree(t, p) && out + ([x] + After(t, p)) == all
    ensures var m := Next(t, p);
      && (m.result.None? ==> out + [x] == all)
      && (m.result.Some? ==> (out + [x]) + ([m.result.value] + After(t, m.path)) == all)
      && (m.result.Some? ==> |After(t, m.path)| < |After(t, p)|)
  {
    var a := After(t, p);
    ShiftOne(out, x, a);
    HeadAndTail(a);
  }

  lemma {:induction false} ShiftOne(out: seq<Entry>, x: Entry, a: seq<Entry>)
    ensures out + ([x] + a) == (out + [x]) + a
    ensures a == [] ==> out + ([x] + a) == out + [x]
  {
  }

  /** `first`, then `next` until it returns nothing: the whole scan. */
  function Scan(t: Tree): seq<Entry>
    requires WellFormed(t)
  {
    var p := First(t);
    if Current(t, p).None? then [] else [Current(t, p).value] + Rest(t, p)
  }

  /** A full scan yields every entry of every leaf once, in order, over any number of empty leaves. */
  lemma {:induction false} ScanIsFlatten(t: Tree)
    requires WellFormed(t)
    ensures Scan(t) == Flatten(t)
  {
    var p := First(t);
    FromIsCurrentThenAfter(t, p);
    RestIsAfter(t, p);
  }
}
