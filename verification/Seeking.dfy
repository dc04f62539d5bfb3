/**
Ordered trees and the position that `seek` finds (bolt/cursor.cpp, `seek`, `search`, `searchNode`,
`nsearch`).
 */
module Seeking {
  import opened Slices
  import opened NodeCodec
  import Ordered
  import opened Strays
  import opened Trees

  predicate AscendingEntries(es: seq<Entry>) {
    forall i, j :: 0 <= i < j < |es| ==> Less(es[i].key, es[j].key)
  }

  predicate AllBelow(es: seq<Entry>, k: Slice) {
    forall e :: e in es ==> Less(e.key, k)
  }

  predicate NoneBelow(es: seq<Entry>, k: Slice) {
    forall e :: e in es ==> !Less(e.key, k)
  }

  /**
  Leaves ascend, separators ascend, and separators bound the subtrees: child i holds keys from
  separator i on and below separator i + 1. The first child may hold keys below its own separator.
   */
  predicate KeysOrdered(t: Tree) {
    match t
    case Leaf(es) => AscendingEntries(es)
    case Branch(seps, kids) =>
      && |seps| == |kids|
      && Ordered.Ascending(seps)
      && (forall i :: 0 <= i < |kids| ==> KeysOrdered(kids[i]))
      && (forall i :: 0 < i < |kids| ==> NoneBelow(Flatten(kids[i]), seps[i]))
      && (forall i :: 0 <= i < |kids| - 1 ==> AllBelow(Flatten(kids[i]), seps[i + 1]))
  }

  /** The entries whose key is not below k, in order. */
  function AtLeast(es: seq<Entry>, k: Slice): seq<Entry> {
    if es == [] then [] else (if Less(es[0].key, k) then [] else [es[0]]) + AtLeast(es[1..], k)
  }

  lemma {:induction false} AtLeastFirst(es: seq<Entry>, k: Slice, head: seq<Entry>)
    requires es != [] && head == if Less(es[0].key, k) then [] else [es[0]]
    ensures AtLeast(es, k) == head + AtLeast(es[1..], k)
  {
  }

  lemma {:induction false} AtLeastJoins(a: seq<Entry>, b: seq<Entry>, k: Slice)
    ensures AtLeast(a + b, k) == AtLeast(a, k) + AtLeast(b, k)
  {
    if a == [] {
      assert a + b == b;
    } else {
      AtLeastJoins(a[1..], b, k);
      var head := if Less(a[0].key, k) then [] else [a[0]];
      AtLeastFirst(a, k, head);
      AtLeastFirst(a + b, k, head);
      assert (a + b)[1..] == a[1..] + b;
      Regroup(head, AtLeast(a[1..], k), AtLeast(b, k));
    }
  }

  lemma {:induction false} AtLeastMembers(es: seq<Entry>, k: Slice)
    ensures forall e :: e in AtLeast(es, k) <==> e in es && !Less(e.key, k)
  {
    if es != [] {
      AtLeastMembers(es[1..], k);
      assert forall e :: e in es <==> e == es[0] || e in es[1..];
    }
  }

  lemma {:induction false} AtLeastOfBelow(es: seq<Entry>, k: Slice)
    requires AllBelow(es, k)
    ensures AtLeast(es, k) == []
  {
    if es != [] {
      assert forall e :: e in es[1..] ==> e in es;
      assert es[0] in es;
      AtLeastOfBelow(es[1..], k);
    }
  }

  lemma {:induction false} AtLeastOfRest(es: seq<Entry>, k: Slice)
    requires NoneBelow(es, k)
    ensures AtLeast(es, k) == es
  {
    if es != [] {
      assert forall e :: e in es[1..] ==> e in es;
      assert es[0] in es;
      AtLeastOfRest(es[1..], k);
    }
  }

  /** No key is below the empty one. */
  lemma {:induction false} AtLeastEmpty(es: seq<Entry>)
    ensures AtLeast(es, []) == es
  {
    forall e | e in es
      ensures !Less(e.key, [])
    {
      LessIsLex(e.key, []);
    }
    AtLeastOfRest(es, []);
  }

  // ---- cutting a list of subtrees ----

  lemma {:induction false} FlattenAllJoins(a: seq<Tree>, b: seq<Tree>)
    ensures FlattenAll(a + b) == FlattenAll(a) + FlattenAll(b)
  {
    if a == [] {
      assert a + b == b;
    } else {
      FlattenAllJoins(a[1..], b);
      assert (a + b)[1..] == a[1..] + b;
      Regroup(Flatten(a[0]), FlattenAll(a[1..]), FlattenAll(b));
    }
  }

  /** The flattening around child c. */
  lemma {:induction false} FlattenAround(ts: seq<Tree>, c: nat)
    requires c < |ts|
    ensures FlattenAll(ts) == FlattenAll(ts[..c]) + (Flatten(ts[c]) + FlattenAll(ts[c + 1..]))
  {
    assert ts == ts[..c] + ts[c..];
    FlattenAllJoins(ts[..c], ts[c..]);
    assert ts[c..][1..] == ts[c + 1..];
  }

  lemma {:induction false} AllBelowAll(ts: seq<Tree>, k: Slice)
    requires forall i :: 0 <= i < |ts| ==> AllBelow(Flatten(ts[i]), k)
    ensures AllBelow(FlattenAll(ts), k)
  {
    if ts != [] {
      AllBelowAll(ts[1..], k);
    }
  }

  lemma {:induction false} NoneBelowAll(ts: seq<Tree>, k: Slice)
    requires forall i :: 0 <= i < |ts| ==> NoneBelow(Flatten(ts[i]), k)
    ensures NoneBelow(FlattenAll(ts), k)
  {
    if ts != [] {
      NoneBelowAll(ts[1..], k);
    }
  }

  // ---- search ----

  function EntryKeys(es: seq<Entry>): (ks: seq<Slice>)
    ensures |ks| == |es| && forall i :: 0 <= i < |es| ==> ks[i] == es[i].key
  {
    seq(|es|, i requires 0 <= i < |es| => es[i].key)
  }

  /** The child that `searchNode` descends into: an exact separator, or the last one below the key, or the first. */
  function ChildFor(seps: seq<Slice>, k: Slice): (c: nat)
    requires |seps| > 0
    ensures c < |seps|
  {
    var j := Ordered.LowerBound(seps, k);
    if !(j < |seps| && Equal(seps[j], k)) && j > 0 then j - 1 else j
  }

  /** The chosen child's separator is not above the key, unless it is the first; every later one is above. */
  lemma {:induction false} ChildForBounds(seps: seq<Slice>, k: Slice)
    requires |seps| > 0 && Ordered.Ascending(seps)
    ensures var c := ChildFor(seps, k);
      && (forall i :: 0 < i <= c ==> !Less(k, seps[i]))
      && (forall i :: c < i < |seps| ==> Less(k, seps[i]))
  {
    var j := Ordered.LowerBound(seps, k);
    Ordered.LowerBoundCuts(seps, k);
    if j < |seps| {
      EqualIsSame(seps[j], k);
    }
    forall i | 0 < i <= ChildFor(seps, k)
      ensures !Less(k, seps[i])
    {
      LessTrichotomy(k, seps[i]);
    }
    forall i | ChildFor(seps, k) < i < |seps|
      ensures Less(k, seps[i])
    {
      LessTrichotomy(k, seps[i]);
      if j < i {
        assert Less(seps[j], seps[i]);
        LessTrichotomy(seps[j], k);
      }
    }
  }

  /** Over ascending separators the halving search makes the same choice. */
  lemma {:induction false} PickIsChildFor(seps: seq<Slice>, k: Slice)
    requires |seps| > 0 && Ordered.Ascending(seps)
    ensures Pick(seps, k) == ChildFor(seps, k)
  {
    Ordered.HalveIsLowerBound(seps, k);
  }

  function SearchPath(t: Tree, k: Slice): Path
    requires WellFormed(t)
  {
    match t
    case Leaf(es) => [Ordered.LowerBound(EntryKeys(es), k)]
    case Branch(seps, kids) =>
      var c := ChildFor(seps, k);
      [c] + SearchPath(kids[c], k)
  }

  lemma {:induction false} LeafCut(es: seq<Entry>, k: Slice)
    requires AscendingEntries(es)
    ensures var i := Ordered.LowerBound(EntryKeys(es), k); AllBelow(es[..i], k) && NoneBelow(es[i..], k)
  {
    var ks := EntryKeys(es);
    assert forall i, j :: 0 <= i < j < |ks| ==> Less(ks[i], ks[j]);
    Ordered.LowerBoundCuts(ks, k);
  }

  lemma {:induction false} SearchLeaf(es: seq<Entry>, k: Slice)
    requires AscendingEntries(es)
    ensures var i := Ordered.LowerBound(EntryKeys(es), k); AtLeast(es, k) == es[i..]
  {
    var i := Ordered.LowerBound(EntryKeys(es), k);
    LeafCut(es, k);
    AtLeastOfCut(es[..i], es[i..], es, k);
  }

  lemma {:induction false} AtLeastOfCut(a: seq<Entry>, b: seq<Entry>, es: seq<Entry>, k: Slice)
    requires es == a + b && AllBelow(a, k) && NoneBelow(b, k)
    ensures AtLeast(es, k) == b
  {
    AtLeastOfBelow(a, k);
    AtLeastOfRest(b, k);
    AtLeastJoins(a, b, k);
  }

  /** Everything left of child c is below the key, and nothing right of it is. */
  predicate Belongs(kids: seq<Tree>, k: Slice, c: nat)
    requires c < |kids|
  {
    AllBelow(FlattenAll(kids[..c]), k) && NoneBelow(FlattenAll(kids[c + 1..]), k)
  }

  /** Then only entries of child c and of the children right of it reach up to the key. */
  lemma {:induction false} FitDecides(kids: seq<Tree>, k: Slice, c: nat)
    requires c < |kids| && Belongs(kids, k, c)
    ensures AtLeast(FlattenAll(kids), k) == AtLeast(Flatten(kids[c]), k) + FlattenAll(kids[c + 1..])
  {
    var left, mid, right := FlattenAll(kids[..c]), Flatten(kids[c]), FlattenAll(kids[c + 1..]);
    AtLeastOfBelow(left, k);
    AtLeastOfRest(right, k);
    FlattenAround(kids, c);
    AtLeastJoins(left, mid + right, k);
    AtLeastJoins(mid, right, k);
  }

  lemma {:induction false} AtLeastCounts(es: seq<Entry>, k: Slice)
    ensures |AtLeast(es, k)| <= |es|
    ensures !AllBelow(es, k) ==> |AtLeast(es, k)| > 0
    ensures !NoneBelow(es, k) ==> |AtLeast(es, k)| < |es|
  {
    if es != [] {
      AtLeastCounts(es[1..], k);
      assert forall e :: e in es ==> e == es[0] || e in es[1..];
    }
  }

  lemma {:induction false} AscendingHalves(a: seq<Entry>, b: seq<Entry>, k: Slice)
    requires AscendingEntries(a + b)
    ensures AllBelow(a, k) || NoneBelow(b, k)
  {
    forall x, y | x in a && y in b
      ensures Less(x.key, y.key)
    {
      var i :| 0 <= i < |a| && a[i] == x;
      var j :| 0 <= j < |b| && b[j] == y;
      assert (a + b)[i] == x && (a + b)[|a| + j] == y;
    }
    if x :| x in a && !Less(x.key, k) {
      forall y | y in b
        ensures !Less(y.key, k)
      {
        if Less(y.key, k) {
          LessTransitive(x.key, y.key, k);
        }
      }
    }
  }

  /** In any other child every position has too few or too many entries ahead. */
  lemma {:induction false} MisfitDiffers(kids: seq<Tree>, k: Slice, c: nat)
    requires c < |kids| && AscendingEntries(FlattenAll(kids)) && !Belongs(kids, k, c)
    ensures var n, right := |AtLeast(FlattenAll(kids), k)|, |FlattenAll(kids[c + 1..])|;
      n < right || n > |Flatten(kids[c])| + right
  {
    var left, mid, right := FlattenAll(kids[..c]), Flatten(kids[c]), FlattenAll(kids[c + 1..]);
    FlattenAround(kids, c);
    MisfitCounts(left, mid, right, k);
  }

  lemma {:induction false} MisfitCounts(left: seq<Entry>, mid: seq<Entry>, right: seq<Entry>, k: Slice)
    requires AscendingEntries(left + (mid + right)) && !(AllBelow(left, k) && NoneBelow(right, k))
    ensures var n := |AtLeast(left + (mid + right), k)|; n < |right| || n > |mid| + |right|
  {
    AtLeastJoins(left, mid + right, k);
    if !AllBelow(left, k) {
      AscendingHalves(left, mid + right, k);
      AtLeastOfRest(mid + right, k);
      AtLeastCounts(left, k);
    } else {
      Regroup(left, mid, right);
      AscendingHalves(left + mid, right, k);
      AtLeastOfBelow(left + mid, k);
      AtLeastJoins(left + mid, right, k);
      AtLeastCounts(right, k);
    }
  }

  /** The chosen child fits. */
  lemma {:induction false} ChildFits(t: Tree, k: Slice)
    requires t.Branch? && WellFormed(t) && KeysOrdered(t)
    ensures Belongs(t.kids, k, ChildFor(t.seps, k))
  {
    var seps, kids := t.seps, t.kids;
    var c := ChildFor(seps, k);
    ChildForBounds(seps, k);
    forall i | 0 <= i < c
      ensures AllBelow(Flatten(kids[..c][i]), k)
    {
      forall e | e in Flatten(kids[i])
        ensures Less(e.key, k)
      {
        LessThenNotLess(e.key, seps[i + 1], k);
      }
    }
    var rest := kids[c + 1..];
    forall i | 0 <= i < |rest|
      ensures NoneBelow(Flatten(rest[i]), k)
    {
      LessTrichotomy(seps[c + 1 + i], k);
      RightChildAbove(t, k, c + 1 + i);
    }
    AllBelowAll(kids[..c], k);
    NoneBelowAll(kids[c + 1..], k);
  }

  lemma {:induction false} ChildDecides(t: Tree, k: Slice)
    requires t.Branch? && WellFormed(t) && KeysOrdered(t)
    ensures var c := ChildFor(t.seps, k);
      AtLeast(Flatten(t), k) == AtLeast(Flatten(t.kids[c]), k) + FlattenAll(t.kids[c + 1..])
  {
    ChildFits(t, k);
    FitDecides(t.kids, k, ChildFor(t.seps, k));
  }

  lemma {:induction false} RightChildAbove(t: Tree, k: Slice, i: nat)
    requires t.Branch? && KeysOrdered(t) && 0 < i < |t.kids| && !Less(t.seps[i], k)
    ensures NoneBelow(Flatten(t.kids[i]), k)
  {
    forall e | e in Flatten(t.kids[i])
      ensures !Less(e.key, k)
    {
      assert !Less(e.key, t.seps[i]);
      if Less(e.key, k) {
        LessThenNotLess(e.key, k, t.seps[i]);
      }
    }
  }

  /** The search stops where exactly the entries not below the key lie ahead. */
  lemma {:induction false} SearchCuts(t: Tree, k: Slice)
    requires WellFormed(t) && KeysOrdered(t)
    ensures OnTree(t, SearchPath(t, k))
    ensures From(t, SearchPath(t, k)) == AtLeast(Flatten(t), k)
  {
    match t
    case Leaf(es) => SearchLeaf(es, k);
    case Branch(seps, kids) =>
      var c := ChildFor(seps, k);
      SearchCuts(kids[c], k);
      ChildDecides(t, k);
      assert ([c] + SearchPath(kids[c], k))[1..] == SearchPath(kids[c], k);
  }

  /** Where `seek` leaves the cursor, given where its search stopped. */
  function Settle(t: Tree, p: Path): (q: Path)
    requires WellFormed(t) && OnTree(t, p)
    ensures OnTree(t, q) && From(t, q) == From(t, p)
    ensures Current(t, q) == if From(t, p) == [] then None else Some(From(t, p)[0])
  {
    FromIsCurrentThenAfter(t, p);
    if Current(t, p).None? then NextKeepsFrom(t, p); Next(t, p).path else p
  }

  lemma {:induction false} SettleByNext(t: Tree, p: Path)
    requires WellFormed(t) && OnTree(t, p)
    ensures Current(t, p).Some? ==> Settle(t, p) == p
    ensures Current(t, p).None? ==>
      Settle(t, p) == Next(t, p).path && Next(t, p).result == Current(t, Next(t, p).path)
  {
    if Current(t, p).None? {
      NextKeepsFrom(t, p);
    }
  }

  /** Seek is the global lower bound, and scanning on from it yields exactly the entries not below the key. */
  lemma {:induction false} SeekIsLowerBound(t: Tree, k: Slice)
    requires WellFormed(t) && KeysOrdered(t)
    ensures OnTree(t, SearchPath(t, k))
    ensures var q := Settle(t, SearchPath(t, k));
      var found := AtLeast(Flatten(t), k);
      && (Current(t, q).None? <==> found == [])
      && (Current(t, q).Some? ==> Current(t, q).value == found[0] && [found[0]] + Rest(t, q) == found)
  {
    SearchCuts(t, k);
    var q := Settle(t, SearchPath(t, k));
    FromIsCurrentThenAfter(t, q);
    RestIsAfter(t, q);
  }

  // ---- ascending scans ----

  lemma {:induction false} AscendingJoins(a: seq<Entry>, b: seq<Entry>)
    requires AscendingEntries(a) && AscendingEntries(b)
    requires forall x, y :: x in a && y in b ==> Less(x.key, y.key)
    ensures AscendingEntries(a + b)
  {
    forall i, j | 0 <= i < j < |a + b|
      ensures Less((a + b)[i].key, (a + b)[j].key)
    {
      if i < |a| <= j {
        assert a[i] in a && b[j - |a|] in b;
      }
    }
  }

  /** The children from i on flatten to an ascending list that starts at separator i. */
  lemma {:induction false} AscendingFrom(t: Tree, i: nat)
    requires t.Branch? && KeysOrdered(t) && i <= |t.kids|
    requires forall j :: i <= j < |t.kids| ==> AscendingEntries(Flatten(t.kids[j]))
    ensures AscendingEntries(FlattenAll(t.kids[i..]))
    ensures 0 < i < |t.kids| ==> NoneBelow(FlattenAll(t.kids[i..]), t.seps[i])
    decreases |t.kids| - i
  {
    var ts := t.kids[i..];
    if ts != [] {
      AscendingFrom(t, i + 1);
      assert ts[1..] == t.kids[i + 1..];
      forall x, y | x in Flatten(ts[0]) && y in FlattenAll(ts[1..])
        ensures Less(x.key, y.key)
      {
        LessThenNotLess(x.key, t.seps[i + 1], y.key);
      }
      AscendingJoins(Flatten(ts[0]), FlattenAll(ts[1..]));
      if 0 < i < |t.kids| - 1 {
        forall y | y in FlattenAll(ts[1..])
          ensures !Less(y.key, t.seps[i])
        {
          LessThenNotLess(t.seps[i], t.seps[i + 1], y.key);
          LessTrichotomy(t.seps[i], y.key);
        }
      }
    }
  }

  /** A scan of an ordered tree returns strictly ascending keys. */
  lemma {:induction false} FlattenAscends(t: Tree)
    requires KeysOrdered(t)
    ensures AscendingEntries(Flatten(t))
  {
    match t
    case Leaf(_) =>
    case Branch(_, kids) =>
      forall j | 0 <= j < |kids|
        ensures AscendingEntries(Flatten(kids[j]))
      {
        FlattenAscends(kids[j]);
      }
      AscendingFrom(t, 0);
      assert kids[0..] == kids;
  }

  // ---- trees that are ordered ----

  /** Every separator is the first key of its subtree. */
  predicate FirstKeys(t: Tree) {
    match t
    case Leaf(_) => true
    case Branch(seps, kids) =>
      |seps| == |kids| && forall i :: 0 <= i < |kids| ==>
        FirstKeys(kids[i]) && Flatten(kids[i]) != [] && seps[i] == Flatten(kids[i])[0].key
  }

  lemma {:induction false} InFlattenAll(ts: seq<Tree>, i: nat, e: Entry)
    requires i < |ts| && e in Flatten(ts[i])
    ensures e in FlattenAll(ts)
  {
    if i > 0 {
      InFlattenAll(ts[1..], i - 1, e);
    }
  }

  lemma {:induction false} AscendingParts(a: seq<Entry>, b: seq<Entry>)
    requires AscendingEntries(a + b)
    ensures AscendingEntries(a) && AscendingEntries(b)
    ensures forall x, y :: x in a && y in b ==> Less(x.key, y.key)
  {
    assert forall i :: 0 <= i < |a| ==> (a + b)[i] == a[i];
    assert forall j :: 0 <= j < |b| ==> (a + b)[|a| + j] == b[j];
  }

  /** In an ascending flattening each subtree ascends and lies below the later ones. */
  lemma {:induction false} SubtreesAscend(ts: seq<Tree>, i: nat)
    requires i < |ts| && AscendingEntries(FlattenAll(ts))
    ensures AscendingEntries(Flatten(ts[i]))
    ensures forall j, x, y :: i < j < |ts| && x in Flatten(ts[i]) && y in Flatten(ts[j]) ==> Less(x.key, y.key)
  {
    var left, mid, right := FlattenAll(ts[..i]), Flatten(ts[i]), FlattenAll(ts[i + 1..]);
    FlattenAround(ts, i);
    AscendingParts(left, mid + right);
    AscendingParts(mid, right);
    forall j, x, y | i < j < |ts| && x in mid && y in Flatten(ts[j])
      ensures Less(x.key, y.key)
    {
      InFlattenAll(ts[i + 1..], j - i - 1, y);
    }
  }

  lemma {:induction false} NotBelowFirst(es: seq<Entry>)
    requires es != [] && AscendingEntries(es)
    ensures NoneBelow(es, es[0].key)
  {
    forall e | e in es
      ensures !Less(e.key, es[0].key)
    {
      var i :| 0 <= i < |es| && es[i] == e;
      LessTrichotomy(es[0].key, e.key);
    }
  }

  /** A tree that flattens to ascending keys and whose separators are the first keys of their subtrees is ordered. */
  lemma {:induction false} FirstKeysOrder(t: Tree)
    requires AscendingEntries(Flatten(t)) && FirstKeys(t)
    ensures KeysOrdered(t)
  {
    if t.Branch? {
      var seps, kids := t.seps, t.kids;
      forall i | 0 <= i < |kids|
        ensures KeysOrdered(kids[i]) && NoneBelow(Flatten(kids[i]), seps[i])
        ensures forall j :: i < j < |kids| ==> AllBelow(Flatten(kids[i]), seps[j])
        ensures forall j :: i < j < |kids| ==> Less(seps[i], seps[j])
      {
        SubtreesAscend(kids, i);
        FirstKeysOrder(kids[i]);
        NotBelowFirst(Flatten(kids[i]));
        assert Flatten(kids[i])[0] in Flatten(kids[i]);
        assert forall j :: i < j < |kids| ==> Flatten(kids[j])[0] in Flatten(kids[j]);
      }
    }
  }
}
