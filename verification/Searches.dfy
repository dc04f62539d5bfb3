/**
Where a cursor's search may stop, and when it reliably stops at the lower bound (bolt/cursor.cpp,
`search`, `searchNode`, `searchPage`, `nsearch`).
 */
module Searches {
  import opened Slices
  import opened Pages
  import opened NodeCodec
  import Ordered
  import opened Strays
  import opened Trees
  import opened Seeking
  import opened Buckets

  // ---- the copied elements of a page ----

  predicate HasCopy(p: PageView, i: nat) {
    i * 16 + 16 <= |p.data|
  }

  /** The key size in the copy of element i, whose index is not cut to 16 bits. */
  function CopiedSize(p: PageView, i: nat): nat
    requires HasCopy(p, i)
  {
    U32At(p.data, i * 16 + if LeafBit(p.flags) then 8 else 4)
  }

  /** The key sizes in the copies that `leafPageElements` and `branchPageElements` make. */
  function CopiedSizes(p: PageView): (sizes: seq<nat>)
    requires p.count * 16 <= |p.data|
  {
    seq(p.count, i requires 0 <= i < p.count => CopiedSize(p, i))
  }

  /** The accessors show this key in element i. */
  predicate ShowsKey(p: PageView, i: nat, key: Slice) {
    if LeafBit(p.flags) then LeafReadable(p, i) && key == LeafKey(p, i)
    else BranchReadable(p, i) && key == BranchKey(p, i)
  }

  lemma {:induction false} ShownSize(p: PageView, i: nat, key: Slice, o: nat)
    requires ShowsKey(p, i, key) && o == ElementOffset(i)
    ensures o + 16 <= |p.data| && U32At(p.data, o + if LeafBit(p.flags) then 8 else 4) == |key|
  {
  }

  lemma {:induction false} PlainOffset(i: nat)
    requires i < 0x1_0000
    ensures ElementOffset(i) == i * 16
  {
  }

  /** The accessors read the same element at 0 and at 65536, ... */
  lemma {:induction false} ShownAgain(p: PageView, x: Slice, y: Slice)
    requires ShowsKey(p, 0, x) && ShowsKey(p, 0x1_0000, y)
    ensures x == y
  {
    assert ElementOffset(0) == ElementOffset(0x1_0000);
  }

  predicate AllShown(p: PageView, keys: seq<Slice>) {
    p.count == |keys| && forall i :: 0 <= i < |keys| ==> ShowsKey(p, i, keys[i])
  }

  /** ... so ascending keys are fewer. */
  lemma {:induction false} AscendingIsShort(p: PageView, keys: seq<Slice>)
    requires AllShown(p, keys) && Ordered.Ascending(keys)
    ensures |keys| <= 0x1_0000
  {
    if |keys| > 0x1_0000 {
      ShownAgain(p, keys[0], keys[0x1_0000]);
      LessTrichotomy(keys[0], keys[0]);
    }
  }

  predicate SizeCopied(p: PageView, i: nat, key: Slice) {
    HasCopy(p, i) && CopiedSize(p, i) == |key|
  }

  lemma {:induction false} CopiesCarrySizes(p: PageView, keys: seq<Slice>)
    requires p.count == |keys| && forall i :: 0 <= i < |keys| ==> SizeCopied(p, i, keys[i])
    ensures p.count * 16 <= |p.data| && CopiedSizes(p) == Sizes(keys)
  {
    if keys != [] {
      assert SizeCopied(p, |keys| - 1, keys[|keys| - 1]);
    }
  }

  lemma {:induction false} ShownSizes(p: PageView, keys: seq<Slice>)
    requires AllShown(p, keys) && Ordered.Ascending(keys)
    ensures p.count * 16 <= |p.data| && CopiedSizes(p) == Sizes(keys)
  {
    AscendingIsShort(p, keys);
    forall i | 0 <= i < |keys|
      ensures SizeCopied(p, i, keys[i])
    {
      PlainOffset(i);
      ShownSize(p, i, keys[i], i * 16);
    }
    CopiesCarrySizes(p, keys);
  }

  /** The copies of a leaf page's elements carry the sizes of its keys. */
  lemma {:induction false} LeafPageSizes(p: PageView, es: seq<Entry>)
    requires LeafHolds(OfPage(p), es) && AscendingEntries(es)
    ensures p.count * 16 <= |p.data| && CopiedSizes(p) == Sizes(EntryKeys(es))
  {
    CountIsExact(p, |es|);
    var keys := EntryKeys(es);
    forall i | 0 <= i < |keys|
      ensures ShowsKey(p, i, keys[i])
    {
      assert HasEntry(OfPage(p), i) && EntryAt(OfPage(p), i) == es[i];
    }
    ShownSizes(p, keys);
  }

  /** The copies of a branch page's elements carry the sizes of its separators. */
  lemma {:induction false} BranchPageSizes(p: PageView, seps: seq<Slice>)
    requires BranchHolds(OfPage(p), seps) && Ordered.Ascending(seps)
    ensures p.count * 16 <= |p.data| && CopiedSizes(p) == Sizes(seps)
  {
    CountIsExact(p, |seps|);
    forall i | 0 <= i < |seps|
      ensures ShowsKey(p, i, seps[i])
    {
      assert HasChild(OfPage(p), i) && SepAt(OfPage(p), i) == seps[i];
    }
    ShownSizes(p, seps);
  }

  lemma {:induction false} CountIsExact(p: PageView, n: nat)
    requires AsInt(p.count) == n
    ensures p.count == n
  {
  }

  /**
  Where the copies of a written page's elements look for their keys, counted from the first copy: behind
  all copies and in places that do not overlap, so the bytes found there are independent of each other.
   */
  lemma {:induction false} WrittenPlacesApart(ns: seq<INode>, p: PageView, isLeaf: bool, i: nat, j: nat)
    requires Encode(isLeaf, ns) <= p.data && Size(ns) < 0x1_0000_0000 && |ns| <= 0xffff && i < j < |ns|
    ensures HasElement(p, i) && HasElement(p, j)
    ensures isLeaf ==> var e, f := LeafElementAt(p, i), LeafElementAt(p, j);
      |ns| * 16 <= i * 16 + e.pos && i * 16 + e.pos + e.ksize <= j * 16 + f.pos
    ensures !isLeaf ==> var e, f := BranchElementAt(p, i), BranchElementAt(p, j);
      |ns| * 16 <= i * 16 + e.pos && i * 16 + e.pos + e.ksize <= j * 16 + f.pos
  {
    PayloadGrows(ns, i + 1, j);
    if isLeaf {
      LeafHeaderRoundTrip(ns, p, i);
      LeafHeaderRoundTrip(ns, p, j);
    } else {
      BranchHeaderRoundTrip(ns, p, i);
      BranchHeaderRoundTrip(ns, p, j);
    }
  }

  // ---- the paths of a search ----

  /**
  The paths that `search` may take. A node is searched by its keys. On a page only the key sizes
  are known, so every result that some bytes of those sizes lead to may come out.
   */
  ghost predicate SearchMay(b: Bucket, id: U64, t: Tree, k: Slice, p: Path)
    requires Represents(b, id, t)
    decreases t
  {
    var r := PageNode(b, id).value;
    match t
    case Leaf(es) =>
      var keys := EntryKeys(es);
      |p| == 1 && if r.OfNode? then p[0] == Ordered.LowerBound(keys, k) else Stops(Sizes(keys), k, p[0])
    case Branch(seps, kids) =>
      && |p| > 1 && 0 <= p[0] < |kids|
      && (if r.OfNode? then p[0] == ChildFor(seps, k) else Picks(Sizes(seps), k, p[0]))
      && SearchMay(b, ChildId(r, p[0]), kids[p[0]], k, p[1..])
  }

  // ---- the path taken with given bytes ----

  /** The index in a leaf: by its keys in a node, by what the copies find in a page. */
  function LeafStop(r: Ref, id: U64, es: seq<Entry>, k: Slice, stray: Stray): (i: nat)
    ensures i <= |es|
  {
    if r.OfNode? then Ordered.LowerBound(EntryKeys(es), k) else Stop(StrayKeys(Sizes(EntryKeys(es)), id, stray), k)
  }

  function BranchPick(r: Ref, id: U64, seps: seq<Slice>, k: Slice, stray: Stray): (c: nat)
    requires |seps| > 0
    ensures c < |seps|
  {
    if r.OfNode? then ChildFor(seps, k) else Pick(StrayKeys(Sizes(seps), id, stray), k)
  }

  lemma {:induction false} ChildStands(b: Bucket, id: U64, t: Tree, c: nat)
    requires Represents(b, id, t) && t.Branch? && c < |t.seps|
    ensures |t.seps| == |t.kids| && HasChild(PageNode(b, id).value, c)
    ensures Represents(b, ChildId(PageNode(b, id).value, c), t.kids[c])
  {
  }

  lemma {:induction false} PathBelow(t: Tree, c: nat, q: Path)
    requires t.Branch? && c < |t.kids| && OnTree(t.kids[c], q)
    ensures |q| > 0 && ([c] + q)[1..] == q && OnTree(t, [c] + q)
  {
    assert ([c] + q)[1..] == q;
  }

  /** The path that `search` takes when the copies of page elements find the bytes of `stray`. */
  function PathTaken(b: Bucket, id: U64, t: Tree, k: Slice, stray: Stray): (p: Path)
    requires Represents(b, id, t)
    ensures OnTree(t, p)
    decreases t
  {
    var r := PageNode(b, id).value;
    match t
    case Leaf(es) => [LeafStop(r, id, es, k, stray)]
    case Branch(seps, kids) =>
      var c := BranchPick(r, id, seps, k, stray);
      ChildStands(b, id, t, c);
      var q := PathTaken(b, ChildId(r, c), kids[c], k, stray);
      PathBelow(t, c, q);
      [c] + q
  }

  /** One level of the path taken. */
  lemma {:induction false} TakenLevel(b: Bucket, id: U64, t: Tree, k: Slice, stray: Stray, c: nat, q: Path)
    requires Represents(b, id, t) && t.Branch? && c < |t.kids|
    requires c == BranchPick(PageNode(b, id).value, id, t.seps, k, stray)
    requires q == PathTaken(b, ChildId(PageNode(b, id).value, c), t.kids[c], k, stray)
    ensures PathTaken(b, id, t, k, stray) == [c] + q
  {
  }

  lemma {:induction false} TakenIsPossible(b: Bucket, id: U64, t: Tree, k: Slice, stray: Stray)
    requires Represents(b, id, t)
    ensures SearchMay(b, id, t, k, PathTaken(b, id, t, k, stray))
    decreases t
  {
    var r := PageNode(b, id).value;
    match t
    case Leaf(es) =>
      var sizes := Sizes(EntryKeys(es));
      assert Stops(sizes, k, Stop(StrayKeys(sizes, id, stray), k));
    case Branch(seps, kids) =>
      var c := BranchPick(r, id, seps, k, stray);
      var q := PathTaken(b, ChildId(r, c), kids[c], k, stray);
      assert Picks(Sizes(seps), k, Pick(StrayKeys(Sizes(seps), id, stray), k));
      TakenIsPossible(b, ChildId(r, c), kids[c], k, stray);
      assert ([c] + q)[1..] == q;
  }

  /** Number of vertices. */
  function Weight(t: Tree): nat
    decreases t, 1
  {
    match t
    case Leaf(_) => 1
    case Branch(_, kids) => 1 + WeightAll(kids)
  }

  function WeightAll(ts: seq<Tree>): nat
    decreases ts, 0
  {
    if ts == [] then 0 else Weight(ts[0]) + WeightAll(ts[1..])
  }

  lemma {:induction false} WeightBelow(ts: seq<Tree>, i: nat)
    requires i < |ts|
    ensures Weight(ts[i]) <= WeightAll(ts)
  {
    if i > 0 {
      WeightBelow(ts[1..], i - 1);
    }
  }

  /** The id of a vertex does not occur below it, so what its copies find does not matter there. */
  lemma {:induction false} TakenBelow(b: Bucket, id: U64, t: Tree, child: U64, u: Tree, k: Slice,
                                      keys: seq<Slice>, rest: Stray)
    requires Represents(b, id, t) && Represents(b, child, u) && Weight(u) < Weight(t)
    ensures PathTaken(b, child, u, k, Planted(keys, id, rest)) == PathTaken(b, child, u, k, rest)
    decreases u
  {
    if child == id {
      TreeIsUnique(b, id, t, u);
      assert false;
    }
    match u
    case Leaf(es) => PlantedElsewhere(keys, id, rest, Sizes(EntryKeys(es)), child);
    case Branch(seps, kids) =>
      PlantedElsewhere(keys, id, rest, Sizes(seps), child);
      var r := PageNode(b, child).value;
      var c := BranchPick(r, child, seps, k, rest);
      WeightBelow(kids, c);
      TakenBelow(b, id, t, ChildId(r, c), kids[c], k, keys, rest);
  }

  /** Bytes that lead the search into child c, on top of those that lead it on from there. */
  lemma {:induction false} PlantBranch(b: Bucket, id: U64, t: Tree, k: Slice, c: nat, rest: Stray)
    returns (stray: Stray)
    requires Represents(b, id, t) && t.Branch? && c < |t.kids|
    requires PageNode(b, id).value.OfPage? && Picks(Sizes(t.seps), k, c)
    ensures var child := ChildId(PageNode(b, id).value, c);
      PathTaken(b, id, t, k, stray) == [c] + PathTaken(b, child, t.kids[c], k, rest)
  {
    var keys :| Sizes(keys) == Sizes(t.seps) && |keys| > 0 && c == Pick(keys, k);
    var child := ChildId(PageNode(b, id).value, c);
    stray := Planted(keys, id, rest);
    PlantedFinds(keys, id, rest);
    WeightBelow(t.kids, c);
    TakenBelow(b, id, t, child, t.kids[c], k, keys, rest);
    TakenLevel(b, id, t, k, stray, c, PathTaken(b, child, t.kids[c], k, rest));
  }

  lemma {:induction false} PlantLeaf(b: Bucket, id: U64, t: Tree, k: Slice, p: Path) returns (stray: Stray)
    requires Represents(b, id, t) && t.Leaf? && SearchMay(b, id, t, k, p)
    ensures PathTaken(b, id, t, k, stray) == p
  {
    stray := (q: int, i: nat, o: nat) => 0;
    if PageNode(b, id).value.OfPage? {
      var keys :| Sizes(keys) == Sizes(EntryKeys(t.entries)) && p[0] == Stop(keys, k);
      PlantedFinds(keys, id, stray);
      stray := Planted(keys, id, stray);
    }
  }

  /** Some bytes lead the search along any path that it may take. */
  lemma {:induction false} PossibleIsTaken(b: Bucket, id: U64, t: Tree, k: Slice, p: Path) returns (stray: Stray)
    requires Represents(b, id, t) && SearchMay(b, id, t, k, p)
    ensures PathTaken(b, id, t, k, stray) == p
    decreases t
  {
    if t.Leaf? {
      stray := PlantLeaf(b, id, t, k, p);
    } else {
      SearchChild(b, id, t, k, p);
      var r, c := PageNode(b, id).value, p[0];
      stray := PossibleIsTaken(b, ChildId(r, c), t.kids[c], k, p[1..]);
      if r.OfPage? {
        stray := PlantBranch(b, id, t, k, c, stray);
      } else {
        TakenLevel(b, id, t, k, stray, c, p[1..]);
      }
    }
  }

  /** The possible paths are exactly those that the search takes with some bytes. */
  lemma {:induction false} PossibleWhenTaken(b: Bucket, id: U64, t: Tree, k: Slice, p: Path)
    requires Represents(b, id, t)
    ensures SearchMay(b, id, t, k, p) <==> exists stray :: PathTaken(b, id, t, k, stray) == p
  {
    if SearchMay(b, id, t, k, p) {
      var stray := PossibleIsTaken(b, id, t, k, p);
    }
    if stray :| PathTaken(b, id, t, k, stray) == p {
      TakenIsPossible(b, id, t, k, stray);
    }
  }

  /** The right path is always among them. */
  lemma {:induction false} TruePathIsPossible(b: Bucket, id: U64, t: Tree, k: Slice)
    requires Represents(b, id, t) && WellFormed(t) && KeysOrdered(t)
    ensures SearchMay(b, id, t, k, SearchPath(t, k))
    decreases t
  {
    var r := PageNode(b, id).value;
    match t
    case Leaf(es) =>
      var keys := EntryKeys(es);
      assert Ordered.Ascending(keys);
      Ordered.HalveIsLowerBound(keys, k);
      assert Stops(Sizes(keys), k, Stop(keys, k));
    case Branch(seps, kids) =>
      var c := ChildFor(seps, k);
      PickIsChildFor(seps, k);
      assert Picks(Sizes(seps), k, Pick(seps, k));
      TruePathIsPossible(b, ChildId(r, c), kids[c], k);
      NonEmptyPath(kids[c], k);
      assert ([c] + SearchPath(kids[c], k))[1..] == SearchPath(kids[c], k);
  }

  lemma {:induction false} NonEmptyPath(t: Tree, k: Slice)
    requires WellFormed(t)
    ensures |SearchPath(t, k)| > 0
  {
  }

  // ---- when a search is reliable ----

  /**
  On a leaf page the key sizes must decide every comparison. On a branch page every child that the
  sizes allow must be one where the key belongs, and be reliable itself.
   */
  predicate Reliable(b: Bucket, id: U64, t: Tree, k: Slice)
    requires Represents(b, id, t)
    decreases t
  {
    var r := PageNode(b, id).value;
    match t
    case Leaf(es) => r.OfNode? || SizesDecide(Sizes(EntryKeys(es)), k)
    case Branch(seps, kids) =>
      if r.OfNode? then var c := ChildFor(seps, k); Reliable(b, ChildId(r, c), kids[c], k)
      else
        forall i :: 0 <= i < |kids| && MayPick(Sizes(seps), k, i) ==>
          Belongs(kids, k, i) && Reliable(b, ChildId(r, i), kids[i], k)
  }

  lemma {:induction false} ReliableLeaf(es: seq<Entry>, k: Slice, j: int)
    requires AscendingEntries(es) && SizesDecide(Sizes(EntryKeys(es)), k) && Stops(Sizes(EntryKeys(es)), k, j)
    ensures j == Ordered.LowerBound(EntryKeys(es), k)
  {
    var keys := EntryKeys(es);
    assert Ordered.Ascending(keys);
    Ordered.HalveIsLowerBound(keys, k);
    SizesDecideWhen(keys, k);
  }

  lemma {:induction false} UnreliableLeaf(es: seq<Entry>, k: Slice) returns (j: int)
    requires AscendingEntries(es) && !SizesDecide(Sizes(EntryKeys(es)), k)
    ensures Stops(Sizes(EntryKeys(es)), k, j) && 0 <= j <= |es| && j != Ordered.LowerBound(EntryKeys(es), k)
  {
    var keys := EntryKeys(es);
    assert Ordered.Ascending(keys);
    Ordered.HalveIsLowerBound(keys, k);
    SizesDecideWhen(keys, k);
    j :| Stops(Sizes(keys), k, j) && j != Stop(keys, k);
    var others :| Sizes(others) == Sizes(keys) && j == Stop(others, k);
    assert |others| == |Sizes(others)|;
  }

  /** What lies ahead of a path through child c. */
  lemma {:induction false} FromBelow(t: Tree, c: nat, q: Path)
    requires t.Branch? && WellFormed(t) && c < |t.kids| && OnTree(t.kids[c], q)
    ensures OnTree(t, [c] + q) && From(t, [c] + q) == From(t.kids[c], q) + FlattenAll(t.kids[c + 1..])
  {
    assert ([c] + q)[1..] == q;
  }

  lemma {:induction false} RightBelow(t: Tree, k: Slice, c: nat, q: Path)
    requires t.Branch? && WellFormed(t) && c < |t.kids| && OnTree(t.kids[c], q) && Belongs(t.kids, k, c)
    ensures OnTree(t, [c] + q)
    ensures From(t.kids[c], q) == AtLeast(Flatten(t.kids[c]), k) ==> From(t, [c] + q) == AtLeast(Flatten(t), k)
    ensures |From(t.kids[c], q)| != |AtLeast(Flatten(t.kids[c]), k)| ==> |From(t, [c] + q)| != |AtLeast(Flatten(t), k)|
  {
    FitDecides(t.kids, k, c);
    FromBelow(t, c, q);
  }

  lemma {:induction false} OrderedChild(t: Tree, i: nat)
    requires t.Branch? && WellFormed(t) && KeysOrdered(t) && i < |t.kids|
    ensures WellFormed(t.kids[i]) && KeysOrdered(t.kids[i])
  {
  }

  /** One level of a search. */
  lemma {:induction false} SearchChild(b: Bucket, id: U64, t: Tree, k: Slice, p: Path)
    requires Represents(b, id, t) && t.Branch? && SearchMay(b, id, t, k, p)
    ensures p == [p[0]] + p[1..] && 0 <= p[0] < |t.kids|
    ensures var child := ChildId(PageNode(b, id).value, p[0]);
      Represents(b, child, t.kids[p[0]]) && SearchMay(b, child, t.kids[p[0]], k, p[1..])
    ensures if PageNode(b, id).value.OfNode? then p[0] == ChildFor(t.seps, k) else Picks(Sizes(t.seps), k, p[0])
  {
  }

  lemma {:induction false} ReliableChild(b: Bucket, id: U64, t: Tree, k: Slice, c: nat)
    requires Represents(b, id, t) && t.Branch? && c < |t.kids| && Reliable(b, id, t, k)
    requires if PageNode(b, id).value.OfNode? then c == ChildFor(t.seps, k) else MayPick(Sizes(t.seps), k, c)
    ensures Reliable(b, ChildId(PageNode(b, id).value, c), t.kids[c], k)
    ensures PageNode(b, id).value.OfPage? ==> Belongs(t.kids, k, c)
  {
  }

  lemma {:induction false} ReliableLeafStops(b: Bucket, id: U64, t: Tree, k: Slice, p: Path)
    requires Represents(b, id, t) && KeysOrdered(t) && t.Leaf?
    requires Reliable(b, id, t, k) && SearchMay(b, id, t, k, p)
    ensures OnTree(t, p) && From(t, p) == AtLeast(Flatten(t), k)
  {
    if PageNode(b, id).value.OfPage? {
      ReliableLeaf(t.entries, k, p[0]);
    }
    SearchLeaf(t.entries, k);
  }

  lemma {:induction false} ReliableStops(b: Bucket, id: U64, t: Tree, k: Slice, p: Path)
    requires Represents(b, id, t) && WellFormed(t) && KeysOrdered(t)
    requires Reliable(b, id, t, k) && SearchMay(b, id, t, k, p)
    ensures OnTree(t, p) && From(t, p) == AtLeast(Flatten(t), k)
    decreases t
  {
    if t.Leaf? {
      ReliableLeafStops(b, id, t, k, p);
    } else {
      SearchChild(b, id, t, k, p);
      OrderedChild(t, p[0]);
      if PageNode(b, id).value.OfNode? {
        ChildFits(t, k);
      } else {
        PicksWhen(Sizes(t.seps), k, p[0]);
      }
      ReliableChild(b, id, t, k, p[0]);
      ReliableStops(b, ChildId(PageNode(b, id).value, p[0]), t.kids[p[0]], k, p[1..]);
      RightBelow(t, k, p[0], p[1..]);
    }
  }

  /** Without that, the search may stop where other entries lie ahead than at the lower bound. */
  lemma {:induction false} StrayStop(b: Bucket, id: U64, t: Tree, k: Slice) returns (p: Path)
    requires Represents(b, id, t) && WellFormed(t) && KeysOrdered(t) && !Reliable(b, id, t, k)
    ensures SearchMay(b, id, t, k, p) && OnTree(t, p) && |From(t, p)| != |AtLeast(Flatten(t), k)|
    decreases t
  {
    var r := PageNode(b, id).value;
    match t
    case Leaf(es) =>
      var j := UnreliableLeaf(es, k);
      SearchLeaf(es, k);
      p := [j];
    case Branch(seps, kids) =>
      var c;
      if r.OfNode? {
        c := ChildFor(seps, k);
        ChildFits(t, k);
      } else {
        c :| 0 <= c < |kids| && MayPick(Sizes(seps), k, c)
          && !(Belongs(kids, k, c) && Reliable(b, ChildId(r, c), kids[c], k));
        PicksWhen(Sizes(seps), k, c);
      }
      var q := StrayBelow(b, id, t, k, c);
      p := [c] + q;
      assert p[1..] == q;
  }

  /** A stray path through child c, where the key does not belong or whose own search strays. */
  lemma {:induction false} StrayBelow(b: Bucket, id: U64, t: Tree, k: Slice, c: nat) returns (q: Path)
    requires Represents(b, id, t) && WellFormed(t) && KeysOrdered(t) && t.Branch? && c < |t.kids|
    requires !(Belongs(t.kids, k, c) && Reliable(b, ChildId(PageNode(b, id).value, c), t.kids[c], k))
    ensures |q| > 0 && SearchMay(b, ChildId(PageNode(b, id).value, c), t.kids[c], k, q)
    ensures OnTree(t, [c] + q) && |From(t, [c] + q)| != |AtLeast(Flatten(t), k)|
    decreases t, 0
  {
    var child := ChildId(PageNode(b, id).value, c);
    if Belongs(t.kids, k, c) {
      q := StrayStop(b, child, t.kids[c], k);
      RightBelow(t, k, c, q);
    } else {
      q := SearchPath(t.kids[c], k);
      TruePathIsPossible(b, child, t.kids[c], k);
      SearchCuts(t.kids[c], k);
      FromBelow(t, c, q);
      FlattenAscends(t);
      MisfitDiffers(t.kids, k, c);
      AtLeastCounts(Flatten(t.kids[c]), k);
    }
  }

  /** A search stops at the lower bound, whatever the stray bytes, exactly when it is reliable. */
  lemma {:induction false} SeekReliableWhen(b: Bucket, id: U64, t: Tree, k: Slice)
    requires Represents(b, id, t) && WellFormed(t) && KeysOrdered(t)
    ensures (forall stray :: From(t, PathTaken(b, id, t, k, stray)) == AtLeast(Flatten(t), k))
       <==> Reliable(b, id, t, k)
  {
    if Reliable(b, id, t, k) {
      forall stray: Stray
        ensures From(t, PathTaken(b, id, t, k, stray)) == AtLeast(Flatten(t), k)
      {
        ReliableTaken(b, id, t, k, stray);
      }
    } else {
      var p := StrayStop(b, id, t, k);
      var stray := PossibleIsTaken(b, id, t, k, p);
    }
  }

  lemma {:induction false} ReliableTaken(b: Bucket, id: U64, t: Tree, k: Slice, stray: Stray)
    requires Represents(b, id, t) && WellFormed(t) && KeysOrdered(t) && Reliable(b, id, t, k)
    ensures From(t, PathTaken(b, id, t, k, stray)) == AtLeast(Flatten(t), k)
  {
    TakenIsPossible(b, id, t, k, stray);
    ReliableStops(b, id, t, k, PathTaken(b, id, t, k, stray));
  }

  // ---- a search that strays ----

  /** A bucket whose root is one leaf page, as `write` lays it out, with one inode. */
  function OneLeafPage(n: INode): Bucket {
    Bucket(3, None, None, map[], map[], map[3 := PageView(3, 2, 1, Encode(true, [n]))])
  }

  lemma {:induction false} OneSizeOpen(k: Slice)
    requires |k| > 0 && k[0] > 0
    ensures !SizesDecide([|k|], k)
  {
    FillIsExtreme(k);
    LessIsLex(Fill(|k|, 255), k);
    LessIsLex(Fill(|k|, 0), k);
    var vs := Verdicts([|k|], k);
    assert vs[0] == Open && Ordered.Middle(0, 1) == 0;
  }

  /** A seek on a written leaf for a key as long as the stored one: some bytes make it stop at the wrong place. */
  lemma {:induction false} SeekStrays(n: INode, k: Slice) returns (stray: Stray)
    requires Size([n]) < 0x1_0000_0000 && |n.key| == |k| > 0 && k[0] > 0
    ensures var b, t := OneLeafPage(n), Leaf([EntryOf(n)]);
      && Represents(b, b.root, t) && WellFormed(t) && KeysOrdered(t) && !Reliable(b, b.root, t, k)
      && From(t, PathTaken(b, b.root, t, k, stray)) != AtLeast(Flatten(t), k)
  {
    var b, t := OneLeafPage(n), Leaf([EntryOf(n)]);
    WrittenLeafIsVertex([n], b.mapped[3], [EntryOf(n)]);
    OneSizeOpen(k);
    assert Sizes(EntryKeys(t.entries)) == [|k|];
    SeekReliableWhen(b, b.root, t, k);
    stray :| From(t, PathTaken(b, b.root, t, k, stray)) != AtLeast(Flatten(t), k);
  }

  // ---- reliable searches ----

  /** Every branch that the search for k goes through is an in-memory node. */
  predicate BranchesCached(b: Bucket, id: U64, t: Tree, k: Slice)
    requires Represents(b, id, t)
    decreases t
  {
    var r := PageNode(b, id).value;
    match t
    case Leaf(_) => true
    case Branch(seps, kids) =>
      var c := ChildFor(seps, k);
      r.OfNode? && BranchesCached(b, ChildId(r, c), kids[c], k)
  }

  /** The leaf that the search for k ends in is an in-memory node or has no entries. */
  predicate LeafCachedOrEmpty(b: Bucket, id: U64, t: Tree, k: Slice)
    requires Represents(b, id, t)
    decreases t
  {
    var r := PageNode(b, id).value;
    match t
    case Leaf(es) => r.OfNode? || es == []
    case Branch(seps, kids) =>
      var c := ChildFor(seps, k);
      LeafCachedOrEmpty(b, ChildId(r, c), kids[c], k)
  }

  /** Over nodes the search is reliable for every key, and takes one path only. */
  lemma {:induction false} CachedSearchIsExact(b: Bucket, id: U64, t: Tree, k: Slice, p: Path)
    requires Represents(b, id, t) && WellFormed(t) && KeysOrdered(t)
    requires BranchesCached(b, id, t, k) && LeafCachedOrEmpty(b, id, t, k)
    ensures Reliable(b, id, t, k)
    ensures SearchMay(b, id, t, k, p) <==> p == SearchPath(t, k)
    decreases t
  {
    var r := PageNode(b, id).value;
    TruePathIsPossible(b, id, t, k);
    match t
    case Leaf(es) =>
      if SearchMay(b, id, t, k, p) {
        if r.OfPage? {
          ReliableLeaf(es, k, p[0]);
        }
        assert p == [p[0]];
      }
    case Branch(seps, kids) =>
      var c := ChildFor(seps, k);
      CachedSearchIsExact(b, ChildId(r, c), kids[c], k, if |p| > 1 then p[1..] else []);
      if SearchMay(b, id, t, k, p) {
        assert p == [c] + p[1..];
      }
  }

  /** A store without pages is reliable for every key. */
  lemma {:induction false} NodesAreReliable(b: Bucket, id: U64, t: Tree, k: Slice)
    requires Represents(b, id, t) && b.inlinePage.None? && b.dirty == map[] && b.mapped == map[]
    ensures Reliable(b, id, t, k) && BranchesCached(b, id, t, k) && LeafCachedOrEmpty(b, id, t, k)
    decreases t
  {
    assert PageNode(b, id).value.OfNode?;
    if t.Branch? {
      var c := ChildFor(t.seps, k);
      ChildStands(b, id, t, c);
      NodesAreReliable(b, ChildId(PageNode(b, id).value, c), t.kids[c], k);
      NodeIsReliable(b, id, t, k, c);
    }
  }

  lemma {:induction false} NodeIsReliable(b: Bucket, id: U64, t: Tree, k: Slice, c: nat)
    requires Represents(b, id, t) && t.Branch? && PageNode(b, id).value.OfNode? && c == ChildFor(t.seps, k)
    requires Reliable(b, ChildId(PageNode(b, id).value, c), t.kids[c], k)
    ensures Reliable(b, id, t, k)
  {
  }

  /** The search for the empty key is reliable on every store, cached or not: no byte can matter. */
  lemma {:induction false} EmptyKeyReliable(b: Bucket, id: U64, t: Tree)
    requires Represents(b, id, t)
    ensures Reliable(b, id, t, [])
    decreases t
  {
    var r := PageNode(b, id).value;
    match t
    case Leaf(es) => EmptyKeyStops(Sizes(EntryKeys(es)), 0, |es|);
    case Branch(seps, kids) =>
      if r.OfNode? {
        var c := ChildFor(seps, []);
        EmptyKeyReliable(b, ChildId(r, c), kids[c]);
      } else {
        EmptyKeyStops(Sizes(seps), 0, |seps|);
        forall i | 0 <= i < |kids| && MayPick(Sizes(seps), [], i)
          ensures Belongs(kids, [], i) && Reliable(b, ChildId(r, i), kids[i], [])
        {
          EmptyKeyFits(kids);
          EmptyKeyReliable(b, ChildId(r, i), kids[i]);
        }
      }
  }

  lemma {:induction false} EmptyKeyFits(kids: seq<Tree>)
    requires |kids| > 0
    ensures Belongs(kids, [], 0)
  {
    assert kids[..0] == [];
    forall e: Entry
      ensures !Less(e.key, [])
    {
      LessIsLex(e.key, []);
    }
  }
}
