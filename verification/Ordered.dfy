/**
Binary search over ascending keys, and the inode vector of a node as an ordered finite map
(bolt/node.cpp, `get`, `put`, `del`, `childIndex`).
 */
module Ordered {
  import opened Slices
  import opened Pages
  import opened NodeCodec

  predicate Ascending(keys: seq<Slice>) {
    forall i, j :: 0 <= i < j < |keys| ==> Less(keys[i], keys[j])
  }

  /** The first position whose key is not below k. */
  function LowerBound(keys: seq<Slice>, k: Slice): (i: nat)
    ensures i <= |keys| && (i < |keys| ==> !Less(keys[i], k))
    ensures forall j :: 0 <= j < i ==> Less(keys[j], k)
  {
    if keys == [] || !Less(keys[0], k) then 0
    else
      var r := LowerBound(keys[1..], k);
      assert forall j :: 1 <= j < r + 1 ==> keys[j] == keys[1..][j - 1];
      r + 1
  }

  /** From the lower bound on, no key is below k; so the lower bound is the only such cut. */
  lemma {:induction false} LowerBoundCuts(keys: seq<Slice>, k: Slice)
    requires Ascending(keys)
    ensures forall j :: LowerBound(keys, k) <= j < |keys| ==> !Less(keys[j], k)
  {
    var i := LowerBound(keys, k);
    forall j | i < j < |keys|
      ensures !Less(keys[j], k)
    {
      if Less(keys[j], k) {
        LessTransitive(keys[i], keys[j], k);
      }
    }
  }

  /** Which keys are below k. */
  function Below(keys: seq<Slice>, k: Slice): (bs: seq<bool>)
    ensures |bs| == |keys| && forall i :: 0 <= i < |keys| ==> bs[i] == Less(keys[i], k)
  {
    seq(|keys|, i requires 0 <= i < |keys| => Less(keys[i], k))
  }

  function Middle(lo: nat, hi: nat): (m: nat)
    requires lo < hi
    ensures lo <= m < hi
  {
    lo + (hi - lo) / 2
  }

  /** The halving search of the standard library on lo .. hi, by the outcomes of its comparisons. */
  function Halve(bs: seq<bool>, lo: nat, hi: nat): (r: nat)
    requires lo <= hi <= |bs|
    ensures lo <= r <= hi
    ensures r < hi ==> !bs[r]
    decreases hi - lo
  {
    if lo == hi then lo
    else
      var m := Middle(lo, hi);
      if bs[m] then Halve(bs, m + 1, hi) else Halve(bs, lo, m)
  }

  /** If the outcomes cut the range in two, the search finds the cut. */
  lemma {:induction false} HalveFindsCut(bs: seq<bool>, cut: nat, lo: nat, hi: nat)
    requires lo <= cut <= hi <= |bs|
    requires forall i :: 0 <= i < |bs| ==> bs[i] == (i < cut)
    ensures Halve(bs, lo, hi) == cut
    decreases hi - lo
  {
    if lo < hi {
      var m := Middle(lo, hi);
      if bs[m] {
        HalveFindsCut(bs, cut, m + 1, hi);
      } else {
        HalveFindsCut(bs, cut, lo, m);
      }
    }
  }

  /** On ascending keys the halving search finds the lower bound. */
  lemma {:induction false} HalveIsLowerBound(keys: seq<Slice>, k: Slice)
    requires Ascending(keys)
    ensures Halve(Below(keys, k), 0, |keys|) == LowerBound(keys, k)
  {
    LowerBoundCuts(keys, k);
    HalveFindsCut(Below(keys, k), LowerBound(keys, k), 0, |keys|);
  }

  /** The search asks the middle element and goes on in the half that the outcome leaves. */
  lemma {:induction false} HalveHalves(bs: seq<bool>, lo: nat, hi: nat)
    requires lo <= hi <= |bs|
    ensures lo == hi ==> Halve(bs, lo, hi) == lo
    ensures lo < hi ==> var m := lo + (hi - lo) / 2;
      Halve(bs, lo, hi) == if bs[m] then Halve(bs, m + 1, hi) else Halve(bs, lo, m)
  {
  }

  /** One turn of the search. */
  lemma {:induction false} HalveStep(bs: seq<bool>, lo: nat, hi: nat, m: nat, r: nat)
    requires lo < hi <= |bs| && m == Middle(lo, hi) && Halve(bs, lo, hi) == r
    ensures if bs[m] then Halve(bs, m + 1, hi) == r else Halve(bs, lo, m) == r
  {
  }

  /** `std::lower_bound` over keys in any order. */
  method HalvingSearch(keys: seq<Slice>, k: Slice) returns (first: nat)
    ensures first == Halve(Below(keys, k), 0, |keys|)
  {
    ghost var bs := Below(keys, k);
    ghost var hi: nat, r: nat := |keys|, Halve(bs, 0, |keys|);
    first := 0;
    var len: nat := |keys|;
    while len > 0
      invariant first + len == hi <= |bs| && Halve(bs, first, hi) == r
    {
      var half := len / 2;
      var middle := first + half;
      HalveStep(bs, first, hi, middle, r);
      if Less(keys[middle], k) {
        first := middle + 1;
        len := len - half - 1;
      } else {
        len := half;
        hi := middle;
      }
    }
  }

  /** `std::lower_bound` over ascending keys. */
  method FindLowerBound(keys: seq<Slice>, k: Slice) returns (first: nat)
    requires Ascending(keys)
    ensures first == LowerBound(keys, k)
  {
    HalveIsLowerBound(keys, k);
    first := HalvingSearch(keys, k);
  }

  // ---- the inode vector ----

  function Keys(ns: seq<INode>): (ks: seq<Slice>)
    ensures |ks| == |ns| && forall i :: 0 <= i < |ns| ==> ks[i] == ns[i].key
  {
    seq(|ns|, i requires 0 <= i < |ns| => ns[i].key)
  }

  predicate Sorted(ns: seq<INode>) {
    forall i, j :: 0 <= i < j < |ns| ==> Less(ns[i].key, ns[j].key)
  }

  function Slot(ns: seq<INode>, k: Slice): (i: nat)
    ensures i <= |ns|
  {
    LowerBound(Keys(ns), k)
  }

  predicate Exact(ns: seq<INode>, k: Slice) {
    var i := Slot(ns, k);
    i < |ns| && Equal(ns[i].key, k)
  }

  function PutAt(ns: seq<INode>, oldKey: Slice, n: INode): seq<INode> {
    var i := Slot(ns, oldKey);
    if Exact(ns, oldKey) then ns[i := n] else ns[..i] + [n] + ns[i..]
  }

  /** Both ways of putting replace the slot's content, which is one inode or none. */
  lemma {:induction false} PutReplacesSlot(ns: seq<INode>, oldKey: Slice, n: INode)
    ensures var i := Slot(ns, oldKey);
      var next := if Exact(ns, oldKey) then i + 1 else i;
      PutAt(ns, oldKey, n) == ns[..i] + [n] + ns[next..]
  {
  }

  function Without(ns: seq<INode>, k: Slice): seq<INode> {
    var i := Slot(ns, k);
    if Exact(ns, k) then ns[..i] + ns[i + 1..] else ns
  }

  /** The finite map that an inode vector stands for; a later inode would shadow an earlier one. */
  function AsMap(ns: seq<INode>): map<Slice, INode> {
    if ns == [] then map[] else var n := ns[|ns| - 1]; AsMap(ns[..|ns| - 1])[n.key := n]
  }

  lemma {:induction false} AsMapJoins(a: seq<INode>, b: seq<INode>)
    ensures AsMap(a + b) == AsMap(a) + AsMap(b)
  {
    if b == [] {
      assert a + b == a;
    } else {
      var m := |b| - 1;
      assert (a + b)[..|a| + m] == a + b[..m];
      AsMapJoins(a, b[..m]);
    }
  }

  lemma {:induction false} AsMapKeys(ns: seq<INode>, k: Slice)
    ensures k in AsMap(ns) <==> exists i :: 0 <= i < |ns| && ns[i].key == k
    ensures k in AsMap(ns) ==> AsMap(ns)[k] in ns && AsMap(ns)[k].key == k
  {
    if ns != [] {
      AsMapKeys(ns[..|ns| - 1], k);
      assert ns[|ns| - 1] in ns;
      assert forall n :: n in ns[..|ns| - 1] ==> n in ns;
    }
  }

  lemma {:induction false} Distinct(ns: seq<INode>)
    requires Sorted(ns)
    ensures forall i, j :: 0 <= i < |ns| && 0 <= j < |ns| && ns[i].key == ns[j].key ==> i == j
  {
    forall i, j | 0 <= i < j < |ns|
      ensures ns[i].key != ns[j].key
    {
      LessTrichotomy(ns[i].key, ns[j].key);
    }
  }

  /** Where a key's slot is: everything before is below, everything after is above. */
  lemma {:induction false} SlotSplits(ns: seq<INode>, k: Slice)
    requires Sorted(ns)
    ensures var i := Slot(ns, k);
      && (forall j :: 0 <= j < i ==> Less(ns[j].key, k) && ns[j].key != k)
      && (Exact(ns, k) <==> i < |ns| && ns[i].key == k)
      && (forall j :: i < j < |ns| || (j == i < |ns| && !Exact(ns, k)) ==> Less(k, ns[j].key) && ns[j].key != k)
  {
    var i := Slot(ns, k);
    LowerBoundCuts(Keys(ns), k);
    if i < |ns| {
      EqualIsSame(ns[i].key, k);
    }
    forall j | 0 <= j < |ns|
      ensures j < i ==> ns[j].key != k
      ensures j > i || (j == i && !Exact(ns, k)) ==> Less(k, ns[j].key) && ns[j].key != k
    {
      LessTrichotomy(ns[j].key, k);
      if j > i {
        LessTrichotomy(ns[i].key, k);
        assert Less(ns[i].key, ns[j].key);
      }
    }
  }

  /** Lookup finds exactly the keys of the map. */
  lemma {:induction false} ExactIsMember(ns: seq<INode>, k: Slice)
    requires Sorted(ns)
    ensures Exact(ns, k) <==> k in AsMap(ns)
    ensures Exact(ns, k) ==> AsMap(ns)[k] == ns[Slot(ns, k)]
  {
    SlotSplits(ns, k);
    AsMapKeys(ns, k);
    Distinct(ns);
  }

  /** The map of a vector that is cut around one place, where no other inode holds the key k. */
  lemma {:induction false} CutAround(a: seq<INode>, x: seq<INode>, c: seq<INode>, k: Slice)
    requires |x| <= 1 && (x != [] ==> x[0].key == k)
    requires forall j :: 0 <= j < |a| ==> a[j].key != k
    requires forall j :: 0 <= j < |c| ==> c[j].key != k
    ensures k !in AsMap(a) + AsMap(c)
    ensures AsMap(a + x + c) == if x == [] then AsMap(a) + AsMap(c) else (AsMap(a) + AsMap(c))[k := x[0]]
  {
    AsMapJoins(a + x, c);
    AsMapJoins(a, x);
    AsMapKeys(a, k);
    AsMapKeys(c, k);
    if x != [] {
      assert AsMap(x) == map[k := x[0]] by {
        assert x[..0] == [];
      }
    }
  }

  /** The new key fits strictly between the neighbours of the slot that the old key selects. */
  predicate FitsSlot(ns: seq<INode>, oldKey: Slice, k: Slice) {
    var i := Slot(ns, oldKey);
    var next := if Exact(ns, oldKey) then i + 1 else i;
    && (i > 0 ==> Less(ns[i - 1].key, k))
    && (next < |ns| ==> Less(k, ns[next].key))
  }

  lemma {:induction false} BetweenNeighbours(ns: seq<INode>, i: nat, next: nat, n: INode, r: seq<INode>)
    requires Sorted(ns) && i <= next <= |ns| && r == ns[..i] + [n] + ns[next..]
    requires forall j :: 0 <= j < i ==> Less(ns[j].key, n.key)
    requires forall j :: next <= j < |ns| ==> Less(n.key, ns[j].key)
    ensures Sorted(r)
  {
    forall x, y | 0 <= x < y < |r|
      ensures Less(r[x].key, r[y].key)
    {
      assert x < i ==> r[x] == ns[x];
      assert y < i ==> r[y] == ns[y];
      assert x > i ==> r[x] == ns[next + (x - i - 1)];
      assert y > i ==> r[y] == ns[next + (y - i - 1)];
    }
  }

  /** A put that renames keeps the vector sorted exactly when the new key fits the old key's slot. */
  lemma {:induction false} RenameKeepsOrder(ns: seq<INode>, oldKey: Slice, n: INode)
    requires Sorted(ns)
    ensures Sorted(PutAt(ns, oldKey, n)) <==> FitsSlot(ns, oldKey, n.key)
  {
    var i := Slot(ns, oldKey);
    var r := PutAt(ns, oldKey, n);
    var next := if Exact(ns, oldKey) then i + 1 else i;
    PutReplacesSlot(ns, oldKey, n);
    if FitsSlot(ns, oldKey, n.key) {
      forall j | 0 <= j < i
        ensures Less(ns[j].key, n.key)
      {
        if j < i - 1 {
          LessTransitive(ns[j].key, ns[i - 1].key, n.key);
        }
      }
      forall j | next <= j < |ns|
        ensures Less(n.key, ns[j].key)
      {
        if j > next {
          LessTransitive(n.key, ns[next].key, ns[j].key);
        }
      }
      BetweenNeighbours(ns, i, next, n, r);
    } else if i > 0 && !Less(ns[i - 1].key, n.key) {
      assert !Less(r[i - 1].key, r[i].key);
    } else {
      assert r[i + 1] == ns[next];
      assert !Less(r[i].key, r[i + 1].key);
    }
  }

  /** The map after such a put: the old key is gone and the new inode is there. */
  lemma {:induction false} RenameIsMapUpdate(ns: seq<INode>, oldKey: Slice, n: INode)
    requires Sorted(ns) && Sorted(PutAt(ns, oldKey, n))
    ensures AsMap(PutAt(ns, oldKey, n)) == (AsMap(ns) - {oldKey})[n.key := n]
  {
    RenameParts(ns, oldKey, n);
    var i := Slot(ns, oldKey);
    var next := if Exact(ns, oldKey) then i + 1 else i;
    Replace(ns[..i], ns[i..next], ns[next..], oldKey, n);
  }

  /** The two vectors share all parts but the slot, and no shared part holds the old or the new key. */
  lemma {:induction false} RenameParts(ns: seq<INode>, oldKey: Slice, n: INode)
    requires Sorted(ns) && Sorted(PutAt(ns, oldKey, n))
    ensures var i := Slot(ns, oldKey);
      var next := if Exact(ns, oldKey) then i + 1 else i;
      var a, x, c := ns[..i], ns[i..next], ns[next..];
      && PutAt(ns, oldKey, n) == a + [n] + c && ns == a + x + c
      && |x| <= 1 && (x != [] ==> x[0].key == oldKey)
      && (forall j :: 0 <= j < |a| ==> a[j].key != n.key && a[j].key != oldKey)
      && (forall j :: 0 <= j < |c| ==> c[j].key != n.key && c[j].key != oldKey)
  {
    PutReplacesSlot(ns, oldKey, n);
    SlotCut(ns, oldKey);
    var i := Slot(ns, oldKey);
    RestDiffers(ns[..i], n, ns[if Exact(ns, oldKey) then i + 1 else i..]);
  }

  /** The vector cut at the slot of k: only the middle part, at most one inode, holds k. */
  lemma {:induction false} SlotCut(ns: seq<INode>, k: Slice)
    requires Sorted(ns)
    ensures var i := Slot(ns, k);
      var next := if Exact(ns, k) then i + 1 else i;
      var a, x, c := ns[..i], ns[i..next], ns[next..];
      && ns == a + x + c && |x| <= 1 && (x != [] ==> x[0].key == k)
      && (forall j :: 0 <= j < |a| ==> a[j].key != k)
      && (forall j :: 0 <= j < |c| ==> c[j].key != k)
  {
    SlotSplits(ns, k);
  }

  lemma {:induction false} RestDiffers(a: seq<INode>, n: INode, c: seq<INode>)
    requires Sorted(a + [n] + c)
    ensures forall j :: 0 <= j < |a| ==> a[j].key != n.key
    ensures forall j :: 0 <= j < |c| ==> c[j].key != n.key
  {
    var r := a + [n] + c;
    Distinct(r);
    assert r[|a|] == n;
    assert forall j :: 0 <= j < |a| ==> a[j] == r[j];
    assert forall j :: 0 <= j < |c| ==> c[j] == r[|a| + 1 + j];
  }

  lemma {:induction false} Replace(a: seq<INode>, x: seq<INode>, c: seq<INode>, k: Slice, n: INode)
    requires |x| <= 1 && (x != [] ==> x[0].key == k)
    requires forall j :: 0 <= j < |a| ==> a[j].key != n.key && a[j].key != k
    requires forall j :: 0 <= j < |c| ==> c[j].key != n.key && c[j].key != k
    ensures AsMap(a + [n] + c) == (AsMap(a + x + c) - {k})[n.key := n]
  {
    CutAround(a, [n], c, n.key);
    Remove(a, x, c, k);
  }

  lemma {:induction false} Remove(a: seq<INode>, x: seq<INode>, c: seq<INode>, k: Slice)
    requires |x| <= 1 && (x != [] ==> x[0].key == k)
    requires forall j :: 0 <= j < |a| ==> a[j].key != k
    requires forall j :: 0 <= j < |c| ==> c[j].key != k
    ensures AsMap(a + c) == AsMap(a) + AsMap(c) == AsMap(a + x + c) - {k}
  {
    CutAround(a, x, c, k);
    AsMapJoins(a, c);
  }

  lemma {:induction false} OwnSlotFits(ns: seq<INode>, k: Slice)
    requires Sorted(ns)
    ensures FitsSlot(ns, k, k)
  {
    SlotSplits(ns, k);
  }

  /** Putting a key under itself is a map update. */
  lemma {:induction false} PutIsMapUpdate(ns: seq<INode>, n: INode)
    requires Sorted(ns)
    ensures Sorted(PutAt(ns, n.key, n))
    ensures AsMap(PutAt(ns, n.key, n)) == AsMap(ns)[n.key := n]
  {
    OwnSlotFits(ns, n.key);
    RenameKeepsOrder(ns, n.key, n);
    RenameIsMapUpdate(ns, n.key, n);
    assert (AsMap(ns) - {n.key})[n.key := n] == AsMap(ns)[n.key := n];
  }

  lemma {:induction false} DropKeepsOrder(ns: seq<INode>, i: nat)
    requires Sorted(ns) && i < |ns|
    ensures Sorted(ns[..i] + ns[i + 1..])
  {
    var r := ns[..i] + ns[i + 1..];
    forall p, q | 0 <= p < q < |r|
      ensures Less(r[p].key, r[q].key)
    {
      var p', q' := if p < i then p else p + 1, if q < i then q else q + 1;
      assert r[p] == ns[p'] && r[q] == ns[q'];
    }
  }

  lemma {:induction false} DelKeepsOrder(ns: seq<INode>, k: Slice)
    requires Sorted(ns)
    ensures Sorted(Without(ns, k))
  {
    var i := Slot(ns, k);
    if Exact(ns, k) {
      DropKeepsOrder(ns, i);
    }
  }

  /** Deleting is map removal; deleting an absent key changes nothing. */
  lemma {:induction false} DelIsMapRemoval(ns: seq<INode>, k: Slice)
    requires Sorted(ns)
    ensures AsMap(Without(ns, k)) == AsMap(ns) - {k}
    ensures Without(ns, k) == ns <==> k !in AsMap(ns)
  {
    ExactIsMember(ns, k);
    if Exact(ns, k) {
      SlotCut(ns, k);
      var i := Slot(ns, k);
      Remove(ns[..i], ns[i..i + 1], ns[i + 1..], k);
      assert |Without(ns, k)| == |ns| - 1;
    }
  }

  // ---- whole runs of node operations ----

  datatype Op = Get(key: Slice) | Put(oldKey: Slice, n: INode) | Del(key: Slice)
  datatype Reply = Found(value: Slice) | Missing | Done | Died

  /** `put` terminates the process on a missing meta page, an id at or above the high-water mark or an empty key. */
  predicate PutAllowed(meta: Option<nat>, id: U64, oldKey: Slice, k: Slice) {
    meta.Some? && id < meta.value && oldKey != [] && k != []
  }

  function Apply(ns: seq<INode>, meta: Option<nat>, op: Op): (Reply, seq<INode>) {
    match op
    case Get(k) => if Exact(ns, k) then (Found(ns[Slot(ns, k)].value), ns) else (Missing, ns)
    case Put(o, n) => if PutAllowed(meta, n.id, o, n.key) then (Done, PutAt(ns, o, n)) else (Died, ns)
    case Del(k) => if k != [] then (Done, Without(ns, k)) else (Died, ns)
  }

  function MapApply(m: map<Slice, INode>, meta: Option<nat>, op: Op): (Reply, map<Slice, INode>) {
    match op
    case Get(k) => if k in m then (Found(m[k].value), m) else (Missing, m)
    case Put(o, n) => if PutAllowed(meta, n.id, o, n.key) then (Done, (m - {o})[n.key := n]) else (Died, m)
    case Del(k) => if k != [] then (Done, m - {k}) else (Died, m)
  }

  function Run(ns: seq<INode>, meta: Option<nat>, ops: seq<Op>): (seq<Reply>, seq<INode>)
    decreases |ops|
  {
    if ops == [] then ([], ns)
    else
      var (r, ns') := Apply(ns, meta, ops[0]);
      if r.Died? then ([r], ns')
      else var (rs, last) := Run(ns', meta, ops[1..]); ([r] + rs, last)
  }

  function MapRun(m: map<Slice, INode>, meta: Option<nat>, ops: seq<Op>): (seq<Reply>, map<Slice, INode>)
    decreases |ops|
  {
    if ops == [] then ([], m)
    else
      var (r, m') := MapApply(m, meta, ops[0]);
      if r.Died? then ([r], m')
      else var (rs, last) := MapRun(m', meta, ops[1..]); ([r] + rs, last)
  }

  /** Every other key differs from the new key and compares with it as with the old one. */
  predicate SamePlace(m: map<Slice, INode>, oldKey: Slice, k: Slice) {
    forall x :: x in m && x != oldKey ==> x != k && (Less(x, k) <==> Less(x, oldKey))
  }

  /** Which side of a key's slot an inode is on. */
  lemma {:induction false} SlotSide(ns: seq<INode>, oldKey: Slice, j: nat)
    requires Sorted(ns) && j < |ns| && ns[j].key != oldKey
    ensures j < Slot(ns, oldKey) <==> Less(ns[j].key, oldKey)
    ensures j >= Slot(ns, oldKey) ==> j >= if Exact(ns, oldKey) then Slot(ns, oldKey) + 1 else Slot(ns, oldKey)
  {
    SlotSplits(ns, oldKey);
    LessTrichotomy(ns[j].key, oldKey);
  }

  lemma {:induction false} FitKeepsPlace(ns: seq<INode>, oldKey: Slice, k: Slice, j: nat)
    requires Sorted(ns) && FitsSlot(ns, oldKey, k) && j < |ns| && ns[j].key != oldKey
    ensures ns[j].key != k && (Less(ns[j].key, k) <==> Less(ns[j].key, oldKey))
  {
    var i := Slot(ns, oldKey);
    var next := if Exact(ns, oldKey) then i + 1 else i;
    SlotSide(ns, oldKey, j);
    LessTrichotomy(ns[j].key, k);
    if j < i {
      if j < i - 1 {
        LessTransitive(ns[j].key, ns[i - 1].key, k);
      }
    } else if j > next {
      LessTransitive(k, ns[next].key, ns[j].key);
    }
  }

  /** A new key fits the old key's slot exactly when it takes its place among the keys of the map. */
  lemma {:induction false} FitsWhenSamePlace(ns: seq<INode>, oldKey: Slice, k: Slice)
    requires Sorted(ns)
    ensures FitsSlot(ns, oldKey, k) <==> SamePlace(AsMap(ns), oldKey, k)
  {
    if FitsSlot(ns, oldKey, k) {
      forall x | x in AsMap(ns) && x != oldKey
        ensures x != k && (Less(x, k) <==> Less(x, oldKey))
      {
        AsMapKeys(ns, x);
        var j :| 0 <= j < |ns| && ns[j].key == x;
        FitKeepsPlace(ns, oldKey, k, j);
      }
    } else {
      var i := Slot(ns, oldKey);
      var j := if i > 0 && !Less(ns[i - 1].key, k) then i - 1 else if Exact(ns, oldKey) then i + 1 else i;
      SlotSplits(ns, oldKey);
      SlotSide(ns, oldKey, j);
      LessTrichotomy(ns[j].key, k);
      AsMapKeys(ns, ns[j].key);
    }
  }

  /** Every put that the run gets to renames within its key's place. */
  predicate PlacesKept(m: map<Slice, INode>, meta: Option<nat>, ops: seq<Op>)
    decreases |ops|
  {
    ops == [] ||
    var (r, m') := MapApply(m, meta, ops[0]);
    || r.Died?
    || ((ops[0].Put? ==> SamePlace(m, ops[0].oldKey, ops[0].n.key)) && PlacesKept(m', meta, ops[1..]))
  }

  /** The vector is sorted before and after every operation that the run gets to. */
  predicate SortedThroughout(ns: seq<INode>, meta: Option<nat>, ops: seq<Op>)
    decreases |ops|
  {
    Sorted(ns) && (ops == [] ||
    var (r, ns') := Apply(ns, meta, ops[0]);
    r.Died? || SortedThroughout(ns', meta, ops[1..]))
  }

  lemma {:induction false} PutRefinesMap(ns: seq<INode>, oldKey: Slice, n: INode)
    requires Sorted(ns)
    ensures Sorted(PutAt(ns, oldKey, n)) <==> SamePlace(AsMap(ns), oldKey, n.key)
    ensures Sorted(PutAt(ns, oldKey, n)) ==> AsMap(PutAt(ns, oldKey, n)) == (AsMap(ns) - {oldKey})[n.key := n]
  {
    RenameKeepsOrder(ns, oldKey, n);
    FitsWhenSamePlace(ns, oldKey, n.key);
    if Sorted(PutAt(ns, oldKey, n)) {
      RenameIsMapUpdate(ns, oldKey, n);
    }
  }

  /** One operation answers as the map does; the order survives exactly a kept place, and then so does the map. */
  predicate OpRefines(ns: seq<INode>, meta: Option<nat>, op: Op) {
    var (r, ns') := Apply(ns, meta, op);
    var (q, m) := MapApply(AsMap(ns), meta, op);
    && q == r && (Sorted(ns') ==> m == AsMap(ns'))
    && (Sorted(ns') <==> r.Died? || (op.Put? ==> SamePlace(AsMap(ns), op.oldKey, op.n.key)))
  }

  lemma {:induction false} GetRefines(ns: seq<INode>, meta: Option<nat>, k: Slice)
    requires Sorted(ns)
    ensures OpRefines(ns, meta, Get(k))
  {
    ExactIsMember(ns, k);
  }

  lemma {:induction false} PutRefines(ns: seq<INode>, meta: Option<nat>, oldKey: Slice, n: INode)
    requires Sorted(ns)
    ensures OpRefines(ns, meta, Put(oldKey, n))
  {
    PutRefinesMap(ns, oldKey, n);
  }

  lemma {:induction false} DelRefines(ns: seq<INode>, meta: Option<nat>, k: Slice)
    requires Sorted(ns)
    ensures OpRefines(ns, meta, Del(k))
  {
    DelIsMapRemoval(ns, k);
    DelKeepsOrder(ns, k);
  }

  lemma {:induction false} ApplyRefinesMap(ns: seq<INode>, meta: Option<nat>, op: Op)
    requires Sorted(ns)
    ensures OpRefines(ns, meta, op)
  {
    match op
    case Get(k) => GetRefines(ns, meta, k);
    case Put(oldKey, n) => PutRefines(ns, meta, oldKey, n);
    case Del(k) => DelRefines(ns, meta, k);
  }

  /**
  A run of gets, puts, renaming puts and deletes keeps the vector sorted throughout exactly when every
  rename takes the old key's place in the map; and then it answers as the finite map would.
   */
  lemma {:induction false} RunRefinesMap(ns: seq<INode>, meta: Option<nat>, ops: seq<Op>)
    requires Sorted(ns)
    ensures SortedThroughout(ns, meta, ops) <==> PlacesKept(AsMap(ns), meta, ops)
    ensures PlacesKept(AsMap(ns), meta, ops) ==> Sorted(Run(ns, meta, ops).1)
    ensures PlacesKept(AsMap(ns), meta, ops) ==>
      MapRun(AsMap(ns), meta, ops) == (Run(ns, meta, ops).0, AsMap(Run(ns, meta, ops).1))
    decreases |ops|
  {
    if ops != [] {
      ApplyRefinesMap(ns, meta, ops[0]);
      var (r, ns') := Apply(ns, meta, ops[0]);
      if !r.Died? && Sorted(ns') {
        RunRefinesMap(ns', meta, ops[1..]);
      }
    }
  }

  /** Putting keys under themselves always keeps their places, so every run without renames refines the map. */
  lemma {:induction false} OwnPutsKeepPlaces(m: map<Slice, INode>, meta: Option<nat>, ops: seq<Op>)
    requires forall op :: op in ops && op.Put? ==> op.oldKey == op.n.key
    ensures PlacesKept(m, meta, ops)
    decreases |ops|
  {
    if ops != [] {
      assert ops[0] in ops;
      assert forall op :: op in ops[1..] ==> op in ops;
      OwnPutsKeepPlaces(MapApply(m, meta, ops[0]).1, meta, ops[1..]);
    }
  }

  // ---- children and siblings ----

  /** Index of the child whose first key is k among a parent's inodes, or -1. */
  function ChildIndex(parent: seq<INode>, k: Slice): int {
    if Exact(parent, k) then Slot(parent, k) else -1
  }

  function NextSiblingIndex(parent: seq<INode>, k: Slice): Option<int> {
    var i := ChildIndex(parent, k);
    if i < 0 || i >= |parent| - 1 then None else Some(i + 1)
  }

  function PrevSiblingIndex(parent: seq<INode>, k: Slice): Option<int> {
    var i := ChildIndex(parent, k);
    if i <= 0 then None else Some(i - 1)
  }

  lemma {:induction false} ChildIndexFinds(parent: seq<INode>, k: Slice, i: nat)
    requires Sorted(parent) && i < |parent|
    ensures ChildIndex(parent, k) == i <==> parent[i].key == k
    ensures ChildIndex(parent, k) == -1 <==> k !in AsMap(parent)
  {
    SlotSplits(parent, k);
    ExactIsMember(parent, k);
    Distinct(parent);
  }

  /** Next and previous sibling undo each other and stop exactly at the two ends. */
  lemma {:induction false} SiblingsInverse(parent: seq<INode>, a: nat, b: nat)
    requires Sorted(parent) && a < |parent| && b < |parent|
    ensures NextSiblingIndex(parent, parent[a].key) == Some(b) <==> b == a + 1
    ensures PrevSiblingIndex(parent, parent[b].key) == Some(a) <==> b == a + 1
    ensures NextSiblingIndex(parent, parent[a].key) == None <==> a == |parent| - 1
    ensures PrevSiblingIndex(parent, parent[a].key) == None <==> a == 0
  {
    ChildIndexFinds(parent, parent[a].key, a);
    ChildIndexFinds(parent, parent[b].key, b);
  }
}
