/**
Searching among keys of which only the sizes are known (bolt/cursor.cpp, `nsearch`, `searchPage`;
bolt/page.cpp, `key`).

On a page the source searches copies of the elements. A copy keeps its key size, but it looks for the
key bytes next to itself, so they can be anything. Which results can the search have, and when is
there only one?
 */
module Strays {
  import opened Slices
  import opened Ordered

  // ---- what a size says ----

  /** A key of n equal bytes. */
  function Fill(n: nat, b: Byte): (r: Slice)
    ensures |r| == n
  {
    if n == 0 then [] else [b] + Fill(n - 1, b)
  }

  lemma {:induction false} FillIsExtreme(x: Slice)
    ensures !Lex(x, Fill(|x|, 0)) && !Lex(Fill(|x|, 255), x)
  {
    if x != [] {
      FillIsExtreme(x[1..]);
    }
  }

  /** How the keys of one size compare with k: all are below it, none is, or it depends on the bytes. */
  datatype Verdict = Always | Never | Open

  function SizeVerdict(n: nat, k: Slice): Verdict {
    if Less(Fill(n, 255), k) then Always else if !Less(Fill(n, 0), k) then Never else Open
  }

  lemma {:induction false} SizeDecides(x: Slice, k: Slice)
    ensures Less(Fill(|x|, 255), k) ==> Less(x, k)
    ensures Less(x, k) ==> Less(Fill(|x|, 0), k)
    ensures Less(k, x) ==> Less(k, Fill(|x|, 255))
  {
    var lo, hi := Fill(|x|, 0), Fill(|x|, 255);
    FillIsExtreme(x);
    LessIsLex(x, lo);
    LessIsLex(hi, x);
    if Less(hi, k) && !Less(x, k) {
      LessThenNotLess(hi, k, x);
    }
    if Less(x, k) && !Less(lo, k) {
      LessThenNotLess(x, k, lo);
    }
    if Less(k, x) {
      LessThenNotLess(k, x, hi);
    }
  }

  /** The verdict is exact. */
  lemma {:induction false} SizeVerdictWhen(n: nat, k: Slice)
    ensures SizeVerdict(n, k) == Always <==> forall x: Slice :: |x| == n ==> Less(x, k)
    ensures SizeVerdict(n, k) == Never <==> forall x: Slice :: |x| == n ==> !Less(x, k)
  {
    forall x: Slice | |x| == n
      ensures Less(Fill(n, 255), k) ==> Less(x, k)
      ensures Less(x, k) ==> Less(Fill(n, 0), k)
    {
      SizeDecides(x, k);
    }
  }

  function Sizes(keys: seq<Slice>): (r: seq<nat>)
    ensures |r| == |keys| && forall i :: 0 <= i < |keys| ==> r[i] == |keys[i]|
  {
    seq(|keys|, i requires 0 <= i < |keys| => |keys[i]|)
  }

  /** What lies in memory where the copy of a page's element looks for a byte of its key: page, element, offset. */
  type Stray = (int, nat, nat) -> Byte

  function StrayKeys(sizes: seq<nat>, page: int, stray: Stray): (keys: seq<Slice>)
    ensures Sizes(keys) == sizes && |keys| == |sizes|
    ensures forall i, o :: 0 <= i < |keys| && 0 <= o < |keys[i]| ==> keys[i][o] == stray(page, i, o)
  {
    seq(|sizes|, i requires 0 <= i < |sizes| => seq(sizes[i], (o: nat) => stray(page, i, o)))
  }

  /** Memory in which the copies of one page find the given keys, and those of other pages what `rest` has. */
  function Planted(keys: seq<Slice>, page: int, rest: Stray): Stray {
    (q: int, i: nat, o: nat) => if q == page && i < |keys| && o < |keys[i]| then keys[i][o] else rest(q, i, o)
  }

  lemma {:induction false} PlantedFinds(keys: seq<Slice>, page: int, rest: Stray)
    ensures StrayKeys(Sizes(keys), page, Planted(keys, page, rest)) == keys
  {
    var found := StrayKeys(Sizes(keys), page, Planted(keys, page, rest));
    forall i | 0 <= i < |keys|
      ensures found[i] == keys[i]
    {
      assert |found[i]| == Sizes(found)[i] == |keys[i]|;
    }
  }

  lemma {:induction false} PlantedElsewhere(keys: seq<Slice>, page: int, rest: Stray, sizes: seq<nat>, q: int)
    requires q != page
    ensures StrayKeys(sizes, q, Planted(keys, page, rest)) == StrayKeys(sizes, q, rest)
  {
    var x, y := StrayKeys(sizes, q, Planted(keys, page, rest)), StrayKeys(sizes, q, rest);
    forall i | 0 <= i < |sizes|
      ensures x[i] == y[i]
    {
      assert |x[i]| == Sizes(x)[i] == Sizes(y)[i] == |y[i]|;
    }
  }

  function Verdicts(sizes: seq<nat>, k: Slice): (vs: seq<Verdict>)
    ensures |vs| == |sizes| && forall i :: 0 <= i < |vs| ==> vs[i] == SizeVerdict(sizes[i], k)
  {
    seq(|sizes|, i requires 0 <= i < |sizes| => SizeVerdict(sizes[i], k))
  }

  predicate Allows(v: Verdict, below: bool) {
    v == Open || (v == Always <==> below)
  }

  predicate Agrees(vs: seq<Verdict>, bs: seq<bool>) {
    |bs| == |vs| && forall i :: 0 <= i < |bs| ==> Allows(vs[i], bs[i])
  }

  lemma {:induction false} KeysAgree(keys: seq<Slice>, k: Slice)
    ensures Agrees(Verdicts(Sizes(keys), k), Below(keys, k))
  {
    forall i | 0 <= i < |keys|
      ensures Allows(SizeVerdict(|keys[i]|, k), Less(keys[i], k))
    {
      SizeDecides(keys[i], k);
    }
  }

  /** Keys of the given sizes whose comparisons come out as wanted: the least and the greatest ones. */
  function KeysFor(sizes: seq<nat>, bs: seq<bool>): (keys: seq<Slice>)
    requires |bs| == |sizes|
    ensures |keys| == |sizes| && forall i :: 0 <= i < |keys| ==> keys[i] == Fill(sizes[i], if bs[i] then 0 else 255)
    ensures Sizes(keys) == sizes
  {
    seq(|sizes|, i requires 0 <= i < |sizes| => Fill(sizes[i], if bs[i] then 0 else 255))
  }

  lemma {:induction false} KeysForWorks(sizes: seq<nat>, k: Slice, bs: seq<bool>)
    requires Agrees(Verdicts(sizes, k), bs)
    ensures Below(KeysFor(sizes, bs), k) == bs
  {
    var keys := KeysFor(sizes, bs);
    forall i | 0 <= i < |keys|
      ensures Less(keys[i], k) == bs[i]
    {
      assert Allows(Verdicts(sizes, k)[i], bs[i]);
      SizeDecides(Fill(sizes[i], 255), k);
    }
  }

  // ---- searching by verdicts ----

  /** Every comparison that the search makes is decided. */
  predicate Decided(vs: seq<Verdict>, lo: nat, hi: nat)
    requires lo <= hi <= |vs|
    decreases hi - lo
  {
    lo == hi ||
    var m := Middle(lo, hi);
    match vs[m]
    case Always => Decided(vs, m + 1, hi)
    case Never => Decided(vs, lo, m)
    case Open => false
  }

  lemma {:induction false} DecidedSame(vs: seq<Verdict>, x: seq<bool>, y: seq<bool>, lo: nat, hi: nat)
    requires Agrees(vs, x) && Agrees(vs, y) && lo <= hi <= |vs| && Decided(vs, lo, hi)
    ensures Halve(x, lo, hi) == Halve(y, lo, hi)
    decreases hi - lo
  {
    if lo < hi {
      var m := Middle(lo, hi);
      assert Allows(vs[m], x[m]) && Allows(vs[m], y[m]);
      if vs[m] == Always {
        DecidedSame(vs, x, y, m + 1, hi);
      } else {
        DecidedSame(vs, x, y, lo, m);
      }
    }
  }

  /** Where a comparison on the way is open, its other outcome sends the search elsewhere. */
  lemma {:induction false} UndecidedDiffers(vs: seq<Verdict>, x: seq<bool>, lo: nat, hi: nat) returns (y: seq<bool>)
    requires Agrees(vs, x) && lo <= hi <= |vs| && !Decided(vs, lo, hi)
    ensures Agrees(vs, y) && Halve(y, lo, hi) != Halve(x, lo, hi)
    decreases hi - lo
  {
    var m := Middle(lo, hi);
    assert Allows(vs[m], x[m]);
    if vs[m] == Open {
      y := x[m := !x[m]];
      assert forall i :: 0 <= i < |y| ==> i == m || y[i] == x[i];
    } else {
      if x[m] {
        y := UndecidedDiffers(vs, x, m + 1, hi);
      } else {
        y := UndecidedDiffers(vs, x, lo, m);
      }
      assert Allows(vs[m], y[m]);
    }
  }

  /** The search can stop at j: no comparison on the way there is decided against it. */
  predicate MayStop(vs: seq<Verdict>, lo: nat, hi: nat, j: int)
    requires lo <= hi <= |vs|
    decreases hi - lo
  {
    if lo == hi then j == lo
    else
      var m := Middle(lo, hi);
      Allows(vs[m], m < j) && if m < j then MayStop(vs, m + 1, hi, j) else MayStop(vs, lo, m, j)
  }

  lemma {:induction false} StopMay(vs: seq<Verdict>, bs: seq<bool>, lo: nat, hi: nat)
    requires Agrees(vs, bs) && lo <= hi <= |vs|
    ensures MayStop(vs, lo, hi, Halve(bs, lo, hi))
    decreases hi - lo
  {
    if lo < hi {
      var m := Middle(lo, hi);
      assert Allows(vs[m], bs[m]);
      if bs[m] {
        StopMay(vs, bs, m + 1, hi);
      } else {
        StopMay(vs, bs, lo, m);
      }
    }
  }

  /** The outcomes that lead to j, as far as the verdicts leave them open. */
  function Towards(vs: seq<Verdict>, j: int): (bs: seq<bool>)
    ensures |bs| == |vs|
    ensures forall i :: 0 <= i < |bs| ==> bs[i] == (vs[i] == Always || (vs[i] == Open && i < j))
    ensures Agrees(vs, bs)
  {
    seq(|vs|, i requires 0 <= i < |vs| => vs[i] == Always || (vs[i] == Open && i < j))
  }

  lemma {:induction false} TowardsStops(vs: seq<Verdict>, lo: nat, hi: nat, j: int)
    requires lo <= hi <= |vs| && MayStop(vs, lo, hi, j)
    ensures Halve(Towards(vs, j), lo, hi) == j
    decreases hi - lo
  {
    if lo < hi {
      var m := Middle(lo, hi);
      if m < j {
        TowardsStops(vs, m + 1, hi, j);
      } else {
        TowardsStops(vs, lo, m, j);
      }
    }
  }

  // ---- stopping in a leaf ----

  function Stop(keys: seq<Slice>, k: Slice): (j: nat)
    ensures j <= |keys| && (j < |keys| ==> !Less(keys[j], k))
  {
    Halve(Below(keys, k), 0, |keys|)
  }

  /** Some keys of these sizes make the search stop at j. */
  ghost predicate Stops(sizes: seq<nat>, k: Slice, j: int) {
    exists keys :: Sizes(keys) == sizes && j == Stop(keys, k)
  }

  predicate SizesDecide(sizes: seq<nat>, k: Slice) {
    Decided(Verdicts(sizes, k), 0, |sizes|)
  }

  /** The search can stop at j exactly when no size on the way decides against it. */
  lemma {:induction false} StopsWhen(sizes: seq<nat>, k: Slice, j: int)
    ensures Stops(sizes, k, j) <==> MayStop(Verdicts(sizes, k), 0, |sizes|, j)
  {
    var vs := Verdicts(sizes, k);
    if Stops(sizes, k, j) {
      var keys :| Sizes(keys) == sizes && j == Stop(keys, k);
      KeysAgree(keys, k);
      StopMay(vs, Below(keys, k), 0, |sizes|);
    }
    if MayStop(vs, 0, |sizes|, j) {
      var keys := StoppingKeys(sizes, k, j);
    }
  }

  lemma {:induction false} StoppingKeys(sizes: seq<nat>, k: Slice, j: int) returns (keys: seq<Slice>)
    requires MayStop(Verdicts(sizes, k), 0, |sizes|, j)
    ensures Sizes(keys) == sizes && Stop(keys, k) == j
    ensures 0 <= j < |keys| ==> keys[j] == Fill(sizes[j], 255)
  {
    var vs := Verdicts(sizes, k);
    var bs := Towards(vs, j);
    TowardsStops(vs, 0, |sizes|, j);
    KeysForWorks(sizes, k, bs);
    keys := KeysFor(sizes, bs);
  }

  /** The search has one result, that of the true keys, exactly when the sizes decide every comparison. */
  lemma {:induction false} SizesDecideWhen(keys: seq<Slice>, k: Slice)
    ensures (forall j :: Stops(Sizes(keys), k, j) ==> j == Stop(keys, k)) <==> SizesDecide(Sizes(keys), k)
  {
    var sizes := Sizes(keys);
    var vs, bs := Verdicts(sizes, k), Below(keys, k);
    KeysAgree(keys, k);
    if SizesDecide(sizes, k) {
      forall j | Stops(sizes, k, j)
        ensures j == Stop(keys, k)
      {
        var others :| Sizes(others) == sizes && j == Stop(others, k);
        KeysAgree(others, k);
        assert |others| == |Sizes(others)|;
        DecidedSame(vs, bs, Below(others, k), 0, |sizes|);
      }
    } else {
      var other := UndecidedDiffers(vs, bs, 0, |sizes|);
      KeysForWorks(sizes, k, other);
      assert Stops(sizes, k, Stop(KeysFor(sizes, other), k));
    }
  }

  // ---- choosing a child ----

  /** The child that `searchNode` and `searchPage` descend into, whatever the order of the keys. */
  function Pick(keys: seq<Slice>, k: Slice): (i: nat)
    requires |keys| > 0
    ensures i < |keys|
  {
    var j := Stop(keys, k);
    if !(j < |keys| && Equal(keys[j], k)) && j > 0 then j - 1 else j
  }

  /** Some keys of these sizes make the search descend into child i. */
  ghost predicate Picks(sizes: seq<nat>, k: Slice, i: int) {
    exists keys :: Sizes(keys) == sizes && |keys| > 0 && i == Pick(keys, k)
  }

  /** The search can stop at i with the key itself there, or right after i without it. */
  predicate MayPick(sizes: seq<nat>, k: Slice, i: int) {
    && 0 <= i < |sizes|
    && (|| (MayStop(Verdicts(sizes, k), 0, |sizes|, i) && (i == 0 || sizes[i] == |k|))
        || (MayStop(Verdicts(sizes, k), 0, |sizes|, i + 1) && (i + 1 == |sizes| || Fill(sizes[i + 1], 255) != k)))
  }

  lemma {:induction false} PickMay(keys: seq<Slice>, k: Slice)
    requires |keys| > 0
    ensures MayPick(Sizes(keys), k, Pick(keys, k))
  {
    var sizes, j := Sizes(keys), Stop(keys, k);
    KeysAgree(keys, k);
    StopMay(Verdicts(sizes, k), Below(keys, k), 0, |sizes|);
    if j < |keys| {
      EqualIsSame(keys[j], k);
      if keys[j] != k {
        LessTrichotomy(keys[j], k);
        SizeDecides(keys[j], k);
        LessTrichotomy(k, Fill(|keys[j]|, 255));
      }
    }
  }

  lemma {:induction false} StopAtKey(sizes: seq<nat>, k: Slice, i: nat) returns (keys: seq<Slice>)
    requires i < |sizes| && sizes[i] == |k| && MayStop(Verdicts(sizes, k), 0, |sizes|, i)
    ensures Sizes(keys) == sizes && Pick(keys, k) == i
  {
    var ks := StoppingKeys(sizes, k, i);
    keys := ks[i := k];
    assert |ks| == |Sizes(ks)|;
    assert Sizes(keys) == sizes;
    LessTrichotomy(k, k);
    EqualIsSame(k, k);
    assert Below(keys, k) == Below(ks, k);
  }

  lemma {:induction false} PickingKeys(sizes: seq<nat>, k: Slice, i: nat) returns (keys: seq<Slice>)
    requires MayPick(sizes, k, i)
    ensures Sizes(keys) == sizes && |keys| > 0 && Pick(keys, k) == i
  {
    if MayStop(Verdicts(sizes, k), 0, |sizes|, i + 1) && (i + 1 == |sizes| || Fill(sizes[i + 1], 255) != k) {
      keys := StoppingKeys(sizes, k, i + 1);
      if i + 1 < |sizes| {
        EqualIsSame(keys[i + 1], k);
      }
    } else if sizes[i] == |k| {
      keys := StopAtKey(sizes, k, i);
    } else {
      keys := StoppingKeys(sizes, k, i);
    }
    assert |keys| == |Sizes(keys)|;
  }

  /** The search can descend into child i exactly when the sizes allow a stop there. */
  lemma {:induction false} PicksWhen(sizes: seq<nat>, k: Slice, i: int)
    ensures Picks(sizes, k, i) <==> MayPick(sizes, k, i)
  {
    if Picks(sizes, k, i) {
      var keys :| Sizes(keys) == sizes && |keys| > 0 && i == Pick(keys, k);
      PickMay(keys, k);
    }
    if MayPick(sizes, k, i) {
      var keys := PickingKeys(sizes, k, i);
    }
  }

  // ---- the empty key ----

  /** Nothing is below the empty key, so no byte matters: the search stops at the front. */
  lemma {:induction false} EmptyKeyStops(sizes: seq<nat>, lo: nat, hi: nat)
    requires lo <= hi <= |sizes|
    ensures Decided(Verdicts(sizes, []), lo, hi)
    ensures forall j :: MayStop(Verdicts(sizes, []), lo, hi, j) <==> j == lo
    decreases hi - lo
  {
    if lo < hi {
      var m := Middle(lo, hi);
      LessIsLex(Fill(sizes[m], 255), []);
      LessIsLex(Fill(sizes[m], 0), []);
      EmptyKeyStops(sizes, lo, m);
    }
  }
}
