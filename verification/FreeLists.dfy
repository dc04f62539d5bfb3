/**
The freelist (bolt/freelist.h, bolt/freelist.cpp): free page ids, page ids that wait for readers to
finish, and a set of both for fast lookup.
 */
module FreeLists {
  import opened Pages

  type Ids = seq<U64>
  type Pending = map<U64, Ids>

  predicate Sorted(s: Ids) {
    forall i, j :: 0 <= i < j < |s| ==> s[i] <= s[j]
  }

  // ---- merging and sorting ----

  /** c holds the elements of a and b, each run in its own order. */
  predicate Interleaves(a: Ids, b: Ids, c: Ids)
    decreases |c|
  {
    if c == [] then a == [] && b == []
    else
      || (a != [] && a[0] == c[0] && Interleaves(a[1..], b, c[1..]))
      || (b != [] && b[0] == c[0] && Interleaves(a, b[1..], c[1..]))
  }

  /**
  What an in-place merge of two runs may yield: an interleaving, which is sorted if both runs are. On
  runs that are not sorted the standard leaves the choice open.
   */
  predicate Merged(a: Ids, b: Ids, c: Ids) {
    Interleaves(a, b, c) && (Sorted(a) && Sorted(b) ==> Sorted(c))
  }

  lemma {:induction false} BagOfCons(s: Ids)
    requires s != []
    ensures multiset(s) == multiset{s[0]} + multiset(s[1..])
  {
    assert s == [s[0]] + s[1..];
  }

  lemma {:induction false} InterleavingKeepsPages(a: Ids, b: Ids, c: Ids)
    requires Interleaves(a, b, c)
    ensures multiset(c) == multiset(a) + multiset(b)
    decreases |c|
  {
    if c != [] {
      BagOfCons(c);
      if a != [] && a[0] == c[0] && Interleaves(a[1..], b, c[1..]) {
        InterleavingKeepsPages(a[1..], b, c[1..]);
        BagOfCons(a);
      } else {
        InterleavingKeepsPages(a, b[1..], c[1..]);
        BagOfCons(b);
      }
    }
  }

  lemma {:induction false} SortedTail(x: U64, s: Ids, r: Ids)
    requires r == [x] + s && Sorted(r)
    ensures Sorted(s) && forall y :: y in s ==> x <= y
  {
    forall i | 0 <= i < |s|
      ensures s[i] == r[i + 1] && x <= s[i]
    {
      assert r[0] <= r[i + 1];
    }
  }

  lemma {:induction false} SortedPush(x: U64, s: Ids, r: Ids)
    requires r == [x] + s && Sorted(s) && forall y :: y in s ==> x <= y
    ensures Sorted(r)
  {
    forall i, j | 0 <= i < j < |r|
      ensures r[i] <= r[j]
    {
      assert r[j] == s[j - 1] && s[j - 1] in s;
    }
  }

  lemma {:induction false} InterleavingMembers(a: Ids, b: Ids, c: Ids)
    requires Interleaves(a, b, c)
    ensures forall y :: y in c <==> y in a || y in b
  {
    InterleavingKeepsPages(a, b, c);
    forall y: U64
      ensures y in c <==> y in a || y in b
    {
      assert y in c <==> y in multiset(c);
      assert y in a <==> y in multiset(a);
      assert y in b <==> y in multiset(b);
    }
  }

  /** An interleaving cannot repair an unsorted run. */
  lemma {:induction false} SortedInterleaving(a: Ids, b: Ids, c: Ids)
    requires Interleaves(a, b, c) && Sorted(c)
    ensures Sorted(a) && Sorted(b)
    decreases |c|
  {
    if c != [] {
      var rest := c[1..];
      assert c == [c[0]] + rest;
      SortedTail(c[0], rest, c);
      if a != [] && a[0] == c[0] && Interleaves(a[1..], b, rest) {
        SortedInterleaving(a[1..], b, rest);
        InterleavingMembers(a[1..], b, rest);
        SortedPush(a[0], a[1..], a);
      } else {
        SortedInterleaving(a, b[1..], rest);
        InterleavingMembers(a, b[1..], rest);
        SortedPush(b[0], b[1..], b);
      }
    }
  }

  /** Whatever order the merge takes: it keeps all pages and is sorted exactly when both runs were. */
  lemma {:induction false} MergeSortedWhen(a: Ids, b: Ids, c: Ids)
    requires Merged(a, b, c)
    ensures multiset(c) == multiset(a) + multiset(b)
    ensures Sorted(c) <==> Sorted(a) && Sorted(b)
  {
    InterleavingKeepsPages(a, b, c);
    if Sorted(c) {
      SortedInterleaving(a, b, c);
    }
  }

  /** The merge from the front takes from the second run only what is smaller. */
  function Merge(a: Ids, b: Ids): Ids
    decreases |a| + |b|
  {
    if a == [] then b
    else if b == [] then a
    else if b[0] < a[0] then [b[0]] + Merge(a, b[1..])
    else [a[0]] + Merge(a[1..], b)
  }

  lemma {:induction false} OneRun(s: Ids)
    ensures Interleaves([], s, s) && Interleaves(s, [], s)
  {
    if s != [] {
      OneRun(s[1..]);
    }
  }

  lemma {:induction false} MergeInterleaves(a: Ids, b: Ids)
    ensures Interleaves(a, b, Merge(a, b))
    decreases |a| + |b|
  {
    OneRun(a);
    OneRun(b);
    if a != [] && b != [] {
      var c := Merge(a, b);
      if b[0] < a[0] {
        MergeInterleaves(a, b[1..]);
        assert c[1..] == Merge(a, b[1..]);
      } else {
        MergeInterleaves(a[1..], b);
        assert c[1..] == Merge(a[1..], b);
      }
    }
  }

  lemma {:induction false} HeadIsLeast(s: Ids)
    requires Sorted(s) && s != []
    ensures Sorted(s[1..]) && forall y :: y in s ==> s[0] <= y
  {
    assert s == [s[0]] + s[1..];
    SortedTail(s[0], s[1..], s);
  }

  lemma {:induction false} MergeSorts(a: Ids, b: Ids)
    requires Sorted(a) && Sorted(b)
    ensures Merged(a, b, Merge(a, b)) && Sorted(Merge(a, b))
    decreases |a| + |b|
  {
    MergeInterleaves(a, b);
    if a != [] && b != [] {
      HeadIsLeast(a);
      HeadIsLeast(b);
      if b[0] < a[0] {
        MergeSorts(a, b[1..]);
        InterleavingMembers(a, b[1..], Merge(a, b[1..]));
        SortedPush(b[0], Merge(a, b[1..]), Merge(a, b));
      } else {
        MergeSorts(a[1..], b);
        InterleavingMembers(a[1..], b, Merge(a[1..], b));
        SortedPush(a[0], Merge(a[1..], b), Merge(a, b));
      }
    }
  }

  /** The merge from the back takes from the first run only what is larger. */
  function MergeBack(a: Ids, b: Ids): Ids
    decreases |a| + |b|
  {
    if a == [] then b
    else if b == [] then a
    else
      var x, y := a[|a| - 1], b[|b| - 1];
      if y < x then MergeBack(a[..|a| - 1], b) + [x] else MergeBack(a, b[..|b| - 1]) + [y]
  }

  /** Appending an element to one run and to the result keeps an interleaving. */
  lemma {:induction false} InterleavesAppend(a: Ids, b: Ids, c: Ids, x: U64)
    requires Interleaves(a, b, c)
    ensures Interleaves(a + [x], b, c + [x]) && Interleaves(a, b + [x], c + [x])
    decreases |c|
  {
    var c' := c + [x];
    if c == [] {
      assert ([] + [x])[1..] == [] && c'[1..] == [];
    } else {
      assert c'[1..] == c[1..] + [x];
      if a != [] && a[0] == c[0] && Interleaves(a[1..], b, c[1..]) {
        InterleavesAppend(a[1..], b, c[1..], x);
        assert (a + [x])[1..] == a[1..] + [x];
      } else {
        InterleavesAppend(a, b[1..], c[1..], x);
        assert (b + [x])[1..] == b[1..] + [x];
      }
    }
  }

  lemma {:induction false} MergeBackInterleaves(a: Ids, b: Ids)
    ensures Interleaves(a, b, MergeBack(a, b))
    decreases |a| + |b|
  {
    OneRun(a);
    OneRun(b);
    if a != [] && b != [] {
      var x, y := a[|a| - 1], b[|b| - 1];
      if y < x {
        MergeBackInterleaves(a[..|a| - 1], b);
        InterleavesAppend(a[..|a| - 1], b, MergeBack(a[..|a| - 1], b), x);
        assert a == a[..|a| - 1] + [x];
      } else {
        MergeBackInterleaves(a, b[..|b| - 1]);
        InterleavesAppend(a, b[..|b| - 1], MergeBack(a, b[..|b| - 1]), y);
        assert b == b[..|b| - 1] + [y];
      }
    }
  }

  lemma {:induction false} LastIsGreatest(s: Ids)
    requires Sorted(s) && s != []
    ensures Sorted(s[..|s| - 1]) && forall y :: y in s ==> y <= s[|s| - 1]
  {
  }

  lemma {:induction false} SortedAppend(s: Ids, x: U64)
    requires Sorted(s) && forall y :: y in s ==> y <= x
    ensures Sorted(s + [x])
  {
    var r := s + [x];
    forall i, j | 0 <= i < j < |r|
      ensures r[i] <= r[j]
    {
      assert r[i] == s[i] && s[i] in s;
    }
  }

  lemma {:induction false} MergeBackSorts(a: Ids, b: Ids)
    requires Sorted(a) && Sorted(b)
    ensures Merged(a, b, MergeBack(a, b)) && Sorted(MergeBack(a, b))
    decreases |a| + |b|
  {
    MergeBackInterleaves(a, b);
    if a != [] && b != [] {
      LastIsGreatest(a);
      LastIsGreatest(b);
      var x, y := a[|a| - 1], b[|b| - 1];
      if y < x {
        MergeBackSorts(a[..|a| - 1], b);
        InterleavingMembers(a[..|a| - 1], b, MergeBack(a[..|a| - 1], b));
        SortedAppend(MergeBack(a[..|a| - 1], b), x);
      } else {
        MergeBackSorts(a, b[..|b| - 1]);
        InterleavingMembers(a, b[..|b| - 1], MergeBack(a, b[..|b| - 1]));
        SortedAppend(MergeBack(a, b[..|b| - 1]), y);
      }
    }
  }

  /** The library buffers the shorter run and merges from its side. */
  method InplaceMerge(a: Ids, b: Ids) returns (c: Ids)
    ensures Merged(a, b, c)
  {
    if |a| <= |b| {
      c := Merge(a, b);
      MergeInterleaves(a, b);
      if Sorted(a) && Sorted(b) {
        MergeSorts(a, b);
      }
    } else {
      c := MergeBack(a, b);
      MergeBackInterleaves(a, b);
      if Sorted(a) && Sorted(b) {
        MergeBackSorts(a, b);
      }
    }
  }

  function Sort(s: Ids): Ids {
    if s == [] then [] else Merge([s[0]], Sort(s[1..]))
  }

  lemma {:induction false} SortSorts(s: Ids)
    ensures Sorted(Sort(s)) && multiset(Sort(s)) == multiset(s)
  {
    if s != [] {
      SortSorts(s[1..]);
      MergeSorts([s[0]], Sort(s[1..]));
      InterleavingKeepsPages([s[0]], Sort(s[1..]), Sort(s));
      BagOfCons(s);
    }
  }

  // ---- pending pages in transaction order ----

  predicate IsLeast(s: set<U64>, m: U64) {
    m in s && forall x :: x in s ==> m <= x
  }

  lemma {:induction false} LeastExists(s: set<U64>)
    requires s != {}
    ensures exists m :: IsLeast(s, m)
    decreases |s|
  {
    var k :| k in s;
    if s == {k} {
      assert IsLeast(s, k);
    } else {
      LeastExists(s - {k});
      var n :| IsLeast(s - {k}, n);
      assert forall x :: x in s ==> x == k || x in s - {k};
      assert IsLeast(s, if k <= n then k else n);
    }
  }

  function Least(s: set<U64>): (m: U64)
    requires s != {}
    ensures IsLeast(s, m)
  {
    LeastExists(s);
    var m :| IsLeast(s, m);
    m
  }

  /** The pages of the given transactions, in ascending transaction order. */
  function PagesOf(pending: Pending, txs: set<U64>): Ids
    requires txs <= pending.Keys
  {
    if txs == {} then []
    else var k := Least(txs); pending[k] + PagesOf(pending, txs - {k})
  }

  /** The transactions whose pages a release up to t sets free. */
  function Due(pending: Pending, t: int): set<U64> {
    set k | k in pending && k <= t
  }

  function Released(pending: Pending, t: int): Ids {
    PagesOf(pending, Due(pending, t))
  }

  /** Splitting the transactions below and above a threshold splits the page list in two. */
  lemma {:induction false} PagesOfSplit(pending: Pending, low: set<U64>, high: set<U64>)
    requires low <= pending.Keys && high <= pending.Keys
    requires forall x, y :: x in low && y in high ==> x < y
    ensures PagesOf(pending, low + high) == PagesOf(pending, low) + PagesOf(pending, high)
    decreases |low|
  {
    if low == {} {
      assert low + high == high;
    } else {
      var k := Least(low);
      assert Least(low + high) == k;
      assert (low + high) - {k} == (low - {k}) + high;
      PagesOfSplit(pending, low - {k}, high);
    }
  }

  lemma {:induction false} PagesOfSame(p: Pending, q: Pending, txs: set<U64>)
    requires txs <= p.Keys && txs <= q.Keys && forall k :: k in txs ==> p[k] == q[k]
    ensures PagesOf(p, txs) == PagesOf(q, txs)
    decreases |txs|
  {
    if txs != {} {
      PagesOfSame(p, q, txs - {Least(txs)});
    }
  }

  /** One transaction's pages can be split off anywhere in the order. */
  lemma {:induction false} PagesOfRemove(pending: Pending, txs: set<U64>, k: U64)
    requires txs <= pending.Keys && k in txs
    ensures multiset(PagesOf(pending, txs)) == multiset(pending[k]) + multiset(PagesOf(pending, txs - {k}))
    decreases |txs|
  {
    var l := Least(txs);
    if l != k {
      PagesOfRemove(pending, txs - {l}, k);
      assert IsLeast(txs - {k}, l);
      assert (txs - {k}) - {l} == (txs - {l}) - {k};
    }
  }

  lemma {:induction false} PagesOfMembers(pending: Pending, txs: set<U64>, x: U64)
    requires txs <= pending.Keys
    ensures x in PagesOf(pending, txs) <==> exists k :: k in txs && x in pending[k]
    decreases |txs|
  {
    if txs != {} {
      PagesOfMembers(pending, txs - {Least(txs)}, x);
    }
  }

  /** Every page that is free or pending, with multiplicity. */
  function Bag(free: multiset<U64>, pending: Pending): multiset<U64> {
    free + multiset(PagesOf(pending, pending.Keys))
  }

  function SetOf(s: Ids): set<U64> {
    set x | x in s
  }

  /** Every page that is free or pending. */
  function PageSet(free: multiset<U64>, pending: Pending): set<U64> {
    set x | x in Bag(free, pending)
  }

  /** What is in the lookup set, page by page. */
  lemma {:induction false} PageSetMembers(free: multiset<U64>, pending: Pending, x: U64)
    ensures x in PageSet(free, pending) <==> Bag(free, pending)[x] > 0
    ensures x in PageSet(free, pending) <==> x in free || exists k :: k in pending && x in pending[k]
  {
    var ps := PagesOf(pending, pending.Keys);
    assert x in ps <==> x in multiset(ps);
    PagesOfMembers(pending, pending.Keys, x);
  }

  lemma {:induction false} CacheMembers(ids: Ids, pending: Pending)
    ensures forall p :: p in PageSet(multiset(ids), pending) <==>
      (p in ids || exists k :: k in pending && p in pending[k])
  {
    forall p: U64
      ensures p in PageSet(multiset(ids), pending) <==> (p in ids || exists k :: k in pending && p in pending[k])
    {
      PageSetMembers(multiset(ids), pending, p);
      assert p in ids <==> p in multiset(ids);
    }
  }

  lemma {:induction false} SetOfNext(s: Ids, i: nat)
    requires i < |s|
    ensures SetOf(s[..i + 1]) == SetOf(s[..i]) + {s[i]}
  {
    assert s[..i + 1] == s[..i] + [s[i]];
  }

  lemma {:induction false} IndexEnds(ids: Ids, pending: Pending)
    ensures SetOf(ids) + SetOf(PagesOf(pending, pending.Keys)) == PageSet(multiset(ids), pending)
  {
    var ps := PagesOf(pending, pending.Keys);
    assert forall x :: x in ids <==> x in multiset(ids);
    assert forall x :: x in ps <==> x in multiset(ps);
  }

  lemma {:induction false} IndexStep(pending: Pending, todo: set<U64>)
    requires todo != {} && todo <= pending.Keys
    ensures var k := Least(todo);
      SetOf(PagesOf(pending, todo)) == SetOf(pending[k]) + SetOf(PagesOf(pending, todo - {k}))
  {
  }

  /** The transactions due are those up to t, and their pages are the released ones. */
  lemma {:induction false} ReleasedPages(pending: Pending, t: int)
    ensures forall k :: k in pending - Due(pending, t) <==> (k in pending && k > t)
    ensures forall p :: p in Released(pending, t) <==> exists k :: k in pending && k <= t && p in pending[k]
  {
    forall p: U64
      ensures p in Released(pending, t) <==> exists k :: k in pending && k <= t && p in pending[k]
    {
      PagesOfMembers(pending, Due(pending, t), p);
    }
  }

  lemma {:induction false} ReleaseMembers(ids: Ids, pending: Pending, t: int, c: Ids)
    requires Merged(ids, Released(pending, t), c)
    ensures forall p :: p in c <==> (p in ids || exists k :: k in pending && k <= t && p in pending[k])
  {
    InterleavingMembers(ids, Released(pending, t), c);
    ReleasedPages(pending, t);
  }

  /** A release keeps the pages: none is lost, none appears, none is doubled. */
  lemma {:induction false} ReleaseConserves(free: multiset<U64>, pending: Pending, t: int)
    ensures Bag(free + multiset(Released(pending, t)), pending - Due(pending, t)) == Bag(free, pending)
  {
    var due := Due(pending, t);
    var rest := pending.Keys - due;
    assert pending.Keys == due + rest;
    PagesOfSplit(pending, due, rest);
    assert (pending - due).Keys == rest;
    PagesOfSame(pending, pending - due, rest);
  }

  /** Two pages freed in the wrong order by two transactions: no merge can come out sorted. */
  lemma {:induction false} ReleaseUnsorted(ids: Ids, c: Ids)
    ensures var pending: Pending := map[1 := [5], 2 := [3]];
      Released(pending, 2) == [5, 3] && (Merged(ids, Released(pending, 2), c) ==> !Sorted(c))
  {
    var pending: Pending := map[1 := [5], 2 := [3]];
    assert Due(pending, 2) == {1, 2};
    assert Least({1, 2}) == 1 && {1, 2} - {1} == {2};
    assert Least({2}) == 2 && {2} - {2} == {};
    assert PagesOf(pending, {2}) == [3] + [];
    assert [5, 3][0] > [5, 3][1];
    if Merged(ids, [5, 3], c) {
      MergeSortedWhen(ids, [5, 3], c);
    }
  }

  // ---- loading ----

  /** The count of a freelist page whose first word holds the real count. */
  const OVERFLOW_MARK: U32 := 0xFFFF

  /** How many ids a freelist page announces; the overflow mark sends the reader to the first word. */
  function StoredCount(count: U32, words: Ids): int
    requires count == OVERFLOW_MARK ==> |words| > 0
  {
    if count == OVERFLOW_MARK then words[0] else count
  }

  predicate Loadable(count: U32, words: Ids) {
    (count == OVERFLOW_MARK ==> |words| > 0) && StoredCount(count, words) <= |words|
  }

  /** The words that `read` takes over. */
  function LoadedWords(count: U32, words: Ids): Ids
    requires Loadable(count, words)
  {
    var n := StoredCount(count, words);
    if n == 0 then [] else words[if count == OVERFLOW_MARK then 1 else 0..n]
  }

  /** The words that the page stores: an overflowing list starts after its count. */
  function StoredWords(count: U32, words: Ids): Ids
    requires Loadable(count, words) && (count == OVERFLOW_MARK ==> words[0] < |words|)
  {
    if count == OVERFLOW_MARK then words[1..words[0] + 1] else words[..count]
  }

  /** All stored ids are loaded exactly when the page does not overflow or stores none. */
  lemma {:induction false} LoadCompleteWhen(count: U32, words: Ids)
    requires if count == 0xFFFF then words != [] && words[0] < |words| else count <= |words|
    ensures multiset(LoadedWords(count, words)) == multiset(StoredWords(count, words)) <==>
            count != 0xFFFF || words[0] == 0
    ensures StoredWords(count, words) == if count == 0xFFFF then words[1..words[0] + 1] else words[..count]
    ensures count == 0xFFFF && words[0] > 0 ==>
            StoredWords(count, words) == LoadedWords(count, words) + [words[words[0]]]
  {
    var l, s := LoadedWords(count, words), StoredWords(count, words);
    if count == OVERFLOW_MARK && words[0] > 0 {
      assert |multiset(l)| == |l| && |multiset(s)| == |s|;
    }
  }

  class FreeList {
    var ids: Ids
    var pending: Pending
    var cache: set<U64>

    constructor ()
      ensures ids == [] && pending == map[] && cache == {}
    {
      ids, pending, cache := [], map[], {};
    }

    /** The lookup set is exactly the free and the pending pages. */
    ghost predicate CacheOk()
      reads this
    {
      cache == PageSet(multiset(ids), pending)
    }

    /**
    Moves the pages of every transaction up to txid to the free list. No page is lost, the lookup set
    stays right untouched, and the list stays sorted exactly when the released pages ascend.
     */
    method Release(txid: U64)
      modifies this`ids, this`pending
      ensures pending == old(pending) - Due(old(pending), txid)
      ensures forall k :: k in pending <==> (k in old(pending) && k > txid)
      ensures forall k :: k in pending ==> pending[k] == old(pending)[k]
      ensures forall p :: p in ids <==>
        (p in old(ids) || exists k :: k in old(pending) && k <= txid && p in old(pending)[k])
      ensures Merged(old(ids), Released(old(pending), txid), ids)
      ensures multiset(ids) == multiset(old(ids)) + multiset(Released(old(pending), txid))
      ensures Bag(multiset(ids), pending) == old(Bag(multiset(ids), pending))
      ensures old(CacheOk()) ==> CacheOk()
      ensures Sorted(ids) <==> Sorted(old(ids)) && Sorted(Released(old(pending), txid))
    {
      ghost var before := pending;
      var m := CollectDue(txid);
      ReleaseConserves(multiset(ids), before, txid);
      ReleasedPages(before, txid);
      var c := InplaceMerge(ids, m);
      MergeSortedWhen(ids, m, c);
      ReleaseMembers(ids, before, txid, c);
      ids := c;
    }

    /** The loop of `release`: walks the transactions in ascending order and takes out those due. */
    method CollectDue(txid: U64) returns (m: Ids)
      modifies this`pending
      ensures pending == old(pending) - Due(old(pending), txid)
      ensures m == Released(old(pending), txid)
    {
      ghost var before := pending;
      ghost var due := Due(before, txid);
      m := [];
      var todo := pending.Keys;
      CollectEnds(before, due);
      while todo != {}
        invariant todo <= before.Keys
        invariant pending == before - (due - todo)
        invariant m + PagesOf(before, todo * due) == Released(before, txid)
        decreases |todo|
      {
        var k := Least(todo);
        CollectStep(before, due, todo, k);
        if k <= txid {
          ghost var m0 := m;
          m := m + pending[k];
          pending := pending - {k};
          assert m0 + (before[k] + PagesOf(before, (todo - {k}) * due)) == m + PagesOf(before, (todo - {k}) * due);
        }
        todo := todo - {k};
      }
      CollectEnds(before, due);
    }

    /** Rebuilds the lookup set from the free and the pending pages. */
    method Reindex()
      modifies this`cache
      ensures CacheOk()
      ensures forall p :: p in cache <==> (p in ids || exists k :: k in pending && p in pending[k])
    {
      CacheMembers(ids, pending);
      Rebuild();
    }

    method Rebuild()
      modifies this`cache
      ensures CacheOk()
    {
      cache := {};
      for i := 0 to |ids|
        invariant cache == SetOf(ids[..i])
      {
        SetOfNext(ids, i);
        cache := cache + {ids[i]};
      }
      var todo := pending.Keys;
      IndexEnds(ids, pending);
      assert ids[..|ids|] == ids;
      while todo != {}
        invariant todo <= pending.Keys
        invariant cache + SetOf(PagesOf(pending, todo)) == PageSet(multiset(ids), pending)
        decreases |todo|
      {
        var k := Least(todo);
        IndexStep(pending, todo);
        cache := cache + SetOf(pending[k]);
        todo := todo - {k};
      }
    }

    /** What the header promises of `rollback`: the pages of one transaction are no longer set aside. */
    method DropPending(txid: U64)
      modifies this`pending, this`cache
      ensures pending == old(pending) - {txid} && CacheOk()
      ensures forall p :: p in cache <==> (p in ids || exists k :: k in pending && p in pending[k])
    {
      pending := pending - {txid};
      Reindex();
    }

    /** Takes over a stored list, sorts it and rebuilds the lookup set. */
    method Read(count: U32, words: Ids)
      requires if count == 0xFFFF then words != [] && words[0] <= |words| else count <= |words|
      modifies this`ids, this`cache
      ensures multiset(ids) == multiset(old(ids)) + multiset(LoadedWords(count, words))
      ensures LoadedWords(count, words) ==
        if count != 0xFFFF then words[..count] else if words[0] == 0 then [] else words[1..words[0]]
      ensures StoredCount(count, words) > 0 || Sorted(old(ids)) ==> Sorted(ids)
      ensures Sorted(ids) <==> forall i, j :: 0 <= i < j < |ids| ==> ids[i] <= ids[j]
      ensures CacheOk()
      ensures forall p :: p in cache <==> (p in ids || exists k :: k in pending && p in pending[k])
    {
      var idx, n: int := 0, count;
      if n == OVERFLOW_MARK {
        idx := 1;
        n := words[0];
      }
      if n > 0 {
        var all := ids + words[idx..n];
        SortSorts(all);
        ids := Sort(all);
      }
      Reindex();
    }
  }

  /** The least transaction still to be visited comes first among those due. */
  lemma {:induction false} DueFirst(pending: Pending, todo: set<U64>, due: set<U64>, k: U64)
    requires todo <= pending.Keys && due <= pending.Keys && k in todo && k in due
    requires forall x :: x in todo ==> k <= x
    ensures PagesOf(pending, todo * due) == pending[k] + PagesOf(pending, (todo - {k}) * due)
  {
    assert k in todo * due;
    assert IsLeast(todo * due, k);
    assert (todo * due) - {k} == (todo - {k}) * due;
  }

  lemma {:induction false} CollectStep(before: Pending, due: set<U64>, todo: set<U64>, k: U64)
    requires todo <= before.Keys && due <= before.Keys && IsLeast(todo, k)
    ensures k in due ==> k in before - (due - todo) && (before - (due - todo))[k] == before[k]
    ensures k in due ==> (before - (due - todo)) - {k} == before - (due - (todo - {k}))
    ensures k in due ==> PagesOf(before, todo * due) == before[k] + PagesOf(before, (todo - {k}) * due)
    ensures k !in due ==> (todo - {k}) * due == todo * due && due - (todo - {k}) == due - todo
  {
    if k in due {
      DueFirst(before, todo, due, k);
      assert due - (todo - {k}) == (due - todo) + {k};
    }
  }

  lemma {:induction false} CollectEnds(before: Pending, due: set<U64>)
    requires due <= before.Keys
    ensures before.Keys * due == due && due - before.Keys == {} && before - {} == before
    ensures {} * due == {} && due - {} == due
  {
  }
}
