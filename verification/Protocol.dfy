/**
Transactions and the freelist as a step protocol (bolt/db.cpp, bolt/tx.cpp, bolt/freelist.cpp).

Each step is what one caller does under the locks it holds. The bodies of page allocation, page
freeing and of a full commit are missing in the source; they appear as steps that follow the promises
in its headers. `FreeList::rollback` and `DB::remove_tx` have empty bodies, so `Rollback` takes a flag:
true follows their header promises, false follows the empty bodies. A reader that stays tracked after
it was closed has lost its meta page; `Scribble` lets any value appear there.
 */
module Protocol {
  import opened Slices
  import opened Pages
  import opened FreeLists

  const MAX_TXID: U64 := 0xFFFF_FFFF_FFFF_FFFF

  /** A transaction object; `unlocks` counts how often it has released the writer lock. */
  datatype TxRec = TxRec(writable: bool, txid: U64, open: bool, unlocks: nat)

  /**
  The database: `txs` are all transactions ever begun, `readers` the tracked read transactions. The
  free pages count without their order. `tag` is history: the writer that freed a page last.
   */
  datatype State = State(readOnly: bool, isOpened: bool, metaTxid: U64, txs: seq<TxRec>, readers: seq<nat>,
                         rwtx: Option<nat>, rwlock: bool,
                         ids: multiset<U64>, pending: Pending, cache: set<U64>, tag: map<U64, U64>)

  datatype Step =
    | BeginRead
    | BeginWrite
    | FreePage(page: U64)
    | Allocate(page: U64)
    | Commit
    | CommitAsWritten(tx: nat)
    | Rollback(tx: nat, contract: bool)
    | Scribble(tx: nat, id: U64)

  function NextTxid(t: U64): U64 {
    (t + 1) % 0x1_0000_0000_0000_0000
  }

  predicate Within(readers: seq<nat>, n: nat) {
    forall h :: h in readers ==> h < n
  }

  /** The least transaction id among the tracked readers, starting from the largest value. */
  function OldestReader(txs: seq<TxRec>, readers: seq<nat>): (m: U64)
    requires Within(readers, |txs|)
    ensures forall h :: h in readers ==> m <= txs[h].txid
    ensures m == MAX_TXID || exists h :: h in readers && txs[h].txid == m
  {
    if readers == [] then MAX_TXID
    else
      var n := |readers| - 1;
      assert readers[n] in readers && forall h :: h in readers[..n] ==> h in readers;
      var m := OldestReader(txs, readers[..n]);
      assert forall h :: h in readers ==> h in readers[..n] || h == readers[n];
      if txs[readers[n]].txid < m then txs[readers[n]].txid else m
  }

  lemma {:induction false} OldestNext(txs: seq<TxRec>, readers: seq<nat>, i: nat)
    requires i < |readers| && Within(readers, |txs|)
    ensures Within(readers[..i], |txs|) && Within(readers[..i + 1], |txs|) && readers[i] < |txs|
    ensures OldestReader(txs, readers[..i + 1]) ==
      var m := OldestReader(txs, readers[..i]);
      if txs[readers[i]].txid < m then txs[readers[i]].txid else m
  {
    assert readers[..i + 1][..i] == readers[..i];
    assert readers[i] in readers;
    WithinPrefix(readers, |txs|, i);
    WithinPrefix(readers, |txs|, i + 1);
  }

  lemma {:induction false} WithinPrefix(readers: seq<nat>, n: nat, i: nat)
    requires i <= |readers| && Within(readers, n)
    ensures Within(readers[..i], n)
  {
    forall h | h in readers[..i]
      ensures h < n
    {
      assert h in readers;
    }
  }

  predicate Handles(s: State) {
    && Within(s.readers, |s.txs|)
    && (forall h :: h in s.readers ==> !s.txs[h].writable)
    && (s.rwtx.Some? ==> s.rwtx.value < |s.txs|)
  }

  function StartRead(s: State): State {
    if s.isOpened then s
    else s.(txs := s.txs + [TxRec(false, s.metaTxid, true, 0)], readers := s.readers + [|s.txs|])
  }

  function ReleaseUpTo(s: State, t: U64): State {
    s.(ids := s.ids + multiset(Released(s.pending, t)), pending := s.pending - Due(s.pending, t))
  }

  /** Pages of transactions before the oldest reader become free; reader 0 keeps everything. */
  function ReleaseOld(s: State, minid: U64): State {
    if minid > 0 then ReleaseUpTo(s, minid - 1) else s
  }

  /** The state in which a new writer has the lock but has released nothing yet. */
  function WithWriter(s: State): State {
    s.(txs := s.txs + [TxRec(true, NextTxid(s.metaTxid), true, 0)], rwtx := Some(|s.txs|), rwlock := true)
  }

  /** The writer waits while the lock is held, so the step then changes nothing. */
  function StartWrite(s: State): State
    requires Handles(s)
  {
    if s.readOnly || s.rwlock || s.isOpened then s
    else ReleaseOld(WithWriter(s), OldestReader(s.txs, s.readers))
  }

  /** Marks a transaction closed; a writer also gives the lock back. */
  function CloseTx(s: State, h: nat): State
    requires h < |s.txs|
  {
    if !s.txs[h].open then s
    else if s.txs[h].writable then
      s.(txs := s.txs[h := s.txs[h].(open := false, unlocks := s.txs[h].unlocks + 1)], rwtx := None, rwlock := false)
    else s.(txs := s.txs[h := s.txs[h].(open := false)])
  }

  /** The oldest reader stands for all: below it is below the largest id and below every tracked reader. */
  lemma {:induction false} BelowOldest(txs: seq<TxRec>, readers: seq<nat>, k: U64)
    requires Within(readers, |txs|)
    ensures k < OldestReader(txs, readers) <==>
            k < 0xFFFF_FFFF_FFFF_FFFF && forall h :: h in readers ==> k < txs[h].txid
  {
  }

  lemma {:induction false} ReleaseFrees(s: State, minid: U64, p: U64)
    ensures p in ReleaseOld(s, minid).ids <==>
            p in s.ids || exists k :: k in s.pending && p in s.pending[k] && k < minid
  {
    if minid > 0 {
      var ps := Released(s.pending, minid - 1);
      assert p in multiset(ps) <==> p in ps;
      PagesOfMembers(s.pending, Due(s.pending, minid - 1), p);
    }
  }

  lemma {:induction false} ReleaseKeeps(s: State, minid: U64, k: U64)
    ensures k in ReleaseOld(s, minid).pending <==> k in s.pending && !(k < minid)
    ensures k in ReleaseOld(s, minid).pending ==> ReleaseOld(s, minid).pending[k] == s.pending[k]
  {
  }

  /**
  A starting writer frees exactly the pages of transactions that lie below the largest id and below every
  tracked reader; the pages of all other transactions stay set aside as they are.
   */
  lemma {:induction false} StartWriteFrees(s: State)
    requires Handles(s) && !s.readOnly && !s.rwlock && !s.isOpened
    ensures forall p :: p in StartWrite(s).ids <==>
      (p in s.ids || exists k | k in s.pending && p in s.pending[k] ::
        k < 0xFFFF_FFFF_FFFF_FFFF && forall h | h in s.readers :: k < s.txs[h].txid)
    ensures forall k :: k in StartWrite(s).pending <==>
      (k in s.pending && !(k < 0xFFFF_FFFF_FFFF_FFFF && forall h :: h in s.readers ==> k < s.txs[h].txid))
    ensures forall k :: k in StartWrite(s).pending ==> StartWrite(s).pending[k] == s.pending[k]
  {
    var minid := OldestReader(s.txs, s.readers);
    forall k | k in s.pending
      ensures k < minid <==> k < 0xFFFF_FFFF_FFFF_FFFF && forall h :: h in s.readers ==> k < s.txs[h].txid
    {
      BelowOldest(s.txs, s.readers, k);
    }
    forall p: U64
      ensures p in StartWrite(s).ids <==> p in s.ids || exists k :: k in s.pending && p in s.pending[k] && k < minid
    {
      ReleaseFrees(WithWriter(s), minid, p);
    }
    forall k: U64
      ensures k in StartWrite(s).pending <==> k in s.pending && !(k < minid)
      ensures k in StartWrite(s).pending ==> StartWrite(s).pending[k] == s.pending[k]
    {
      ReleaseKeeps(WithWriter(s), minid, k);
    }
  }

  function Without(readers: seq<nat>, h: nat): seq<nat> {
    if readers == [] then []
    else (if readers[0] == h then [] else [readers[0]]) + Without(readers[1..], h)
  }

  /** Closes a transaction and, if `DB::remove_tx` keeps its promise, stops tracking a reader. */
  function CloseAndForget(s: State, h: nat, contract: bool): State
    requires h < |s.txs|
  {
    if contract && s.txs[h].open && !s.txs[h].writable then CloseTx(s, h).(readers := Without(s.readers, h))
    else CloseTx(s, h)
  }

  /** What `FreeList::rollback` promises: the transaction's pages are no longer set aside. */
  function DropAside(s: State, t: U64): State {
    s.(pending := s.pending - {t}, cache := PageSet(s.ids, s.pending - {t}))
  }

  /** Ends a transaction; a closed one is refused, so nothing changes. */
  function RollbackTx(s: State, h: nat, contract: bool): State
    requires h < |s.txs|
  {
    if !s.txs[h].open then s
    else if contract && s.txs[h].writable then CloseAndForget(DropAside(s, s.txs[h].txid), h, contract)
    else CloseAndForget(s, h, contract)
  }

  /** The open writer sets a page aside that is neither free nor pending. */
  function SetAside(s: State, p: U64): State
    requires s.rwtx.Some? && s.rwtx.value < |s.txs|
  {
    var t := s.txs[s.rwtx.value].txid;
    var waiting := if t in s.pending then s.pending[t] else [];
    s.(pending := s.pending[t := waiting + [p]], cache := s.cache + {p}, tag := s.tag[p := t])
  }

  function Take(s: State, p: U64): State {
    s.(ids := s.ids - multiset{p}, cache := s.cache - {p}, tag := s.tag - {p})
  }

  function Apply(s: State, a: Step): State
    requires Handles(s)
  {
    match a
    case BeginRead => StartRead(s)
    case BeginWrite => StartWrite(s)
    case FreePage(p) => if s.rwtx.Some? && p !in s.cache then SetAside(s, p) else s
    case Allocate(p) => if s.rwtx.Some? && p in s.ids then Take(s, p) else s
    case Commit =>
      if s.rwtx.Some? then CloseTx(s.(metaTxid := s.txs[s.rwtx.value].txid), s.rwtx.value) else s
    case CommitAsWritten(_) => s
    case Rollback(h, contract) => if h < |s.txs| then RollbackTx(s, h, contract) else s
    case Scribble(h, id) =>
      if h < |s.txs| && !s.txs[h].open && !s.txs[h].writable then s.(txs := s.txs[h := s.txs[h].(txid := id)]) else s
  }

  // ---- steps without code ----

  /** A commit publishes the writer's id and ends it; pages and readers stay as they are. */
  lemma {:induction false} CommitPublishes(s: State, h: nat)
    requires Handles(s) && s.rwtx == Some(h) && s.txs[h].open && s.txs[h].writable
    ensures var r := Apply(s, Commit);
      && r.metaTxid == s.txs[h].txid && r.rwtx.None? && !r.rwlock && |r.txs| == |s.txs| && !r.txs[h].open
      && (forall g :: 0 <= g < |s.txs| && g != h ==> r.txs[g] == s.txs[g])
      && r.ids == s.ids && r.pending == s.pending && r.cache == s.cache && r.readers == s.readers
  {
  }

  /** Freeing a page that is not listed sets it aside under the open writer; it does not become free. */
  lemma {:induction false} FreePageSetsAside(s: State, h: nat, p: U64)
    requires Handles(s) && s.rwtx == Some(h) && p !in s.cache
    ensures var r, t := Apply(s, FreePage(p)), s.txs[h].txid;
      && t in r.pending && (forall q :: q in r.pending[t] <==> q == p || (t in s.pending && q in s.pending[t]))
      && (forall k :: k != t ==> (k in r.pending <==> k in s.pending))
      && (forall k :: k != t && k in r.pending ==> r.pending[k] == s.pending[k])
      && r.ids == s.ids && p in r.tag && r.tag[p] == t && r.txs == s.txs && r.readers == s.readers
  {
  }

  /** Allocating takes one copy of a free page. */
  lemma {:induction false} AllocateTakes(s: State, h: nat, p: U64)
    requires Handles(s) && s.rwtx == Some(h) && p in s.ids
    ensures var r := Apply(s, Allocate(p));
      && r.ids == s.ids - multiset{p} && p !in r.cache && r.pending == s.pending
      && r.txs == s.txs && r.readers == s.readers
  {
  }

  /** Freed memory may show any id in the record of a closed reader, and nowhere else. */
  lemma {:induction false} ScribbleOverwrites(s: State, h: nat, id: U64)
    requires Handles(s) && h < |s.txs|
    ensures var r := Apply(s, Scribble(h, id));
      if s.txs[h].open || s.txs[h].writable then r == s
      else r == s.(txs := s.txs[h := TxRec(false, id, false, s.txs[h].unlocks)])
  {
  }

  // ---- one writer at a time ----

  predicate OpenWriter(s: State, h: nat)
    requires h < |s.txs|
  {
    s.txs[h].writable && s.txs[h].open
  }

  /** The lock is held exactly while the one writable transaction is open, and each is unlocked once. */
  predicate LockInv(s: State) {
    && Handles(s)
    && (s.rwlock <==> s.rwtx.Some?)
    && (forall h :: 0 <= h < |s.txs| ==> (s.txs[h].writable && s.txs[h].open <==> s.rwtx == Some(h)))
    && (forall h :: 0 <= h < |s.txs| ==> s.txs[h].unlocks == if s.txs[h].writable && !s.txs[h].open then 1 else 0)
  }

  lemma {:induction false} WithoutMembers(readers: seq<nat>, h: nat, x: nat)
    ensures x in Without(readers, h) <==> x in readers && x != h
  {
    if readers != [] {
      WithoutMembers(readers[1..], h, x);
    }
  }

  lemma {:induction false} CloseKeepsLock(s: State, h: nat)
    requires LockInv(s) && h < |s.txs|
    ensures LockInv(CloseTx(s, h))
  {
  }

  lemma {:induction false} RollbackKeepsLock(s: State, h: nat, contract: bool)
    requires LockInv(s) && h < |s.txs|
    ensures LockInv(RollbackTx(s, h, contract))
  {
    CloseKeepsLock(s, h);
    CloseKeepsLock(DropAside(s, s.txs[h].txid), h);
    if s.txs[h].open && contract && !s.txs[h].writable {
      forall x: nat | x in Without(s.readers, h)
        ensures x in s.readers
      {
        WithoutMembers(s.readers, h, x);
      }
    }
  }

  lemma {:induction false} ReleaseKeepsLock(s: State, minid: U64)
    requires LockInv(s)
    ensures LockInv(ReleaseOld(s, minid))
  {
  }

  lemma {:induction false} StartReadKeepsLock(s: State)
    requires LockInv(s)
    ensures LockInv(StartRead(s))
  {
  }

  lemma {:induction false} BeginKeepsLock(s: State)
    requires LockInv(s)
    ensures LockInv(StartRead(s)) && LockInv(StartWrite(s))
  {
    StartReadKeepsLock(s);
    if s.rwtx.None? {
      assert LockInv(WithWriter(s));
      ReleaseKeepsLock(WithWriter(s), OldestReader(s.txs, s.readers));
    }
  }

  lemma {:induction false} ApplyKeepsLock(s: State, a: Step)
    requires LockInv(s)
    ensures LockInv(Apply(s, a))
  {
    match a
    case BeginRead => BeginKeepsLock(s);
    case BeginWrite => BeginKeepsLock(s);
    case FreePage(_) =>
    case Allocate(_) =>
    case Commit =>
      if s.rwtx.Some? {
        CloseKeepsLock(s.(metaTxid := s.txs[s.rwtx.value].txid), s.rwtx.value);
      }
    case CommitAsWritten(_) =>
    case Rollback(h, contract) =>
      if h < |s.txs| {
        RollbackKeepsLock(s, h, contract);
      }
    case Scribble(_, _) =>
  }

  // ---- runs ----

  function Init(readOnly: bool, metaTxid: U64, ids: Ids): State {
    State(readOnly, false, metaTxid, [], [], None, false, multiset(ids), map[], SetOf(ids), map[])
  }

  function Run(s: State, steps: seq<Step>): (r: State)
    requires LockInv(s)
    ensures LockInv(r)
    decreases |steps|
  {
    if steps == [] then s else ApplyKeepsLock(s, steps[0]); Run(Apply(s, steps[0]), steps[1..])
  }

  lemma {:induction false} RunJoins(s: State, a: seq<Step>, b: seq<Step>)
    requires LockInv(s)
    ensures Run(s, a + b) == Run(Run(s, a), b)
    decreases |a|
  {
    if a == [] {
      assert a + b == b;
    } else {
      ApplyKeepsLock(s, a[0]);
      assert (a + b)[0] == a[0] && (a + b)[1..] == a[1..] + b;
      RunJoins(Apply(s, a[0]), a[1..], b);
    }
  }

  /**
  Over every run, with any mixture of repeated rollbacks and of the two kinds of commit: the lock is
  held exactly while a writable transaction is open, at most one is, and each unlocks at most once.
   */
  lemma {:induction false} SingleWriter(readOnly: bool, metaTxid: U64, ids: Ids, steps: seq<Step>)
    ensures var s := Run(Init(readOnly, metaTxid, ids), steps);
      && (s.rwlock <==> exists h :: 0 <= h < |s.txs| && OpenWriter(s, h))
      && (forall g, h :: 0 <= g < |s.txs| && 0 <= h < |s.txs| && OpenWriter(s, g) && OpenWriter(s, h) ==> g == h)
      && (forall h :: 0 <= h < |s.txs| ==> s.txs[h].unlocks <= 1)
      && (s.rwtx.Some? <==> s.rwlock)
      && (readOnly ==> !s.rwlock)
  {
    ReadOnlyStays(Init(readOnly, metaTxid, ids), steps);
    var s := Run(Init(readOnly, metaTxid, ids), steps);
    if s.rwlock {
      assert OpenWriter(s, s.rwtx.value);
    }
  }

  lemma {:induction false} ApplyReadOnly(s: State, a: Step)
    requires LockInv(s)
    ensures Apply(s, a).readOnly == s.readOnly && Apply(s, a).isOpened == s.isOpened
    ensures s.readOnly && !s.rwlock ==> !Apply(s, a).rwlock
  {
    match a
    case BeginWrite => assert s.readOnly ==> StartWrite(s) == s;
    case Rollback(_, _) =>
    case _ =>
  }

  lemma {:induction false} ReadOnlyStays(s: State, steps: seq<Step>)
    requires LockInv(s)
    ensures Run(s, steps).readOnly == s.readOnly && Run(s, steps).isOpened == s.isOpened
    ensures s.readOnly && !s.rwlock ==> !Run(s, steps).rwlock
    decreases |steps|
  {
    if steps != [] {
      ApplyKeepsLock(s, steps[0]);
      ApplyReadOnly(s, steps[0]);
      ReadOnlyStays(Apply(s, steps[0]), steps[1..]);
    }
  }
}
