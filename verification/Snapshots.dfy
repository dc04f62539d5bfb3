/**
Snapshot safety (bolt/db.cpp, `begin_rwtx`; bolt/freelist.cpp, `release`): a page that a writer set
aside does not become free while a reader that may still see it is open.
 */
module Snapshots {
  import opened Slices
  import opened Pages
  import opened FreeLists
  import opened Protocol

  /** Reader h is open. */
  predicate Reading(s: State, h: nat) {
    h < |s.txs| && s.txs[h].open && !s.txs[h].writable
  }

  /** No free page was freed by a writer later than the snapshot of an open reader. */
  ghost predicate Safe(s: State) {
    forall p, h: nat :: p in s.ids && p in s.tag && Reading(s, h) ==> s.tag[p] <= s.txs[h].txid
  }

  /** Open readers are tracked and see a committed state; the writer works on the next one. */
  ghost predicate TxInv(s: State) {
    && (forall h: nat :: Reading(s, h) ==> h in s.readers && s.txs[h].txid <= s.metaTxid)
    && (s.rwtx.Some? ==> s.rwtx.value < |s.txs| && s.txs[s.rwtx.value].txid == s.metaTxid + 1)
  }

  /** Pending pages wait under the writer that freed them; free pages were freed by committed writers. */
  ghost predicate TagInv(s: State) {
    && (forall k, p :: k in s.pending && p in s.pending[k] ==> p in s.tag && s.tag[p] == k)
    && (forall p :: p in s.ids && p in s.tag ==> s.tag[p] <= s.metaTxid)
  }

  /** No page is listed twice and the lookup set is exactly the free and pending pages. */
  ghost predicate PageInv(s: State) {
    && s.cache == PageSet(s.ids, s.pending)
    && forall x: U64 :: Bag(s.ids, s.pending)[x] <= 1
  }

  /** What every step keeps, whatever rollbacks do. */
  ghost predicate CoreInv(s: State) {
    LockInv(s) && TxInv(s) && TagInv(s) && PageInv(s) && Safe(s)
  }

  /** Every page set aside waits under a transaction up to lim. */
  predicate AsideUpTo(s: State, lim: int) {
    forall k :: k in s.pending && s.pending[k] != [] ==> k <= lim
  }

  /** The last transaction that has committed or is being written. */
  function Newest(s: State): int {
    if s.rwtx.Some? then s.metaTxid + 1 else s.metaTxid
  }

  /** Only committed writers and the open one have pages set aside. */
  ghost predicate SnapInv(s: State) {
    CoreInv(s) && AsideUpTo(s, Newest(s))
  }

  predicate NothingAside(s: State, t: U64) {
    t in s.pending ==> s.pending[t] == []
  }

  // ---- beginning ----

  lemma {:induction false} StartReadSafe(s: State)
    requires CoreInv(s)
    ensures CoreInv(StartRead(s))
  {
    BeginKeepsLock(s);
    var r := StartRead(s);
    if r != s {
      forall h: nat | Reading(r, h)
        ensures SeesSame(s, r, h)
      {
        assert h < |s.txs| ==> r.txs[h] == s.txs[h];
      }
      RecordsSafe(s, r);
    }
  }

  /** Nothing but transaction records and the list of readers differs. */
  predicate SameStore(s: State, r: State) {
    r == s.(txs := r.txs, readers := r.readers)
  }

  /** Reader h is tracked in r and reads what it read in s, or the committed snapshot. */
  predicate SeesSame(s: State, r: State, h: nat)
    requires h < |r.txs|
  {
    h in r.readers && ((Reading(s, h) && r.txs[h].txid == s.txs[h].txid) || r.txs[h].txid == s.metaTxid)
  }

  /** Changed records are harmless if the readers that are open see the same. */
  lemma {:induction false} RecordsSafe(s: State, r: State)
    requires TxInv(s) && TagInv(s) && PageInv(s) && Safe(s) && SameStore(s, r)
    requires forall h: nat :: Reading(r, h) ==> SeesSame(s, r, h)
    requires s.rwtx.Some? ==> s.rwtx.value < |r.txs| && r.txs[s.rwtx.value].txid == s.txs[s.rwtx.value].txid
    ensures TxInv(r) && TagInv(r) && PageInv(r) && Safe(r)
  {
  }

  /** A released page was free before, or was set aside by a transaction that is due. */
  lemma {:induction false} ReleasedTags(s: State, t: U64, p: U64)
    requires TagInv(s) && p in ReleaseUpTo(s, t).ids
    ensures p in s.ids || (p in s.tag && s.tag[p] in s.pending && p in s.pending[s.tag[p]] && s.tag[p] <= t)
  {
    var ps := Released(s.pending, t);
    assert p in multiset(ps) <==> p in ps;
    PagesOfMembers(s.pending, Due(s.pending, t), p);
  }

  lemma {:induction false} ReleasePages(s: State, t: U64)
    requires PageInv(s)
    ensures PageInv(ReleaseUpTo(s, t))
  {
    ReleaseConserves(s.ids, s.pending, t);
  }

  /** A release below every open reader frees no page that one of them may see. */
  lemma {:induction false} ReleaseSafe(s: State, t: U64)
    requires TxInv(s) && TagInv(s) && Safe(s)
    requires forall h: nat :: Reading(s, h) ==> t < s.txs[h].txid
    requires forall k :: k in s.pending && s.pending[k] != [] && k <= t ==> k <= s.metaTxid
    ensures var r := ReleaseUpTo(s, t); TxInv(r) && TagInv(r) && Safe(r)
  {
    var r := ReleaseUpTo(s, t);
    forall p | p in r.ids
      ensures p in s.ids || (p in s.tag && s.tag[p] <= t && s.tag[p] <= s.metaTxid)
    {
      ReleasedTags(s, t, p);
    }
    assert forall h: nat :: Reading(r, h) <==> Reading(s, h);
  }

  lemma {:induction false} WithWriterSafe(s: State)
    requires LockInv(s) && TxInv(s) && TagInv(s) && Safe(s) && s.metaTxid < MAX_TXID && s.rwtx.None?
    ensures var r := WithWriter(s);
      && TxInv(r) && TagInv(r) && Safe(r)
      && (forall h: nat :: Reading(r, h) ==> Reading(s, h) && r.txs[h] == s.txs[h])
  {
    var r := WithWriter(s);
    assert forall h: nat :: Reading(r, h) ==> Reading(s, h) && r.txs[h] == s.txs[h];
    assert NextTxid(s.metaTxid) == s.metaTxid + 1;
  }

  /** The threshold below the oldest tracked reader lies below every open reader. */
  lemma {:induction false} ReleaseOldSafe(s: State, minid: U64)
    requires TxInv(s) && TagInv(s) && Safe(s)
    requires forall h: nat :: Reading(s, h) ==> minid <= s.txs[h].txid
    requires forall k :: k in s.pending && s.pending[k] != [] && k < minid ==> k <= s.metaTxid
    ensures var r := ReleaseOld(s, minid); TxInv(r) && TagInv(r) && Safe(r)
  {
    if minid > 0 {
      ReleaseSafe(s, minid - 1);
    }
  }

  /** The transactions that the next writer would release have committed. */
  ghost predicate ReleaseOk(s: State) {
    && Handles(s)
    && forall k :: k in s.pending && s.pending[k] != [] && k < OldestReader(s.txs, s.readers) ==> k <= s.metaTxid
  }

  lemma {:induction false} StartWriteTags(s: State)
    requires LockInv(s) && TxInv(s) && TagInv(s) && Safe(s) && s.metaTxid < MAX_TXID
    requires s.rwtx.None? ==> ReleaseOk(s)
    ensures var r := StartWrite(s); TxInv(r) && TagInv(r) && Safe(r)
  {
    if !(s.readOnly || s.rwlock || s.isOpened) {
      WithWriterSafe(s);
      ReleaseOldSafe(WithWriter(s), OldestReader(s.txs, s.readers));
    }
  }

  lemma {:induction false} StartWritePages(s: State)
    requires Handles(s) && PageInv(s)
    ensures PageInv(StartWrite(s))
  {
    var minid := OldestReader(s.txs, s.readers);
    if minid > 0 {
      ReleasePages(WithWriter(s), minid - 1);
    }
  }

  lemma {:induction false} StartWriteSafe(s: State)
    requires CoreInv(s) && s.metaTxid < MAX_TXID && (s.rwtx.None? ==> ReleaseOk(s))
    ensures CoreInv(StartWrite(s))
  {
    BeginKeepsLock(s);
    StartWriteTags(s);
    StartWritePages(s);
  }

  // ---- pages ----

  /** Setting a page aside adds exactly that page. */
  lemma {:induction false} AsideAdds(pending: Pending, t: U64, p: U64)
    ensures var waiting := if t in pending then pending[t] else [];
      var after := pending[t := waiting + [p]];
      multiset(PagesOf(after, after.Keys)) == multiset(PagesOf(pending, pending.Keys)) + multiset{p}
  {
    var waiting := if t in pending then pending[t] else [];
    var after := pending[t := waiting + [p]];
    var rest := pending.Keys - {t};
    assert after.Keys == rest + {t} && after.Keys - {t} == rest;
    PagesOfRemove(after, after.Keys, t);
    PagesOfSame(pending, after, rest);
    if t in pending {
      PagesOfRemove(pending, pending.Keys, t);
    } else {
      assert rest == pending.Keys;
    }
  }

  lemma {:induction false} AsidePages(s: State, p: U64)
    requires PageInv(s) && s.rwtx.Some? && s.rwtx.value < |s.txs| && p !in s.cache
    ensures PageInv(SetAside(s, p))
  {
    var r := SetAside(s, p);
    AsideAdds(s.pending, s.txs[s.rwtx.value].txid, p);
    assert Bag(r.ids, r.pending) == Bag(s.ids, s.pending) + multiset{p};
    forall x: U64
      ensures Bag(r.ids, r.pending)[x] <= 1 && (x in PageSet(r.ids, r.pending) <==> x in s.cache || x == p)
    {
      PageSetMembers(s.ids, s.pending, x);
      PageSetMembers(r.ids, r.pending, x);
    }
  }

  lemma {:induction false} AsideSafe(s: State, p: U64)
    requires CoreInv(s) && s.rwtx.Some? && p !in s.cache
    ensures CoreInv(SetAside(s, p))
  {
    var r := SetAside(s, p);
    AsidePages(s, p);
    PageSetMembers(s.ids, s.pending, p);
    assert forall h: nat :: Reading(r, h) <==> Reading(s, h);
  }

  lemma {:induction false} TakePages(s: State, p: U64)
    requires PageInv(s) && p in s.ids
    ensures PageInv(Take(s, p))
    ensures forall x :: x in Take(s, p).ids ==> x in s.ids && x != p
    ensures forall k :: k in s.pending ==> p !in s.pending[k]
  {
    var r := Take(s, p);
    assert s.ids == r.ids + multiset{p};
    assert Bag(s.ids, s.pending) == Bag(r.ids, r.pending) + multiset{p};
    forall x: U64
      ensures Bag(r.ids, r.pending)[x] <= 1 && (x in PageSet(r.ids, r.pending) <==> x in s.cache && x != p)
    {
      PageSetMembers(s.ids, s.pending, x);
      PageSetMembers(r.ids, r.pending, x);
    }
    PageSetMembers(r.ids, r.pending, p);
  }

  lemma {:induction false} TakeSafe(s: State, p: U64)
    requires CoreInv(s) && p in s.ids
    ensures CoreInv(Take(s, p))
  {
    TakePages(s, p);
    var r := Take(s, p);
    assert forall h: nat :: Reading(r, h) <==> Reading(s, h);
  }

  // ---- ending ----

  lemma {:induction false} CommitSafe(s: State)
    requires CoreInv(s) && s.rwtx.Some?
    ensures CoreInv(CloseTx(s.(metaTxid := s.txs[s.rwtx.value].txid), s.rwtx.value))
  {
    var w := s.rwtx.value;
    var s1 := s.(metaTxid := s.txs[w].txid);
    CloseKeepsLock(s1, w);
    var r := CloseTx(s1, w);
    assert forall h: nat :: Reading(r, h) <==> Reading(s, h);
  }

  /** Dropping one transaction's pending pages loses no other page. */
  lemma {:induction false} DropPages(free: multiset<U64>, pending: Pending, t: U64)
    requires forall x: U64 :: Bag(free, pending)[x] <= 1
    ensures forall x: U64 :: Bag(free, pending - {t})[x] <= 1
  {
    var q := pending - {t};
    if t in pending {
      PagesOfRemove(pending, pending.Keys, t);
      assert q.Keys == pending.Keys - {t};
      PagesOfSame(pending, q, q.Keys);
      forall x: U64
        ensures Bag(free, q)[x] <= 1
      {
        assert Bag(free, pending)[x] == Bag(free, q)[x] + multiset(pending[t])[x];
      }
    } else {
      assert q == pending;
    }
  }

  lemma {:induction false} RollbackWriterSafe(s: State, h: nat, contract: bool)
    requires CoreInv(s) && h < |s.txs| && s.txs[h].open && s.txs[h].writable
    ensures CoreInv(RollbackTx(s, h, contract))
  {
    RollbackKeepsLock(s, h, contract);
    if contract {
      DropAsideSafe(s, s.txs[h].txid);
      CloseWriterSafe(DropAside(s, s.txs[h].txid), h);
    } else {
      CloseWriterSafe(s, h);
    }
  }

  lemma {:induction false} CloseWriterSafe(s: State, h: nat)
    requires TxInv(s) && TagInv(s) && PageInv(s) && Safe(s) && h < |s.txs| && s.txs[h].open && s.txs[h].writable
    ensures var r := CloseTx(s, h); TxInv(r) && TagInv(r) && PageInv(r) && Safe(r)
  {
    var r := CloseTx(s, h);
    assert forall g: nat :: Reading(r, g) ==> Reading(s, g) && r.txs[g] == s.txs[g];
  }

  lemma {:induction false} DropAsideSafe(s: State, t: U64)
    requires TxInv(s) && TagInv(s) && PageInv(s) && Safe(s)
    ensures var d := DropAside(s, t); TxInv(d) && TagInv(d) && PageInv(d) && Safe(d)
  {
    DropPages(s.ids, s.pending, t);
    var d := DropAside(s, t);
    assert forall g: nat :: Reading(d, g) <==> Reading(s, g);
  }

  lemma {:induction false} RollbackReaderSafe(s: State, h: nat, contract: bool)
    requires CoreInv(s) && h < |s.txs| && s.txs[h].open && !s.txs[h].writable
    ensures CoreInv(RollbackTx(s, h, contract))
  {
    RollbackKeepsLock(s, h, contract);
    var r := RollbackTx(s, h, contract);
    forall g: nat | Reading(r, g)
      ensures SeesSame(s, r, g)
    {
      WithoutMembers(s.readers, h, g);
    }
    RecordsSafe(s, r);
  }

  lemma {:induction false} ScribbleSafe(s: State, h: nat, id: U64)
    requires CoreInv(s)
    ensures CoreInv(Apply(s, Scribble(h, id)))
  {
    var r := Apply(s, Scribble(h, id));
    ApplyKeepsLock(s, Scribble(h, id));
    forall g: nat | Reading(r, g)
      ensures SeesSame(s, r, g)
    {
      assert r.txs[g] == s.txs[g];
    }
    RecordsSafe(s, r);
  }

  /** Every step keeps the core; a writer may begin when the counter has room and what it releases has committed. */
  lemma {:induction false} ApplyCore(s: State, a: Step)
    requires CoreInv(s)
    requires a.BeginWrite? ==> s.metaTxid < MAX_TXID && (s.rwtx.None? ==> ReleaseOk(s))
    ensures CoreInv(Apply(s, a))
  {
    match a
    case BeginRead => StartReadSafe(s);
    case BeginWrite => StartWriteSafe(s);
    case FreePage(p) =>
      if s.rwtx.Some? && p !in s.cache {
        AsideSafe(s, p);
      }
    case Allocate(p) =>
      if s.rwtx.Some? && p in s.ids {
        TakeSafe(s, p);
      }
    case Commit =>
      if s.rwtx.Some? {
        CommitSafe(s);
      }
    case CommitAsWritten(_) =>
    case Rollback(h, contract) =>
      if h < |s.txs| && s.txs[h].open {
        if s.txs[h].writable {
          RollbackWriterSafe(s, h, contract);
        } else {
          RollbackReaderSafe(s, h, contract);
        }
      }
    case Scribble(h, id) => ScribbleSafe(s, h, id);
  }

  // ---- whole runs ----

  /** The transaction counter has room, and a writer that gives up leaves no page set aside. */
  predicate Honest(s: State, a: Step) {
    match a
    case BeginWrite => s.metaTxid < MAX_TXID
    case Rollback(h, contract) =>
      h < |s.txs| && s.txs[h].writable && s.txs[h].open ==> contract || NothingAside(s, s.txs[h].txid)
    case _ => true
  }

  /** Only a writer that begins at the last id, or that gives up with pages set aside, is not honest. */
  lemma {:induction false} HonestMeans(s: State, a: Step)
    ensures Honest(s, a) <==>
      && !(a == BeginWrite && s.metaTxid == 0xFFFF_FFFF_FFFF_FFFF)
      && !(a.Rollback? && !a.contract && a.tx < |s.txs| && s.txs[a.tx].writable && s.txs[a.tx].open
           && s.txs[a.tx].txid in s.pending && s.pending[s.txs[a.tx].txid] != [])
  {
  }

  lemma {:induction false} ReleaseAside(s: State, minid: U64, lim: int)
    requires AsideUpTo(s, lim)
    ensures AsideUpTo(ReleaseOld(s, minid), lim)
  {
  }

  lemma {:induction false} FreeAside(s: State, p: U64, lim: int)
    requires s.rwtx.Some? && s.rwtx.value < |s.txs| && s.txs[s.rwtx.value].txid <= lim && AsideUpTo(s, lim)
    ensures AsideUpTo(SetAside(s, p), lim)
  {
  }

  lemma {:induction false} RollbackAside(s: State, h: nat, contract: bool, lim: int)
    requires h < |s.txs| && AsideUpTo(s, lim)
    ensures AsideUpTo(RollbackTx(s, h, contract), lim)
    ensures s.txs[h].open && s.txs[h].writable && s.txs[h].txid == lim && (contract || NothingAside(s, lim)) ==>
              AsideUpTo(RollbackTx(s, h, contract), lim - 1)
  {
  }

  lemma {:induction false} StartWriteAside(s: State, lim: int)
    requires Handles(s) && AsideUpTo(s, lim)
    ensures AsideUpTo(StartWrite(s), lim)
  {
    ReleaseAside(WithWriter(s), OldestReader(s.txs, s.readers), lim);
  }

  /** Nothing is ever set aside beyond the next transaction, even by rollbacks that forget. */
  lemma {:induction false} ApplyAsideNext(s: State, a: Step)
    requires LockInv(s) && TxInv(s) && AsideUpTo(s, s.metaTxid + 1)
    ensures AsideUpTo(Apply(s, a), Apply(s, a).metaTxid + 1)
  {
    match a
    case BeginRead =>
    case BeginWrite => StartWriteAside(s, s.metaTxid + 1);
    case FreePage(p) =>
      if s.rwtx.Some? {
        FreeAside(s, p, s.metaTxid + 1);
      }
    case Allocate(_) =>
    case Commit =>
    case CommitAsWritten(_) =>
    case Rollback(h, contract) =>
      if h < |s.txs| {
        RollbackAside(s, h, contract, s.metaTxid + 1);
      }
    case Scribble(_, _) =>
  }

  lemma {:induction false} RollbackKeepsAside(s: State, h: nat, contract: bool)
    requires SnapInv(s) && h < |s.txs| && Honest(s, Rollback(h, contract))
    ensures AsideUpTo(RollbackTx(s, h, contract), Newest(RollbackTx(s, h, contract)))
  {
    RollbackAside(s, h, contract, Newest(s));
  }

  lemma {:induction false} ApplyAside(s: State, a: Step)
    requires SnapInv(s) && Honest(s, a)
    ensures AsideUpTo(Apply(s, a), Newest(Apply(s, a)))
  {
    match a
    case BeginRead =>
    case BeginWrite => StartWriteAside(s, Newest(s));
    case FreePage(p) =>
      if s.rwtx.Some? {
        FreeAside(s, p, s.metaTxid + 1);
      }
    case Allocate(_) =>
    case Commit =>
    case CommitAsWritten(_) =>
    case Rollback(h, contract) =>
      if h < |s.txs| {
        RollbackKeepsAside(s, h, contract);
      }
    case Scribble(_, _) =>
  }

  lemma {:induction false} ApplySafe(s: State, a: Step)
    requires SnapInv(s) && Honest(s, a)
    ensures SnapInv(Apply(s, a))
  {
    ApplyCore(s, a);
    ApplyAside(s, a);
  }

  predicate HonestRun(s: State, steps: seq<Step>)
    requires LockInv(s)
    decreases |steps|
  {
    steps == [] || (Honest(s, steps[0]) && (ApplyKeepsLock(s, steps[0]); HonestRun(Apply(s, steps[0]), steps[1..])))
  }

  lemma {:induction false} RunKeepsSnapInv(s: State, steps: seq<Step>)
    requires SnapInv(s) && HonestRun(s, steps)
    ensures SnapInv(Run(s, steps))
    decreases |steps|
  {
    if steps != [] {
      ApplySafe(s, steps[0]);
      RunKeepsSnapInv(Apply(s, steps[0]), steps[1..]);
    }
  }

  lemma {:induction false} InitSafe(readOnly: bool, metaTxid: U64, ids: Ids)
    requires forall x: U64 :: multiset(ids)[x] <= 1
    ensures SnapInv(Init(readOnly, metaTxid, ids))
  {
    var s := Init(readOnly, metaTxid, ids);
    assert PagesOf(s.pending, s.pending.Keys) == [];
    assert forall x :: x in ids <==> x in multiset(ids);
  }

  /**
  Over every run in which writers that roll back leave no page set aside, whatever appears in the
  records of closed readers: a page that writer t freed is not free while a reader with an older
  snapshot is open, and the lookup set is exact throughout.
   */
  lemma {:induction false} SnapshotSafety(readOnly: bool, metaTxid: U64, ids: Ids, steps: seq<Step>)
    requires forall x: U64 :: multiset(ids)[x] <= 1
    requires HonestRun(Init(readOnly, metaTxid, ids), steps)
    ensures var s := Run(Init(readOnly, metaTxid, ids), steps);
      && (forall p, h: nat :: h < |s.txs| && s.txs[h].open && !s.txs[h].writable && p in s.ids && p in s.tag ==>
            s.tag[p] <= s.txs[h].txid)
      && s.cache == PageSet(s.ids, s.pending)
  {
    InitSafe(readOnly, metaTxid, ids);
    RunKeepsSnapInv(Init(readOnly, metaTxid, ids), steps);
    var s := Run(Init(readOnly, metaTxid, ids), steps);
    forall p, h: nat | h < |s.txs| && s.txs[h].open && !s.txs[h].writable && p in s.ids && p in s.tag
      ensures s.tag[p] <= s.txs[h].txid
    {
      assert Reading(s, h);
    }
  }

  /**
  A reader of snapshot 0 makes the threshold wrap: the guard then releases nothing, and without it a
  page that the reader may see would become free.
   */
  lemma {:induction false} GuardNeeded(s: State, h: nat, k: U64, p: U64)
    requires SnapInv(s) && Reading(s, h) && s.txs[h].txid == 0
    requires k in s.pending && k > 0 && p in s.pending[k]
    ensures StartWrite(s).ids == s.ids && StartWrite(s).pending == s.pending
    ensures !Safe(ReleaseUpTo(s, MAX_TXID))
  {
    assert OldestReader(s.txs, s.readers) == 0;
    DuePageIsReleased(s, MAX_TXID, k, p);
    var r := ReleaseUpTo(s, MAX_TXID);
    assert Reading(r, h) && p in r.ids && r.tag[p] == k;
  }

  lemma {:induction false} DuePageIsReleased(s: State, t: U64, k: U64, p: U64)
    requires k in s.pending && k <= t && p in s.pending[k]
    ensures p in ReleaseUpTo(s, t).ids
  {
    PagesOfMembers(s.pending, Due(s.pending, t), p);
    assert p in multiset(Released(s.pending, t));
  }

  // ---- a rollback that leaves its pages set aside ----

  /** A tracked reader with a committed id holds every later release back. */
  predicate Anchor(s: State, g: nat) {
    g in s.readers && g < |s.txs| && !s.txs[g].writable && s.txs[g].txid <= s.metaTxid
  }

  predicate Quiet(steps: seq<Step>) {
    forall a :: a in steps ==> !a.Scribble?
  }

  lemma {:induction false} QuietRest(steps: seq<Step>)
    requires Quiet(steps) && steps != []
    ensures !steps[0].Scribble? && Quiet(steps[1..])
  {
    assert steps[0] in steps;
    assert forall a :: a in steps[1..] ==> a in steps;
  }

  /** Rollbacks as the code has them: no page is dropped and no reader is forgotten. */
  predicate Written(steps: seq<Step>) {
    Quiet(steps) && forall a :: a in steps && a.Rollback? ==> !a.contract
  }

  lemma {:induction false} WrittenRest(steps: seq<Step>)
    requires Written(steps) && steps != []
    ensures (steps[0].Rollback? ==> !steps[0].contract) && Written(steps[1..])
  {
    QuietRest(steps);
    assert steps[0] in steps;
    assert forall a :: a in steps[1..] ==> a in steps;
  }

  /** The transaction counter has room whenever a writer begins; rollbacks may do what they like. */
  predicate RoomyRun(s: State, steps: seq<Step>)
    requires LockInv(s)
    decreases |steps|
  {
    steps == [] ||
    (&& (steps[0].BeginWrite? ==> s.metaTxid < MAX_TXID)
     && (ApplyKeepsLock(s, steps[0]); RoomyRun(Apply(s, steps[0]), steps[1..])))
  }

  lemma {:induction false} HonestIsRoomy(s: State, steps: seq<Step>)
    requires LockInv(s) && HonestRun(s, steps)
    ensures RoomyRun(s, steps)
    decreases |steps|
  {
    if steps != [] {
      ApplyKeepsLock(s, steps[0]);
      HonestIsRoomy(Apply(s, steps[0]), steps[1..]);
    }
  }

  lemma {:induction false} AnchorHoldsBack(s: State, g: nat)
    requires LockInv(s) && AsideUpTo(s, s.metaTxid + 1) && Anchor(s, g)
    ensures ReleaseOk(s)
  {
  }

  lemma {:induction false} RollbackKeepsAnchor(s: State, h: nat, contract: bool, g: nat)
    requires h < |s.txs| && Anchor(s, g) && (contract ==> !s.txs[g].open)
    ensures Anchor(RollbackTx(s, h, contract), g)
    ensures !s.txs[g].open ==> !RollbackTx(s, h, contract).txs[g].open
  {
    WithoutMembers(s.readers, h, g);
  }

  lemma {:induction false} ApplyKeepsAnchor(s: State, a: Step, g: nat)
    requires LockInv(s) && TxInv(s) && Anchor(s, g) && !a.Scribble?
    requires a.Rollback? && a.contract ==> !s.txs[g].open
    ensures Anchor(Apply(s, a), g) && (!s.txs[g].open ==> !Apply(s, a).txs[g].open)
  {
    match a
    case Rollback(h, contract) =>
      if h < |s.txs| {
        RollbackKeepsAnchor(s, h, contract, g);
      }
    case _ =>
  }

  /**
  With a tracked reader the run is safe whatever rollbacks do to pages, if that reader is closed already
  or no reader is ever forgotten.
   */
  lemma {:induction false} AnchoredRunSafe(s: State, steps: seq<Step>, g: nat)
    requires CoreInv(s) && AsideUpTo(s, s.metaTxid + 1) && Anchor(s, g)
    requires Quiet(steps) && RoomyRun(s, steps) && (!s.txs[g].open || Written(steps))
    ensures Safe(Run(s, steps))
    decreases |steps|
  {
    if steps != [] {
      QuietRest(steps);
      if Written(steps) {
        WrittenRest(steps);
      }
      AnchorHoldsBack(s, g);
      ApplyCore(s, steps[0]);
      ApplyAsideNext(s, steps[0]);
      ApplyKeepsAnchor(s, steps[0], g);
      AnchoredRunSafe(Apply(s, steps[0]), steps[1..], g);
    }
  }

  lemma {:induction false} HonestJoins(s: State, a: seq<Step>, b: seq<Step>)
    requires LockInv(s) && HonestRun(s, a) && HonestRun(Run(s, a), b)
    ensures HonestRun(s, a + b)
    decreases |a|
  {
    if a == [] {
      assert a + b == b;
    } else {
      ApplyKeepsLock(s, a[0]);
      assert (a + b)[0] == a[0] && (a + b)[1..] == a[1..] + b;
      HonestJoins(Apply(s, a[0]), a[1..], b);
    }
  }

  /** Every tracked reader outside hs carries the largest id. */
  predicate Spent(s: State, hs: seq<nat>) {
    Handles(s) && forall h :: h in s.readers ==> h in hs || s.txs[h].txid == MAX_TXID
  }

  /** Ends reader h: an open one is closed and forgotten, of a closed one the record is overwritten. */
  function Evict(s: State, h: nat): Step
    requires h < |s.txs|
  {
    if h in s.readers && !s.txs[h].open then Scribble(h, MAX_TXID) else Rollback(h, true)
  }

  /** What evicting g leaves: fewer readers, the same store, and every other record as it was. */
  lemma {:induction false} EvictFrame(s: State, g: nat)
    requires Handles(s) && g < |s.txs| && !s.txs[g].writable
    ensures var r := Apply(s, Evict(s, g));
      && SameStore(s, r) && |r.txs| == |s.txs| && !r.txs[g].writable
      && (forall h :: 0 <= h < |s.txs| && h != g ==> r.txs[h] == s.txs[h])
      && (if g in s.readers && !s.txs[g].open then r.readers == s.readers && r.txs[g].txid == MAX_TXID && !r.txs[g].open
          else r.readers == s.readers || r.readers == Without(s.readers, g))
      && (g in s.readers && s.txs[g].open ==> r.readers == Without(s.readers, g))
  {
  }

  lemma {:induction false} EvictOne(s: State, hs: seq<nat>)
    requires Spent(s, hs) && hs != [] && hs[0] < |s.txs| && !s.txs[hs[0]].writable
    ensures var r := Apply(s, Evict(s, hs[0]));
      SameStore(s, r) && Spent(r, hs[1..]) && |r.txs| == |s.txs| &&
      (forall h :: 0 <= h < |s.txs| ==> r.txs[h].writable == s.txs[h].writable) &&
      (forall h :: h in r.readers ==> h in s.readers && (s.txs[h].open ==> r.txs[h].open))
  {
    var g := hs[0];
    var r := Apply(s, Evict(s, g));
    EvictFrame(s, g);
    forall h: nat | h in r.readers
      ensures h in s.readers && (s.txs[h].open ==> r.txs[h].open) && (h in hs[1..] || r.txs[h].txid == MAX_TXID)
    {
      WithoutMembers(s.readers, g, h);
      assert h in hs ==> h == g || h in hs[1..];
    }
  }

  predicate ReadersOpen(s: State) {
    Handles(s) && forall h :: h in s.readers ==> s.txs[h].open
  }

  predicate AreReaders(s: State, hs: seq<nat>) {
    forall h :: h in hs ==> h < |s.txs| && !s.txs[h].writable
  }

  /** Some honest run leaves no reader that would hold a release back, and touches nothing else. */
  lemma {:induction false} EvictAll(s: State, hs: seq<nat>) returns (steps: seq<Step>)
    requires LockInv(s) && Spent(s, hs) && AreReaders(s, hs)
    ensures HonestRun(s, steps) && Spent(Run(s, steps), []) && SameStore(s, Run(s, steps))
    ensures ReadersOpen(s) ==> Quiet(steps)
    decreases |hs|
  {
    if hs == [] {
      steps := [];
    } else {
      assert hs[0] in hs && forall h :: h in hs[1..] ==> h in hs;
      var a := Evict(s, hs[0]);
      EvictOne(s, hs);
      ApplyKeepsLock(s, a);
      var rest := EvictAll(Apply(s, a), hs[1..]);
      steps := [a] + rest;
    }
  }

  /** With no reader in the way, the next writer frees the page and the next reader may still see it. */
  lemma {:induction false} WriteThenReadUnsafe(s: State, t: U64, p: U64)
    requires LockInv(s) && Spent(s, []) && s.rwtx.None? && !s.readOnly && !s.isOpened
    requires s.metaTxid + 1 == t < MAX_TXID && t in s.pending && p in s.pending[t] && p in s.tag && s.tag[p] == t
    ensures HonestRun(s, [BeginWrite, BeginRead]) && !Safe(Run(s, [BeginWrite, BeginRead]))
  {
    assert OldestReader(s.txs, s.readers) == MAX_TXID;
    var w := StartWrite(s);
    DuePageIsReleased(WithWriter(s), MAX_TXID - 1, t, p);
    var r := StartRead(w);
    assert Reading(r, |w.txs|) && p in r.ids && r.tag[p] == t;
    var steps := [BeginWrite, BeginRead];
    assert steps[1..] == [BeginRead] && steps[1..][1..] == [];
    ApplyKeepsLock(s, BeginWrite);
    ApplyKeepsLock(w, BeginRead);
    assert Apply(s, BeginWrite) == w && Apply(w, BeginRead) == r;
  }

  lemma {:induction false} LeftoverUnsafe(s: State, t: U64) returns (steps: seq<Step>)
    requires LockInv(s) && TagInv(s) && s.rwtx.None? && !s.readOnly && !s.isOpened
    requires s.metaTxid + 1 == t < MAX_TXID && !NothingAside(s, t)
    ensures HonestRun(s, steps) && !Safe(Run(s, steps))
    ensures ReadersOpen(s) ==> Quiet(steps)
  {
    var ev := EvictAll(s, s.readers);
    var p := s.pending[t][0];
    var m := Run(s, ev);
    assert p in s.pending[t];
    WriteThenReadUnsafe(m, t, p);
    steps := ev + [BeginWrite, BeginRead];
    RunJoins(s, ev, [BeginWrite, BeginRead]);
    HonestJoins(s, ev, [BeginWrite, BeginRead]);
  }

  /** Closed readers that are still tracked carry the id they had. */
  predicate Tracked(s: State) {
    Handles(s) && forall h :: h in s.readers ==> s.txs[h].txid <= s.metaTxid
  }

  /** The writer h is about to roll back without dropping its pages, in a database that can go on. */
  ghost predicate GivesUp(s: State, h: nat) {
    && SnapInv(s) && s.rwtx == Some(h) && h < |s.txs|
    && !s.readOnly && !s.isOpened && s.metaTxid + 1 < MAX_TXID
  }

  lemma {:induction false} StubRollbackState(s: State, h: nat)
    requires GivesUp(s, h)
    ensures var r := RollbackTx(s, h, false);
      && CoreInv(r) && AsideUpTo(r, r.metaTxid + 1) && r.rwtx.None?
      && r == s.(txs := r.txs, rwtx := None, rwlock := false)
      && s.txs[h].txid == s.metaTxid + 1
      && (NothingAside(s, s.txs[h].txid) ==> SnapInv(r))
  {
    RollbackWriterSafe(s, h, false);
    RollbackAside(s, h, false, s.metaTxid + 1);
  }

  /**
  If later writers leave nothing set aside, one empty `FreeList::rollback` keeps every later snapshot safe,
  whatever appears in the records of closed readers, exactly when its writer had set no page aside.
   */
  lemma {:induction false} StubRollbackSafeAnyMemory(s: State, h: nat)
    requires GivesUp(s, h)
    ensures LockInv(RollbackTx(s, h, false))
    ensures (forall steps :: HonestRun(RollbackTx(s, h, false), steps) ==> Safe(Run(RollbackTx(s, h, false), steps)))
            <==> NothingAside(s, s.txs[h].txid)
  {
    StubRollbackState(s, h);
    var r := RollbackTx(s, h, false);
    if NothingAside(s, s.txs[h].txid) {
      forall steps | HonestRun(r, steps)
        ensures Safe(Run(r, steps))
      {
        RunKeepsSnapInv(r, steps);
      }
    } else {
      var steps := LeftoverUnsafe(r, s.txs[h].txid);
    }
  }

  /**
  If closed readers keep their ids and later writers leave nothing set aside, it is safe exactly when no
  page was set aside or some reader that is already closed is still tracked. Such a reader holds every
  later release back, and then later rollbacks do not matter either.
   */
  lemma {:induction false} StubRollbackSafeWhen(s: State, h: nat)
    requires GivesUp(s, h) && Tracked(s)
    ensures LockInv(RollbackTx(s, h, false))
    ensures (forall steps :: Quiet(steps) && HonestRun(RollbackTx(s, h, false), steps) ==>
              Safe(Run(RollbackTx(s, h, false), steps)))
            <==> NothingAside(s, s.txs[h].txid) || exists g :: g in s.readers && !s.txs[g].open
    ensures (exists g :: g in s.readers && !s.txs[g].open) ==>
      forall steps :: Quiet(steps) && RoomyRun(RollbackTx(s, h, false), steps) ==>
        Safe(Run(RollbackTx(s, h, false), steps))
  {
    StubRollbackState(s, h);
    var r := RollbackTx(s, h, false);
    if g :| g in s.readers && !s.txs[g].open {
      forall steps | Quiet(steps) && RoomyRun(r, steps)
        ensures Safe(Run(r, steps))
      {
        AnchoredRunSafe(r, steps, g);
      }
      forall steps | HonestRun(r, steps)
        ensures RoomyRun(r, steps)
      {
        HonestIsRoomy(r, steps);
      }
    } else if NothingAside(s, s.txs[h].txid) {
      StubRollbackSafeAnyMemory(s, h);
    } else {
      assert ReadersOpen(r);
      var steps := LeftoverUnsafe(r, s.txs[h].txid);
    }
  }

  lemma {:induction false} StartWriteTracked(s: State)
    requires Tracked(s)
    ensures Tracked(StartWrite(s))
  {
    var minid := OldestReader(s.txs, s.readers);
    var w := WithWriter(s);
    assert Tracked(w);
    assert ReleaseOld(w, minid).(ids := w.ids, pending := w.pending) == w;
  }

  /** Ending transaction h changes no id; at most it ends the writer and forgets h. */
  predicate SameIds(s: State, r: State, h: nat) {
    && r.metaTxid == s.metaTxid && |r.txs| == |s.txs| && (r.rwtx == s.rwtx || r.rwtx.None?)
    && (r.readers == s.readers || r.readers == Without(s.readers, h))
    && (forall g :: 0 <= g < |s.txs| ==> r.txs[g].txid == s.txs[g].txid && r.txs[g].writable == s.txs[g].writable)
  }

  lemma {:induction false} CloseIds(s: State, h: nat, contract: bool)
    requires h < |s.txs|
    ensures SameIds(s, CloseAndForget(s, h, contract), h)
  {
  }

  lemma {:induction false} RollbackIds(s: State, h: nat, contract: bool)
    requires h < |s.txs|
    ensures SameIds(s, RollbackTx(s, h, contract), h)
  {
    CloseIds(s, h, contract);
    CloseIds(DropAside(s, s.txs[h].txid), h, contract);
  }

  lemma {:induction false} RollbackTracked(s: State, h: nat, contract: bool)
    requires Tracked(s) && h < |s.txs|
    ensures Tracked(RollbackTx(s, h, contract))
  {
    RollbackIds(s, h, contract);
    var r := RollbackTx(s, h, contract);
    assert |r.txs| == |s.txs|;
    forall g: nat | g in Without(s.readers, h)
      ensures g in s.readers
    {
      WithoutMembers(s.readers, h, g);
    }
  }

  lemma {:induction false} ApplyTracked(s: State, a: Step)
    requires LockInv(s) && TxInv(s) && Tracked(s) && !a.Scribble?
    ensures Tracked(Apply(s, a))
  {
    match a
    case BeginWrite => StartWriteTracked(s);
    case Rollback(h, contract) =>
      if h < |s.txs| {
        RollbackTracked(s, h, contract);
      }
    case _ =>
  }

  /** Without overwritten records, tracked readers always carry an id that has committed. */
  lemma {:induction false} QuietRunTracked(s: State, steps: seq<Step>)
    requires SnapInv(s) && Tracked(s) && HonestRun(s, steps) && Quiet(steps)
    ensures Tracked(Run(s, steps))
    decreases |steps|
  {
    if steps != [] {
      QuietRest(steps);
      ApplySafe(s, steps[0]);
      ApplyTracked(s, steps[0]);
      QuietRunTracked(Apply(s, steps[0]), steps[1..]);
    }
  }

  // ---- the code as written ----

  lemma {:induction false} FirstStep(s: State, a: Step, rest: seq<Step>)
    requires LockInv(s) && (a.BeginWrite? ==> s.metaTxid < MAX_TXID)
    requires LockInv(Apply(s, a)) && RoomyRun(Apply(s, a), rest)
    ensures RoomyRun(s, [a] + rest) && Run(s, [a] + rest) == Run(Apply(s, a), rest)
  {
    assert ([a] + rest)[1..] == rest;
  }

  /** The writer begins, sets page p aside and gives up; all that stays is the page. */
  lemma {:induction false} PageLeftBehind(s: State, p: U64)
    requires LockInv(s) && s.readers == [] && s.rwtx.None? && !s.readOnly && !s.isOpened
    requires s.metaTxid + 1 < MAX_TXID && p !in s.cache
    ensures var w := Apply(s, BeginWrite);
      Handles(w) && w.rwtx == Some(|s.txs|) && w.metaTxid == s.metaTxid && LockInv(w)
    ensures var f := Apply(Apply(s, BeginWrite), FreePage(p));
      && LockInv(f) && |s.txs| < |f.txs| && f.rwtx == Some(|s.txs|) && !f.readOnly && !f.isOpened
      && f.readers == [] && f.metaTxid == s.metaTxid && f.txs[|s.txs|].txid == s.metaTxid + 1
      && s.metaTxid + 1 in f.pending && p in f.pending[s.metaTxid + 1] && p in f.tag && f.tag[p] == s.metaTxid + 1
  {
    var w := Apply(s, BeginWrite);
    ApplyKeepsLock(s, BeginWrite);
    ApplyKeepsLock(w, FreePage(p));
    assert w.cache == s.cache && w.txs[|s.txs|].txid == s.metaTxid + 1;
  }

  lemma {:induction false} PageStaysBehind(f: State, h: nat, p: U64)
    requires LockInv(f) && f.rwtx == Some(h) && h < |f.txs| && !f.readOnly && !f.isOpened && f.readers == []
    requires f.metaTxid + 1 < MAX_TXID && f.metaTxid + 1 in f.pending && p in f.pending[f.metaTxid + 1]
    requires p in f.tag && f.tag[p] == f.metaTxid + 1
    ensures RoomyRun(f, [Rollback(h, false), BeginWrite, BeginRead])
    ensures !Safe(Run(f, [Rollback(h, false), BeginWrite, BeginRead]))
  {
    var r := Apply(f, Rollback(h, false));
    ApplyKeepsLock(f, Rollback(h, false));
    WriteThenReadUnsafe(r, f.metaTxid + 1, p);
    HonestIsRoomy(r, [BeginWrite, BeginRead]);
    FirstStep(f, Rollback(h, false), [BeginWrite, BeginRead]);
    assert [Rollback(h, false)] + [BeginWrite, BeginRead] == [Rollback(h, false), BeginWrite, BeginRead];
  }

  /** Without a tracked reader, one writer that gives up is enough. */
  lemma {:induction false} GivingUpUnsafe(s: State, p: U64) returns (steps: seq<Step>)
    requires LockInv(s) && s.readers == [] && s.rwtx.None? && !s.readOnly && !s.isOpened
    requires s.metaTxid + 1 < MAX_TXID && p !in s.cache
    ensures Written(steps) && RoomyRun(s, steps) && !Safe(Run(s, steps))
  {
    PageLeftBehind(s, p);
    var w := Apply(s, BeginWrite);
    var f := Apply(w, FreePage(p));
    var rest := [Rollback(|s.txs|, false), BeginWrite, BeginRead];
    PageStaysBehind(f, |s.txs|, p);
    FirstStep(w, FreePage(p), rest);
    FirstStep(s, BeginWrite, [FreePage(p)] + rest);
    steps := [BeginWrite] + ([FreePage(p)] + rest);
  }

  /** A database that goes on with the code as written. */
  ghost predicate GoesOn(s: State) {
    && CoreInv(s) && AsideUpTo(s, s.metaTxid + 1) && Tracked(s)
    && !s.readOnly && !s.isOpened && s.metaTxid + 1 < MAX_TXID && exists p: U64 :: p !in s.cache
  }

  /** The same from a state with an open writer, who gives up first. */
  lemma {:induction false} NoReaderUnsafe(s: State) returns (steps: seq<Step>)
    requires GoesOn(s) && s.readers == []
    ensures Written(steps) && RoomyRun(s, steps) && !Safe(Run(s, steps))
  {
    var p: U64 :| p !in s.cache;
    if s.rwtx.None? {
      steps := GivingUpUnsafe(s, p);
    } else {
      var a := Rollback(s.rwtx.value, false);
      ApplyKeepsLock(s, a);
      var rest := GivingUpUnsafe(Apply(s, a), p);
      FirstStep(s, a, rest);
      steps := [a] + rest;
    }
  }

  /**
  The code as written, with rollbacks that drop nothing and readers that are never forgotten: every run
  is safe exactly when some reader has begun. From then on no page that a later writer frees is released.
   */
  lemma {:induction false} WrittenCodeSafeWhen(s: State)
    requires GoesOn(s)
    ensures (forall steps :: Written(steps) && RoomyRun(s, steps) ==> Safe(Run(s, steps))) <==> s.readers != []
  {
    if s.readers == [] {
      var steps := NoReaderUnsafe(s);
    } else {
      var g := s.readers[0];
      assert g in s.readers;
      forall steps | Written(steps) && RoomyRun(s, steps)
        ensures Safe(Run(s, steps))
      {
        AnchoredRunSafe(s, steps, g);
      }
    }
  }

  lemma {:induction false} TwoSteps(s: State, a: Step, b: Step)
    requires LockInv(s) && LockInv(Apply(s, a))
    ensures Run(s, [a, b]) == Apply(Apply(s, a), b)
  {
    ApplyKeepsLock(Apply(s, a), b);
    assert [a, b][1..] == [b] && [b][1..] == [];
    assert Run(Apply(s, a), [b]) == Apply(Apply(s, a), b);
  }

  lemma {:induction false} WriterWithPage(s: State, p: U64)
    requires SnapInv(s) && s.readers == [] && s.rwtx.None? && !s.readOnly && !s.isOpened
    requires s.metaTxid + 1 < MAX_TXID && p !in s.cache
    ensures var f := Run(s, [BeginWrite, FreePage(p)]);
      GivesUp(f, |s.txs|) && !NothingAside(f, s.metaTxid + 1)
  {
    PageLeftBehind(s, p);
    ApplySafe(s, BeginWrite);
    ApplySafe(Apply(s, BeginWrite), FreePage(p));
    TwoSteps(s, BeginWrite, FreePage(p));
  }

  /**
  Every honest run from a fresh writable database ends in a state that these results speak of, as long as
  closed readers keep their ids, the counter has room and some page is left to free.
   */
  lemma {:induction false} ReachedGoesOn(s: State, metaTxid: U64, ids: Ids, steps: seq<Step>)
    requires s == Init(false, metaTxid, ids) && forall x: U64 :: multiset(ids)[x] <= 1
    requires LockInv(s) && HonestRun(s, steps) && Quiet(steps)
    ensures var r := Run(s, steps);
      && Tracked(r)
      && (r.metaTxid + 1 < 0xFFFF_FFFF_FFFF_FFFF && r.rwtx.Some? ==> GivesUp(r, r.rwtx.value))
      && (r.metaTxid + 1 < 0xFFFF_FFFF_FFFF_FFFF && (exists p: U64 :: p !in r.cache) ==> GoesOn(r))
  {
    InitSafe(false, metaTxid, ids);
    RunKeepsSnapInv(s, steps);
    QuietRunTracked(s, steps);
    ReadOnlyStays(s, steps);
  }

  /** The conditions on runs, step by step. */
  lemma {:induction false} RunConditions(s: State, a: Step, rest: seq<Step>)
    requires LockInv(s) && LockInv(Apply(s, a))
    ensures HonestRun(s, [a] + rest) <==> Honest(s, a) && HonestRun(Apply(s, a), rest)
    ensures RoomyRun(s, [a] + rest) <==>
      !(a == BeginWrite && s.metaTxid == 0xFFFF_FFFF_FFFF_FFFF) && RoomyRun(Apply(s, a), rest)
    ensures Quiet([a] + rest) <==> !a.Scribble? && Quiet(rest)
    ensures Written([a] + rest) <==> !a.Scribble? && (a.Rollback? ==> !a.contract) && Written(rest)
    ensures HonestRun(s, []) && RoomyRun(s, []) && Quiet([]) && Written([])
  {
    var steps := [a] + rest;
    assert steps[0] == a && steps[1..] == rest;
    assert a in steps && forall b :: b in steps <==> b == a || b in rest;
  }

  /** A writer with a page set aside is two steps away from any fresh database, ... */
  lemma {:induction false} GivingUpHappens(s: State, metaTxid: U64, ids: Ids, p: U64)
    requires s == Init(false, metaTxid, ids) && metaTxid + 1 < MAX_TXID
    requires (forall x: U64 :: multiset(ids)[x] <= 1) && p !in ids
    ensures LockInv(s)
    ensures var f := Run(s, [BeginWrite, FreePage(p)]); GivesUp(f, |s.txs|) && !NothingAside(f, metaTxid + 1)
  {
    InitSafe(false, metaTxid, ids);
    WriterWithPage(s, p);
  }

  /** ... and if it gives up, an unsafe run of the code as written follows. */
  lemma {:induction false} FreshDatabaseUnsafe(s: State, metaTxid: U64, ids: Ids, p: U64) returns (steps: seq<Step>)
    requires s == Init(false, metaTxid, ids) && metaTxid + 1 < MAX_TXID && p !in ids
    ensures LockInv(s) && Written(steps) && RoomyRun(s, steps) && !Safe(Run(s, steps))
  {
    steps := GivingUpUnsafe(s, p);
  }
}
