/**
Transactions as objects (bolt/db.cpp, `begin`, `begin_tx`, `begin_rwtx`; bolt/tx.cpp, `Tx::Tx`,
`rollback`, `_rollback`, `close`). Every method is one step of `Protocol` on the database's state.
 */
module Database {
  import opened Slices
  import opened Pages
  import opened FreeLists
  import opened Protocol

  /** Outcome of beginning a transaction; `Blocked` waits for the writer lock. */
  datatype Begun = Started(tx: Tx) | DatabaseReadOnly | DatabaseNotOpen | Blocked

  class Tx {
    const writable: bool
    const txid: U64
    ghost const handle: nat
    var db: DB?
    ghost var unlocks: nat

    /** Copies the meta page; a writer works under the next transaction id. */
    constructor (db: DB, writable: bool, ghost handle: nat)
      ensures this.db == db && this.writable == writable && this.handle == handle && unlocks == 0
      ensures txid == if writable then NextTxid(db.metaTxid) else db.metaTxid
    {
      this.db, this.writable, this.handle, unlocks := db, writable, handle, 0;
      txid := if writable then (db.metaTxid + 1) % 0x1_0000_0000_0000_0000 else db.metaTxid;
    }

    ghost function Rec(): TxRec
      reads this
    {
      TxRec(writable, txid, db != null, unlocks)
    }
  }

  class DB {
    var readOnly: bool
    var isOpened: bool
    var metaTxid: U64
    var txs: seq<Tx>
    var rwtx: Tx?
    var rwlock: bool
    const freelist: FreeList
    ghost var all: seq<Tx>
    ghost var tag: map<U64, U64>

    /** `isOpened` starts false and no code ever sets it. */
    constructor (readOnly: bool, metaTxid: U64, freelist: FreeList)
      requires freelist.pending == map[] && freelist.cache == SetOf(freelist.ids)
      ensures Valid() && this.freelist == freelist
      ensures State() == Init(readOnly, metaTxid, freelist.ids)
      ensures this.readOnly == readOnly && !isOpened && this.metaTxid == metaTxid
      ensures txs == [] && rwtx == null && !rwlock
    {
      this.readOnly, isOpened, this.metaTxid := readOnly, false, metaTxid;
      txs, rwtx, rwlock, this.freelist := [], null, false, freelist;
      all, tag := [], map[];
    }

    ghost function Recs(): (r: seq<TxRec>)
      reads this, all
      ensures |r| == |all| && forall i :: 0 <= i < |all| ==> r[i] == all[i].Rec()
    {
      seq(|all|, i requires 0 <= i < |all| reads this, all => all[i].Rec())
    }

    ghost function State(): Protocol.State
      reads this, all, freelist
    {
      Protocol.State(readOnly, isOpened, metaTxid, Recs(), HandlesOf(txs),
                     if rwtx == null then None else Some(rwtx.handle), rwlock,
                     multiset(freelist.ids), freelist.pending, freelist.cache, tag)
    }

    ghost predicate Valid()
      reads this, all, freelist
    {
      Linked() && LockInv(State())
    }

    /** Handles index the list of all transactions. */
    ghost predicate Linked()
      reads this, all
    {
      && (forall i :: 0 <= i < |all| ==> all[i].handle == i && (all[i].db == null || all[i].db == this))
      && (forall t :: t in txs ==> Knows(t))
      && (rwtx != null ==> Knows(rwtx))
    }

    ghost predicate Knows(t: Tx)
      reads this
    {
      t.handle < |all| && all[t.handle] == t
    }

    method Begin(writable: bool) returns (r: Begun)
      requires Valid()
      modifies this`txs, this`all, this`rwtx, this`rwlock, freelist`ids, freelist`pending
      ensures Valid()
      ensures State() == if writable then old(StartWrite(State())) else old(StartRead(State()))
      ensures r.Started? ==> fresh(r.tx) && r.tx.writable == writable && r.tx.db == this && Knows(r.tx)
      ensures r.Started? && !writable ==> txs == old(txs) + [r.tx] && r.tx.txid == metaTxid
      ensures r.Started? && writable ==> rwlock && rwtx == r.tx
      ensures r.Started? && writable ==> r.tx.txid == (metaTxid + 1) % 0x1_0000_0000_0000_0000
      ensures r.Started? && writable ==> forall p :: p in freelist.ids <==>
        (p in old(freelist.ids) || exists k | k in old(freelist.pending) && p in old(freelist.pending)[k] ::
          k < 0xFFFF_FFFF_FFFF_FFFF && forall u | u in txs :: k < u.txid)
      ensures r.Started? && writable ==> forall k :: k in freelist.pending <==>
        (k in old(freelist.pending) && !(k < 0xFFFF_FFFF_FFFF_FFFF && forall u :: u in txs ==> k < u.txid))
      ensures r.Started? && writable ==>
        forall k :: k in freelist.pending ==> freelist.pending[k] == old(freelist.pending)[k]
      ensures !r.Started? ==> State() == old(State())
    {
      if writable {
        r := BeginRwTx();
      } else {
        r := BeginTx();
      }
    }

    /** Tracks a new reader of the committed snapshot. */
    method BeginTx() returns (r: Begun)
      requires Valid()
      modifies this`txs, this`all
      ensures Valid() && State() == old(StartRead(State()))
      ensures r.Started? <==> !isOpened
      ensures r.Started? ==> fresh(r.tx) && !r.tx.writable && r.tx.db == this && Knows(r.tx)
      ensures r.Started? ==> txs == old(txs) + [r.tx] && r.tx.txid == metaTxid
      ensures !r.Started? ==> State() == old(State())
    {
      if isOpened {
        return DatabaseNotOpen;
      }
      BeginKeepsLock(State());
      var t := new Tx(this, false, |all|);
      Appended(txs, t);
      txs := txs + [t];
      all := all + [t];
      assert Recs() == old(Recs()) + [t.Rec()];
      r := Started(t);
    }

    /** The oldest snapshot among the tracked readers. */
    method OldestTxid() returns (minid: U64)
      requires Valid()
      ensures Handles(State()) && minid == OldestReader(State().txs, State().readers)
      ensures forall u :: u in txs ==> minid <= u.txid
      ensures minid == 0xFFFF_FFFF_FFFF_FFFF || exists u :: u in txs && u.txid == minid
    {
      minid := 0xFFFF_FFFF_FFFF_FFFF;
      ghost var recs, hs := Recs(), HandlesOf(txs);
      assert Within(hs, |recs|);
      for i := 0 to |txs|
        invariant Within(hs[..i], |recs|)
        invariant minid == OldestReader(recs, hs[..i])
      {
        OldestNext(recs, hs, i);
        assert Knows(txs[i]) && recs[hs[i]].txid == txs[i].txid;
        if txs[i].txid < minid {
          minid := txs[i].txid;
        }
      }
      assert hs[..|txs|] == hs;
      OldestInFields(minid);
    }

    lemma OldestInFields(minid: U64)
      requires Linked() && Handles(State()) && minid == OldestReader(State().txs, State().readers)
      ensures forall u :: u in txs ==> minid <= u.txid
      ensures minid == 0xFFFF_FFFF_FFFF_FFFF || exists u :: u in txs && u.txid == minid
    {
      var recs, hs := Recs(), HandlesOf(txs);
      forall i | 0 <= i < |txs|
        ensures hs[i] in hs && recs[hs[i]].txid == txs[i].txid
      {
        assert Knows(txs[i]);
      }
      if minid != 0xFFFF_FFFF_FFFF_FFFF {
        var h :| h in hs && recs[h].txid == minid;
        var i :| 0 <= i < |hs| && hs[i] == h;
        assert txs[i] in txs && txs[i].txid == minid;
      }
    }

    /**
    Takes the writer lock, starts the writer and frees exactly the pages of transactions below the largest
    id and below every tracked reader; all other pages stay set aside.
     */
    method BeginRwTx() returns (r: Begun)
      requires Valid()
      modifies this`all, this`rwtx, this`rwlock, freelist`ids, freelist`pending
      ensures Valid() && State() == old(StartWrite(State()))
      ensures r == DatabaseReadOnly <==> readOnly
      ensures r == Blocked <==> !readOnly && old(rwlock)
      ensures r.Started? <==> !readOnly && !old(rwlock) && !isOpened
      ensures r.Started? ==> fresh(r.tx) && r.tx.writable && r.tx.db == this && Knows(r.tx)
      ensures r.Started? ==> rwlock && rwtx == r.tx && r.tx.txid == (metaTxid + 1) % 0x1_0000_0000_0000_0000
      ensures r.Started? ==> forall p :: p in freelist.ids <==>
        (p in old(freelist.ids) || exists k | k in old(freelist.pending) && p in old(freelist.pending)[k] ::
          k < 0xFFFF_FFFF_FFFF_FFFF && forall u | u in txs :: k < u.txid)
      ensures r.Started? ==> forall k :: k in freelist.pending <==>
        (k in old(freelist.pending) && !(k < 0xFFFF_FFFF_FFFF_FFFF && forall u :: u in txs ==> k < u.txid))
      ensures r.Started? ==> forall k :: k in freelist.pending ==> freelist.pending[k] == old(freelist.pending)[k]
      ensures !r.Started? ==> State() == old(State())
    {
      if readOnly {
        return DatabaseReadOnly;
      }
      if rwlock {
        return Blocked;
      }
      if isOpened {
        return DatabaseNotOpen;
      }
      ghost var before := freelist.pending;
      var t, minid := StartWriter();
      r := Started(t);
      forall k | k in before
        ensures k < minid <==> k < 0xFFFF_FFFF_FFFF_FFFF && forall u :: u in txs ==> k < u.txid
      {
      }
    }

    /** `minid` is the oldest tracked snapshot, the threshold of the release. */
    method StartWriter() returns (t: Tx, ghost minid: U64)
      requires Valid() && !readOnly && !rwlock && !isOpened
      modifies this`all, this`rwtx, this`rwlock, freelist`ids, freelist`pending
      ensures Valid() && State() == old(StartWrite(State()))
      ensures fresh(t) && t.writable && t.db == this && Knows(t)
      ensures rwlock && rwtx == t && t.txid == (metaTxid + 1) % 0x1_0000_0000_0000_0000
      ensures forall u :: u in txs ==> minid <= u.txid
      ensures minid == 0xFFFF_FFFF_FFFF_FFFF || exists u :: u in txs && u.txid == minid
      ensures forall p :: p in freelist.ids <==>
        (p in old(freelist.ids) || exists k :: k in old(freelist.pending) && k < minid && p in old(freelist.pending)[k])
      ensures forall k :: k in freelist.pending <==> (k in old(freelist.pending) && k >= minid)
      ensures forall k :: k in freelist.pending ==> freelist.pending[k] == old(freelist.pending)[k]
    {
      ghost var s := State();
      BeginKeepsLock(s);
      var oldest := OldestTxid();
      minid := oldest;
      assert StartWrite(s) == ReleaseOld(WithWriter(s), oldest);
      t := InstallWriter();
      ReleaseOldPages(oldest);
    }

    /** What the protocol needs to know of `FreeList.Release`. */
    method MovePages(t: U64)
      modifies freelist`ids, freelist`pending
      ensures multiset(freelist.ids) == old(multiset(freelist.ids) + multiset(Released(freelist.pending, t)))
      ensures freelist.pending == old(freelist.pending - Due(freelist.pending, t))
      ensures forall p :: p in freelist.ids <==>
        (p in old(freelist.ids) || exists k :: k in old(freelist.pending) && k <= t && p in old(freelist.pending)[k])
      ensures forall k :: k in freelist.pending <==> (k in old(freelist.pending) && k > t)
      ensures forall k :: k in freelist.pending ==> freelist.pending[k] == old(freelist.pending)[k]
    {
      freelist.Release(t);
    }

    method ReleaseOldPages(minid: U64)
      modifies freelist`ids, freelist`pending
      ensures State() == old(ReleaseOld(State(), minid))
      ensures forall p :: p in freelist.ids <==>
        (p in old(freelist.ids) || exists k :: k in old(freelist.pending) && k < minid && p in old(freelist.pending)[k])
      ensures forall k :: k in freelist.pending <==> (k in old(freelist.pending) && k >= minid)
      ensures forall k :: k in freelist.pending ==> freelist.pending[k] == old(freelist.pending)[k]
    {
      ghost var s := State();
      if minid > 0 {
        MovePages(minid - 1);
        assert Recs() == old(Recs());
        assert State() == s.(ids := multiset(freelist.ids), pending := freelist.pending);
      }
    }

    method InstallWriter() returns (t: Tx)
      requires Valid() && rwtx == null
      modifies this`all, this`rwtx, this`rwlock
      ensures fresh(t) && t.writable && t.db == this && Knows(t)
      ensures State() == old(WithWriter(State()))
      ensures Linked()
      ensures rwlock && rwtx == t && t.txid == (metaTxid + 1) % 0x1_0000_0000_0000_0000
    {
      rwlock := true;
      t := new Tx(this, true, |all|);
      rwtx := t;
      all := all + [t];
      assert Recs() == old(Recs()) + [t.Rec()];
    }

    /** Forgets a reader, as its declaration intends. */
    method RemoveTx(t: Tx)
      requires Knows(t) && forall u :: u in txs ==> Knows(u)
      modifies this`txs
      ensures HandlesOf(txs) == Without(old(HandlesOf(txs)), t.handle)
      ensures forall u :: u in txs <==> u in old(txs) && u != t
    {
      var kept, ts: seq<Tx> := [], txs;
      var i := |ts|;
      ghost var hs := HandlesOf(ts);
      assert hs[|ts|..] == [];
      while i > 0
        invariant 0 <= i <= |ts| && txs == ts
        invariant HandlesOf(kept) == Without(hs[i..], t.handle)
        invariant forall u :: u in kept ==> u in ts && u != t
        invariant forall j :: i <= j < |ts| && ts[j] != t ==> ts[j] in kept
      {
        i := i - 1;
        assert hs[i..][1..] == hs[i + 1..];
        assert ts[i] in txs && Knows(ts[i]);
        if ts[i] != t {
          Prepended(ts[i], kept);
          kept := [ts[i]] + kept;
        }
      }
      assert hs[0..] == hs;
      txs := kept;
    }

    /** `Tx::close` */
    method Close(t: Tx, contract: bool)
      requires Linked() && Knows(t) && t.db == this
      modifies t, this`rwtx, this`rwlock, this`txs
      ensures Linked() && State() == old(CloseAndForget(State(), t.handle, contract))
      ensures t.db == null && t.unlocks == old(t.unlocks) + if t.writable then 1 else 0
      ensures if t.writable then rwtx == null && !rwlock else rwtx == old(rwtx) && rwlock == old(rwlock)
      ensures if t.writable || !contract then txs == old(txs)
        else forall u :: u in txs <==> u in old(txs) && u != t
    {
      if t.writable {
        CloseWriter(t);
      } else {
        if contract {
          RemoveTx(t);
        }
        Detach(t);
      }
    }

    /** Gives the writer lock back. */
    method CloseWriter(t: Tx)
      requires Linked() && Knows(t) && t.writable && t.db == this
      modifies t, this`rwtx, this`rwlock
      ensures Linked() && State() == old(CloseTx(State(), t.handle))
      ensures t.db == null && t.unlocks == old(t.unlocks) + 1 && rwtx == null && !rwlock
    {
      ghost var before := Recs();
      rwtx := null;
      rwlock := false;
      t.unlocks := t.unlocks + 1;
      t.db := null;
      assert Recs() == before[t.handle := t.Rec()];
    }

    method Detach(t: Tx)
      requires Linked() && Knows(t)
      modifies t`db
      ensures Linked() && t.db == null && Recs() == old(Recs())[t.handle := old(t.Rec()).(open := false)]
    {
      ghost var before := Recs();
      t.db := null;
      assert Recs() == before[t.handle := t.Rec()];
    }

    /**
    `Tx::rollback`: refuses a closed transaction. The flag says whether the two empty bodies it calls
    keep their promises.
     */
    method Rollback(t: Tx, contract: bool) returns (ok: bool)
      requires Valid() && Knows(t)
      modifies t, this`rwtx, this`rwlock, this`txs, freelist`pending, freelist`cache
      ensures Valid() && ok == (old(t.db) != null)
      ensures State() == old(RollbackTx(State(), t.handle, contract))
      ensures !ok ==> State() == old(State())
      ensures ok ==> t.db == null && t.unlocks == old(t.unlocks) + if t.writable then 1 else 0
      ensures ok ==> if t.writable then rwtx == null && !rwlock else rwtx == old(rwtx) && rwlock == old(rwlock)
      ensures ok ==> if t.writable || !contract then txs == old(txs)
        else forall u :: u in txs <==> u in old(txs) && u != t
      ensures metaTxid == old(metaTxid) && freelist.ids == old(freelist.ids)
      ensures freelist.pending == old(if t.db != null && t.writable && contract then freelist.pending - {t.txid}
                                      else freelist.pending)
    {
      if t.db == null {
        return false;
      }
      RollbackKeepsLock(State(), t.handle, contract);
      if t.writable && contract {
        freelist.DropPending(t.txid);
        assert Recs() == old(Recs());
      }
      Close(t, contract);
      ok := true;
    }
  }

  ghost function HandlesOf(ts: seq<Tx>): (hs: seq<nat>)
    ensures |hs| == |ts| && forall i :: 0 <= i < |ts| ==> hs[i] == ts[i].handle
  {
    seq(|ts|, i requires 0 <= i < |ts| => ts[i].handle)
  }

  lemma {:induction false} Appended(ts: seq<Tx>, t: Tx)
    ensures HandlesOf(ts + [t]) == HandlesOf(ts) + [t.handle]
  {
  }

  lemma {:induction false} Prepended(t: Tx, ts: seq<Tx>)
    ensures HandlesOf([t] + ts) == [t.handle] + HandlesOf(ts)
  {
  }
}
