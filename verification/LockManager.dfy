/** Row locks: the lock table, the locks each transaction owns, and the operations on both. */
module Locking {
  import opened Common

  type TxnId = nat
  type RowKey = nat

  datatype Entry = Entry(shared: set<TxnId>, exclusive: Option<TxnId>)

  datatype Locks = Locks(table: map<RowKey, Entry>, owned: map<TxnId, set<RowKey>>)

  datatype TxnState = Active | Committed | Aborted

  predicate Unused(e: Entry) {
    e.shared == {} && e.exclusive.None?
  }

  /** A row without an entry is like a row with an empty one. */
  function EntryAt(s: Locks, rid: RowKey): Entry {
    if rid in s.table then s.table[rid] else Entry({}, None)
  }

  function OwnedBy(s: Locks, t: TxnId): set<RowKey> {
    if t in s.owned then s.owned[t] else {}
  }

  predicate Writes(e: Entry, t: TxnId) {
    e.exclusive == Some(t)
  }

  predicate Touches(e: Entry, t: TxnId) {
    t in e.shared || Writes(e, t)
  }

  ghost predicate HoldsShared(s: Locks, t: TxnId, rid: RowKey) {
    Touches(EntryAt(s, rid), t)
  }

  ghost predicate HoldsExclusive(s: Locks, t: TxnId, rid: RowKey) {
    Writes(EntryAt(s, rid), t)
  }

  /** An exclusive holder excludes everyone else. */
  ghost predicate Exclusion(s: Locks) {
    forall rid, t, u :: HoldsExclusive(s, t, rid) && HoldsShared(s, u, rid) ==> t == u
  }

  /** The per-transaction sets say exactly what the table says. */
  ghost predicate Mirrored(s: Locks) {
    forall t, rid :: rid in OwnedBy(s, t) <==> HoldsShared(s, t, rid)
  }

  /** Nothing empty is kept. */
  ghost predicate NoneEmpty(s: Locks) {
    && (forall rid :: rid in s.table ==> !Unused(s.table[rid]))
    && (forall t :: t in s.owned ==> s.owned[t] != {})
  }

  ghost predicate Consistent(s: Locks) {
    Exclusion(s) && Mirrored(s) && NoneEmpty(s)
  }

  // ---------- what the operations do ----------

  function Remember(s: Locks, t: TxnId, rid: RowKey, e: Entry): Locks {
    Locks(s.table[rid := e], s.owned[t := OwnedBy(s, t) + {rid}])
  }

  function SharedEntry(e: Entry, t: TxnId): Option<Entry> {
    if e.exclusive.Some? && e.exclusive.value != t then None
    else Some(Entry(e.shared + {t}, e.exclusive))
  }

  function ExclusiveEntry(e: Entry, t: TxnId): Option<Entry> {
    if e.exclusive == Some(t) then Some(e)
    else if e.exclusive.Some? then None
    else if e.shared == {} || e.shared == {t} then Some(Entry({}, Some(t)))
    else None
  }

  function Without(e: Entry, t: TxnId): Entry {
    Entry(e.shared - {t}, if e.exclusive == Some(t) then None else e.exclusive)
  }

  /** The locks after transaction t gave up row rid. */
  function Dropped(s: Locks, t: TxnId, rid: RowKey): Locks {
    var left := Without(EntryAt(s, rid), t);
    var rest := OwnedBy(s, t) - {rid};
    Locks(if rid !in s.table then s.table else if Unused(left) then s.table - {rid} else s.table[rid := left],
          if t !in s.owned then s.owned else if rest == {} then s.owned - {t} else s.owned[t := rest])
  }

  /** What remains when a transaction has nothing any more. */
  ghost predicate Released(s: Locks, s': Locks, t: TxnId) {
    && Consistent(s')
    && (forall rid :: EntryAt(s', rid) == Without(EntryAt(s, rid), t))
    && (forall u :: OwnedBy(s', u) == if u == t then {} else OwnedBy(s, u))
  }

  lemma SoleHolder(s: Locks, rid: RowKey)
    requires Exclusion(s)
    ensures var e := EntryAt(s, rid); e.exclusive.Some? ==> e.shared <= {e.exclusive.value}
  {
    var e := EntryAt(s, rid);
    if e.exclusive.Some? {
      forall u | u in e.shared
        ensures u == e.exclusive.value
      {
        assert HoldsExclusive(s, e.exclusive.value, rid) && HoldsShared(s, u, rid);
      }
    }
  }

  lemma SharedConsistent(s: Locks, t: TxnId, rid: RowKey)
    requires Consistent(s) && SharedEntry(EntryAt(s, rid), t).Some?
    ensures Consistent(Remember(s, t, rid, SharedEntry(EntryAt(s, rid), t).value))
  {
    SoleHolder(s, rid);
    Granted(s, t, rid, SharedEntry(EntryAt(s, rid), t).value);
  }

  lemma ExclusiveConsistent(s: Locks, t: TxnId, rid: RowKey)
    requires Consistent(s) && ExclusiveEntry(EntryAt(s, rid), t).Some?
    ensures Consistent(Remember(s, t, rid, ExclusiveEntry(EntryAt(s, rid), t).value))
  {
    SoleHolder(s, rid);
    Granted(s, t, rid, ExclusiveEntry(EntryAt(s, rid), t).value);
  }

  /** Giving t a lock on a row whose entry then admits nobody beside an exclusive holder. */
  lemma Granted(s: Locks, t: TxnId, rid: RowKey, e: Entry)
    requires Consistent(s) && Touches(e, t)
    requires forall u :: u != t ==> (Touches(e, u) <==> Touches(EntryAt(s, rid), u))
    requires e.exclusive.Some? ==> e.shared <= {e.exclusive.value}
    ensures Consistent(Remember(s, t, rid, e))
  {
    var s' := Remember(s, t, rid, e);
    forall r, u, v | HoldsExclusive(s', u, r) && HoldsShared(s', v, r)
      ensures u == v
    {
      if r != rid { assert HoldsExclusive(s, u, r) && HoldsShared(s, v, r); }
    }
    forall u, r
      ensures r in OwnedBy(s', u) <==> HoldsShared(s', u, r)
    {
      assert r in OwnedBy(s, u) <==> HoldsShared(s, u, r);
    }
  }

  lemma DroppedEntries(s: Locks, t: TxnId, rid: RowKey)
    ensures var s' := Dropped(s, t, rid);
            && (forall r :: EntryAt(s', r) == if r == rid then Without(EntryAt(s, rid), t) else EntryAt(s, r))
            && (forall u :: OwnedBy(s', u) == if u == t then OwnedBy(s, t) - {rid} else OwnedBy(s, u))
  {
  }

  lemma DroppedConsistent(s: Locks, t: TxnId, rid: RowKey)
    requires Consistent(s)
    ensures Consistent(Dropped(s, t, rid))
  {
    var s' := Dropped(s, t, rid);
    DroppedEntries(s, t, rid);
    forall r, u, v | HoldsExclusive(s', u, r) && HoldsShared(s', v, r)
      ensures u == v
    {
      assert HoldsExclusive(s, u, r) && HoldsShared(s, v, r);
    }
    forall u, r
      ensures r in OwnedBy(s', u) <==> HoldsShared(s', u, r)
    {
      assert r in OwnedBy(s, u) <==> HoldsShared(s, u, r);
    }
  }

  // ---------- the lock manager ----------

  class LockManager {
    var table: map<RowKey, Entry>
    var owned: map<TxnId, set<RowKey>>

    ghost function State(): Locks
      reads this
    {
      Locks(table, owned)
    }

    ghost predicate Valid()
      reads this
    {
      Consistent(State())
    }

    constructor ()
      ensures Valid() && State() == Locks(map[], map[])
    {
      table, owned := map[], map[];
    }

    method RememberOwnership(t: TxnId, rid: RowKey)
      modifies this`owned
      ensures owned == old(owned)[t := old(OwnedBy(State(), t)) + {rid}]
    {
      owned := owned[t := (if t in owned then owned[t] else {}) + {rid}];
    }

    /** Granted unless another transaction has the row exclusively. */
    method LockShared(t: TxnId, state: TxnState, rid: RowKey) returns (status: Status)
      requires Valid()
      modifies this
      ensures Valid()
      ensures status == if state.Active? && SharedEntry(EntryAt(old(State()), rid), t).Some? then Ok
              else TransactionError
      ensures status.Ok? ==> HoldsShared(State(), t, rid)
      ensures State() == if status.Ok?
                         then Remember(old(State()), t, rid, SharedEntry(EntryAt(old(State()), rid), t).value)
                         else old(State())
    {
      if !state.Active? {
        return TransactionError;
      }
      var entry := if rid in table then table[rid] else Entry({}, None);
      if entry.exclusive.Some? && entry.exclusive.value != t {
        return TransactionError;
      }
      SharedConsistent(State(), t, rid);
      table := table[rid := Entry(entry.shared + {t}, entry.exclusive)];
      RememberOwnership(t, rid);
      return Ok;
    }

    /** Granted when nobody else has the row; a shared lock of one's own is upgraded. */
    method LockExclusive(t: TxnId, state: TxnState, rid: RowKey) returns (status: Status)
      requires Valid()
      modifies this
      ensures Valid()
      ensures status == if state.Active? && ExclusiveEntry(EntryAt(old(State()), rid), t).Some? then Ok
              else TransactionError
      ensures status.Ok? ==> HoldsExclusive(State(), t, rid) && forall u :: HoldsShared(State(), u, rid) ==> u == t
      ensures State() == if status.Ok?
                         then Remember(old(State()), t, rid, ExclusiveEntry(EntryAt(old(State()), rid), t).value)
                         else old(State())
    {
      if !state.Active? {
        return TransactionError;
      }
      var entry := if rid in table then table[rid] else Entry({}, None);
      if entry.exclusive == Some(t) {
        ExclusiveConsistent(State(), t, rid);
        assert table[rid := entry] == table;
        RememberOwnership(t, rid);
        return Ok;
      }
      if entry.exclusive.Some? {
        return TransactionError;
      }
      if entry.shared == {} || entry.shared == {t} {
        ExclusiveConsistent(State(), t, rid);
        table := table[rid := Entry({}, Some(t))];
        RememberOwnership(t, rid);
        return Ok;
      }
      return TransactionError;
    }

    /** Takes a transaction out of one entry, and the entry out of the table when it is then empty. */
    method LeaveEntry(t: TxnId, rid: RowKey)
      requires rid in table
      modifies this`table
      ensures table == if Unused(Without(old(table)[rid], t)) then old(table) - {rid}
                       else old(table)[rid := Without(old(table)[rid], t)]
    {
      var entry := table[rid];
      if entry.exclusive == Some(t) {
        entry := Entry(entry.shared, None);
      }
      entry := Entry(entry.shared - {t}, entry.exclusive);
      if entry.exclusive.None? && entry.shared == {} {
        table := table - {rid};
      } else {
        table := table[rid := entry];
      }
    }

    method Unlock(t: TxnId, rid: RowKey)
      requires Valid()
      modifies this
      ensures Valid() && State() == Dropped(old(State()), t, rid)
      ensures !HoldsShared(State(), t, rid)
    {
      DroppedConsistent(State(), t, rid);
      if rid in table {
        LeaveEntry(t, rid);
      }
      if t in owned {
        var rest := owned[t] - {rid};
        if rest == {} {
          owned := owned - {t};
        } else {
          owned := owned[t := rest];
        }
      }
    }

    /** Afterwards the transaction holds nothing, and the locks of all others are as before. */
    method UnlockAll(t: TxnId)
      requires Valid()
      modifies this
      ensures Released(old(State()), State(), t)
    {
      ghost var s := State();
      if t !in owned {
        NothingHeld(s, t);
        return;
      }
      OwnedRows(s, t);
      LeaveAll(t, owned[t]);
      owned := owned - {t};
      ReleasedAll(s, State(), t);
    }

    /** Every row that a transaction owns has an entry. */
    static lemma OwnedRows(s: Locks, t: TxnId)
      requires Consistent(s)
      ensures OwnedBy(s, t) <= s.table.Keys
    {
      forall rid | rid in OwnedBy(s, t)
        ensures rid in s.table
      {
        assert HoldsShared(s, t, rid);
      }
    }

    method LeaveAll(t: TxnId, rids: set<RowKey>)
      requires rids <= table.Keys
      modifies this`table
      ensures forall rid :: EntryAt(State(), rid) ==
                if rid in rids then Without(EntryAt(old(State()), rid), t) else EntryAt(old(State()), rid)
      ensures forall rid :: rid in table ==>
                !Unused(table[rid]) || (rid !in rids && rid in old(table) && table[rid] == old(table)[rid])
    {
      var held := rids;
      ghost var was := table;
      while held != {}
        invariant held <= rids && held <= table.Keys
        invariant forall rid :: EntryAt(State(), rid) ==
                    if rid in rids - held then Without(EntryAt(old(State()), rid), t) else EntryAt(old(State()), rid)
        invariant forall rid :: rid in table ==>
                    !Unused(table[rid]) || (rid !in rids - held && rid in was && table[rid] == was[rid])
        decreases |held|
      {
        var rid :| rid in held;
        LeaveEntry(t, rid);
        held := held - {rid};
      }
    }

    static lemma NothingHeld(s: Locks, t: TxnId)
      requires Consistent(s) && t !in s.owned
      ensures Released(s, s, t)
    {
      forall rid
        ensures EntryAt(s, rid) == Without(EntryAt(s, rid), t)
      {
        assert rid in OwnedBy(s, t) <==> HoldsShared(s, t, rid);
      }
    }

    static lemma ReleasedAll(s: Locks, s': Locks, t: TxnId)
      requires Consistent(s) && s'.owned == s.owned - {t}
      requires forall rid :: EntryAt(s', rid) == if rid in OwnedBy(s, t) then Without(EntryAt(s, rid), t)
               else EntryAt(s, rid)
      requires forall rid :: rid in s'.table ==> !Unused(s'.table[rid])
      ensures Released(s, s', t)
    {
      forall rid
        ensures EntryAt(s', rid) == Without(EntryAt(s, rid), t)
      {
        assert rid in OwnedBy(s, t) <==> HoldsShared(s, t, rid);
      }
      forall r, u, v | HoldsExclusive(s', u, r) && HoldsShared(s', v, r)
        ensures u == v
      {
        assert HoldsExclusive(s, u, r) && HoldsShared(s, v, r);
      }
      forall u, r
        ensures r in OwnedBy(s', u) <==> HoldsShared(s', u, r)
      {
        assert r in OwnedBy(s, u) <==> HoldsShared(s, u, r);
      }
    }
  }

  // ---------- transactions ----------

  class Transaction {
    const id: TxnId
    var state: TxnState

    constructor (id: TxnId)
      ensures this.id == id && state.Active?
    {
      this.id, state := id, Active;
    }
  }

  class TransactionManager {
    const locks: LockManager
    var nextId: TxnId

    constructor (locks: LockManager)
      ensures this.locks == locks && nextId == 1
    {
      this.locks, nextId := locks, 1;
    }

    /** Every transaction gets an id of its own. */
    method Begin() returns (txn: Transaction)
      modifies this
      ensures fresh(txn) && txn.id == old(nextId) && nextId == old(nextId) + 1 && txn.state.Active?
    {
      txn := new Transaction(nextId);
      nextId := nextId + 1;
    }

    method Commit(txn: Transaction) returns (status: Status)
      requires locks.Valid()
      modifies txn, locks
      ensures locks.Valid()
      ensures status == if old(txn.state).Active? then Ok else TransactionError
      ensures txn.state == if status.Ok? then Committed else old(txn.state)
      ensures if status.Ok? then Released(old(locks.State()), locks.State(), txn.id)
              else locks.State() == old(locks.State())
    {
      status := FinishTransaction(txn, Committed);
    }

    method Rollback(txn: Transaction) returns (status: Status)
      requires locks.Valid()
      modifies txn, locks
      ensures locks.Valid()
      ensures status == if old(txn.state).Active? then Ok else TransactionError
      ensures txn.state == if status.Ok? then Aborted else old(txn.state)
      ensures if status.Ok? then Released(old(locks.State()), locks.State(), txn.id)
              else locks.State() == old(locks.State())
    {
      status := FinishTransaction(txn, Aborted);
    }

    method FinishTransaction(txn: Transaction, target: TxnState) returns (status: Status)
      requires locks.Valid()
      modifies txn, locks
      ensures locks.Valid()
      ensures status == if old(txn.state).Active? then Ok else TransactionError
      ensures txn.state == if status.Ok? then target else old(txn.state)
      ensures if status.Ok? then Released(old(locks.State()), locks.State(), txn.id)
              else locks.State() == old(locks.State())
    {
      if !txn.state.Active? {
        return TransactionError;
      }
      txn.state := target;
      locks.UnlockAll(txn.id);
      status := Ok;
    }
  }
}
