/** Interleaved transactions that lock before they access a row and keep that lock until they finish
    are serializable in the order in which they finish. */
module Serializability {
  import opened Locking

  datatype Event =
    | TakeShared(t: TxnId, x: RowKey)
    | TakeExclusive(t: TxnId, x: RowKey)
    | Read(t: TxnId, x: RowKey)
    | Write(t: TxnId, x: RowKey)
    | Unlock(t: TxnId, x: RowKey)
    | Finish(t: TxnId, committed: bool)

  datatype Sys = Sys(locks: Locks, finished: set<TxnId>)

  /** One atomic step: a lock that is granted, an access under a lock, a lock given up, or the end of a
      transaction.  A transaction that has finished can still unlock, but nothing else. */
  ghost predicate Step(s: Sys, e: Event, s': Sys) {
    && (e.t in s.finished ==> e.Unlock?)
    && match e
       case TakeShared(t, x) =>
         && SharedEntry(EntryAt(s.locks, x), t).Some?
         && s' == Sys(Remember(s.locks, t, x, SharedEntry(EntryAt(s.locks, x), t).value), s.finished)
       case TakeExclusive(t, x) =>
         && ExclusiveEntry(EntryAt(s.locks, x), t).Some?
         && s' == Sys(Remember(s.locks, t, x, ExclusiveEntry(EntryAt(s.locks, x), t).value), s.finished)
       case Read(t, x) => HoldsShared(s.locks, t, x) && s' == s
       case Write(t, x) => HoldsExclusive(s.locks, t, x) && s' == s
       case Unlock(t, x) => s' == Sys(Dropped(s.locks, t, x), s.finished)
       case Finish(t, _) => Released(s.locks, s'.locks, t) && s'.finished == s.finished + {t}
  }

  ghost predicate StepAt(ss: seq<Sys>, es: seq<Event>, i: nat) {
    i < |es| && i + 1 < |ss| && Step(ss[i], es[i], ss[i + 1])
  }

  ghost predicate Run(ss: seq<Sys>, es: seq<Event>) {
    && |ss| == |es| + 1
    && ss[0] == Sys(Locks(map[], map[]), {})
    && forall i {:trigger StepAt(ss, es, i)} :: 0 <= i < |es| ==> StepAt(ss, es, i)
  }

  /** Every reachable lock state is consistent. */
  lemma {:induction false} RunConsistent(ss: seq<Sys>, es: seq<Event>, i: nat)
    requires Run(ss, es) && i <= |es|
    ensures Consistent(ss[i].locks)
  {
    if i > 0 {
      RunConsistent(ss, es, i - 1);
      var s, e := ss[i - 1].locks, es[i - 1];
      assert StepAt(ss, es, i - 1);
      if e.TakeShared? {
        SharedConsistent(s, e.t, e.x);
      } else if e.TakeExclusive? {
        ExclusiveConsistent(s, e.t, e.x);
      } else if e.Unlock? {
        DroppedConsistent(s, e.t, e.x);
      }
    }
  }

  /** The events by which transaction t gives up row x. */
  ghost predicate GivesUp(e: Event, t: TxnId, x: RowKey) {
    e.t == t && (e.Finish? || (e.Unlock? && e.x == x))
  }

  /** Nothing else takes a lock from a transaction, whoever does it. */
  lemma StepKeeps(s: Sys, e: Event, s': Sys, t: TxnId, x: RowKey)
    requires Consistent(s.locks) && Step(s, e, s') && !GivesUp(e, t, x)
    ensures HoldsShared(s.locks, t, x) ==> HoldsShared(s'.locks, t, x)
    ensures HoldsExclusive(s.locks, t, x) ==> HoldsExclusive(s'.locks, t, x)
  {
    SoleHolder(s.locks, x);
    if e.Unlock? { DroppedEntries(s.locks, e.t, e.x); }
  }

  lemma {:induction false} KeptUntil(ss: seq<Sys>, es: seq<Event>, t: TxnId, x: RowKey, i: nat, j: nat)
    requires Run(ss, es) && i <= j <= |es|
    requires forall k :: i <= k < j ==> !GivesUp(es[k], t, x)
    ensures HoldsShared(ss[i].locks, t, x) ==> HoldsShared(ss[j].locks, t, x)
    ensures HoldsExclusive(ss[i].locks, t, x) ==> HoldsExclusive(ss[j].locks, t, x)
    decreases j
  {
    if i < j {
      KeptUntil(ss, es, t, x, i, j - 1);
      RunConsistent(ss, es, j - 1);
      assert !GivesUp(es[j - 1], t, x) && StepAt(ss, es, j - 1);
      StepKeeps(ss[j - 1], es[j - 1], ss[j], t, x);
    }
  }

  lemma {:induction false} FinishedStays(ss: seq<Sys>, es: seq<Event>, f: nat, j: nat)
    requires Run(ss, es) && f < j <= |es| && es[f].Finish?
    ensures es[f].t in ss[j].finished
    decreases j
  {
    if f + 1 < j {
      FinishedStays(ss, es, f, j - 1);
      assert StepAt(ss, es, j - 1);
    } else {
      assert StepAt(ss, es, f);
    }
  }

  /** A transaction that has finished accesses nothing, and does not finish again. */
  lemma NothingAfter(ss: seq<Sys>, es: seq<Event>, f: nat, j: nat)
    requires Run(ss, es) && f < |es| && j < |es| && es[f].Finish? && es[f].t == es[j].t && !es[j].Unlock?
    ensures j <= f
  {
    assert StepAt(ss, es, j);
    if f < j { FinishedStays(ss, es, f, j); }
  }

  // ---------- conflicts ----------

  ghost predicate Access(e: Event) {
    e.Read? || e.Write?
  }

  ghost predicate Conflict(a: Event, b: Event) {
    Access(a) && Access(b) && a.x == b.x && (a.Write? || b.Write?)
  }

  /** Between conflicting accesses of two transactions, the first one gives up the row. */
  lemma GivenUpBetween(ss: seq<Sys>, es: seq<Event>, i: nat, j: nat)
    requires Run(ss, es) && i < j < |es| && Conflict(es[i], es[j]) && es[i].t != es[j].t
    ensures exists f :: i < f < j && GivesUp(es[f], es[i].t, es[i].x)
  {
    var t, u, x := es[i].t, es[j].t, es[i].x;
    assert StepAt(ss, es, i) && StepAt(ss, es, j);
    assert HoldsShared(ss[i].locks, t, x) && HoldsShared(ss[j].locks, u, x);
    RunConsistent(ss, es, j);
    if forall f :: i <= f < j ==> !GivesUp(es[f], t, x) {
      KeptUntil(ss, es, t, x, i, j);
    } else {
      var f :| i <= f < j && GivesUp(es[f], t, x);
      assert f != i;
    }
  }

  /** No transaction unlocks a row that it has accessed before it finishes. */
  ghost predicate Strict(es: seq<Event>) {
    forall i, j {:trigger es[i], es[j]} :: 0 <= i < j < |es| && Access(es[i]) && es[j] == Unlock(es[i].t, es[i].x) ==>
      exists f :: i < f < j && es[f].Finish? && es[f].t == es[i].t
  }

  /** Then the first of two conflicting transactions finishes between their accesses. */
  lemma FinishBetween(ss: seq<Sys>, es: seq<Event>, i: nat, j: nat)
    requires Run(ss, es) && Strict(es) && i < j < |es| && Conflict(es[i], es[j]) && es[i].t != es[j].t
    ensures exists f :: i < f < j && es[f].Finish? && es[f].t == es[i].t
  {
    GivenUpBetween(ss, es, i, j);
    var f :| i < f < j && GivesUp(es[f], es[i].t, es[i].x);
    if es[f].Unlock? {
      assert es[f] == Unlock(es[i].t, es[i].x);
    }
  }

  ghost predicate CommittedAt(es: seq<Event>, t: TxnId, f: nat) {
    f < |es| && es[f] == Finish(t, true)
  }

  ghost predicate HasCommitted(es: seq<Event>, t: TxnId) {
    exists f :: CommittedAt(es, t, f)
  }

  ghost function Commit(es: seq<Event>, t: TxnId): (f: nat)
    requires HasCommitted(es, t)
    ensures CommittedAt(es, t, f)
  {
    var f :| CommittedAt(es, t, f); f
  }

  /** Conflicting accesses of two committed transactions follow the order of the commits. */
  lemma ConflictOrder(ss: seq<Sys>, es: seq<Event>, i: nat, j: nat)
    requires Run(ss, es) && Strict(es) && i < j < |es| && Conflict(es[i], es[j]) && es[i].t != es[j].t
    requires HasCommitted(es, es[i].t) && HasCommitted(es, es[j].t)
    ensures i < Commit(es, es[i].t) < j < Commit(es, es[j].t)
  {
    var f, g := Commit(es, es[i].t), Commit(es, es[j].t);
    FinishBetween(ss, es, i, j);
    var f' :| i < f' < j && es[f'].Finish? && es[f'].t == es[i].t;
    NothingAfter(ss, es, f', f);
    NothingAfter(ss, es, f, f');
    NothingAfter(ss, es, g, j);
  }

  // ---------- the serial schedule ----------

  ghost predicate CommittedAccess(es: seq<Event>, i: nat) {
    i < |es| && Access(es[i]) && HasCommitted(es, es[i].t)
  }

  /** Access i comes before access j when the transactions run one after another, in commit order. */
  ghost predicate SerialBefore(es: seq<Event>, i: nat, j: nat)
    requires CommittedAccess(es, i) && CommittedAccess(es, j)
  {
    if es[i].t == es[j].t then i < j else Commit(es, es[i].t) < Commit(es, es[j].t)
  }

  /** A strict run is conflict-equivalent to the serial schedule in commit order. */
  lemma ConflictEquivalent(ss: seq<Sys>, es: seq<Event>, i: nat, j: nat)
    requires Run(ss, es) && Strict(es) && CommittedAccess(es, i) && CommittedAccess(es, j) && i != j
    requires Conflict(es[i], es[j])
    ensures i < j <==> SerialBefore(es, i, j)
  {
    if es[i].t != es[j].t {
      if i < j {
        ConflictOrder(ss, es, i, j);
      } else {
        ConflictOrder(ss, es, j, i);
      }
    }
  }

  // ---------- what reads see ----------

  /** The write that access r finds in the run: the last one to its row, whoever wrote it. */
  ghost predicate SeenWrite(es: seq<Event>, w: nat, r: nat) {
    && w < r < |es| && Access(es[r]) && es[w] == Write(es[w].t, es[r].x)
    && forall v :: w < v < r ==> es[v] != Write(es[v].t, es[r].x)
  }

  /** The last write to the row of access r by a transaction that commits, in the run. */
  ghost predicate LastCommitted(es: seq<Event>, w: nat, r: nat)
    requires CommittedAccess(es, r)
  {
    && CommittedAccess(es, w) && es[w].Write? && es[w].x == es[r].x && w < r
    && forall v: nat :: CommittedAccess(es, v) && es[v].Write? && es[v].x == es[r].x && v < r ==> v <= w
  }

  /** The write that access r finds in the serial schedule, which has committed transactions only. */
  ghost predicate SerialLastWrite(es: seq<Event>, w: nat, r: nat)
    requires CommittedAccess(es, r)
  {
    && CommittedAccess(es, w) && es[w].Write? && es[w].x == es[r].x && w != r && SerialBefore(es, w, r)
    && forall v: nat ::
         CommittedAccess(es, v) && es[v].Write? && es[v].x == es[r].x && v != r && SerialBefore(es, v, r) ==>
           v == w || SerialBefore(es, v, w)
  }

  lemma CommittedReads(ss: seq<Sys>, es: seq<Event>, w: nat, r: nat)
    requires Run(ss, es) && Strict(es) && CommittedAccess(es, r) && es[r].Read?
    ensures LastCommitted(es, w, r) <==> SerialLastWrite(es, w, r)
  {
    if CommittedAccess(es, w) && es[w].Write? && es[w].x == es[r].x {
      ConflictEquivalent(ss, es, w, r);
      forall v: nat | CommittedAccess(es, v) && es[v].Write? && es[v].x == es[r].x
        ensures v < r <==> SerialBefore(es, v, r)
        ensures v != w ==> (v < w <==> SerialBefore(es, v, w))
      {
        ConflictEquivalent(ss, es, v, r);
        if v != w { ConflictEquivalent(ss, es, v, w); }
      }
    }
  }

  /** What a committed read sees in the run is what it sees in the serial schedule exactly when the
      writer commits: rolling back undoes no write.  A writer that does not commit was rolled back
      before the read. */
  lemma SeenInSerial(ss: seq<Sys>, es: seq<Event>, w: nat, r: nat)
    requires Run(ss, es) && Strict(es) && CommittedAccess(es, r) && es[r].Read? && SeenWrite(es, w, r)
    ensures SerialLastWrite(es, w, r) <==> HasCommitted(es, es[w].t)
    ensures !HasCommitted(es, es[w].t) ==> exists f :: w < f < r && es[f] == Finish(es[w].t, false)
  {
    CommittedReads(ss, es, w, r);
    if !HasCommitted(es, es[w].t) {
      FinishBetween(ss, es, w, r);
      var f :| w < f < r && es[f].Finish? && es[f].t == es[w].t;
      assert !CommittedAt(es, es[w].t, f);
    }
  }

  /** A read that has some write to its row before it sees one. */
  lemma {:induction false} SeenExists(es: seq<Event>, w: nat, r: nat) returns (v: nat)
    requires w < r < |es| && Access(es[r]) && es[w] == Write(es[w].t, es[r].x)
    ensures w <= v && SeenWrite(es, v, r)
    decreases r - w
  {
    if u: nat :| w < u < r && es[u] == Write(es[u].t, es[r].x) {
      v := SeenExists(es, u, r);
    } else {
      v := w;
    }
  }

  /** A committed read is the same in the run and in the serial schedule exactly when no transaction
      that was rolled back wrote what it sees. */
  lemma ReadsTheSame(ss: seq<Sys>, es: seq<Event>, r: nat)
    requires Run(ss, es) && Strict(es) && CommittedAccess(es, r) && es[r].Read?
    ensures (forall w: nat :: SeenWrite(es, w, r) <==> SerialLastWrite(es, w, r))
            <==> forall w: nat :: SeenWrite(es, w, r) ==> HasCommitted(es, es[w].t)
  {
    if forall w: nat :: SeenWrite(es, w, r) ==> HasCommitted(es, es[w].t) {
      forall w: nat
        ensures SeenWrite(es, w, r) <==> SerialLastWrite(es, w, r)
      {
        if SeenWrite(es, w, r) {
          SeenInSerial(ss, es, w, r);
        } else if SerialLastWrite(es, w, r) {
          CommittedReads(ss, es, w, r);
          var v := SeenExists(es, w, r);
        }
      }
    }
  }

  // ---------- no cycles ----------

  /** An edge of the conflict graph of committed transactions. */
  ghost predicate Edge(es: seq<Event>, t: TxnId, u: TxnId) {
    && t != u && HasCommitted(es, t) && HasCommitted(es, u)
    && exists i, j :: 0 <= i < j < |es| && es[i].t == t && es[j].t == u && Conflict(es[i], es[j])
  }

  ghost predicate Path(es: seq<Event>, p: seq<TxnId>) {
    |p| >= 2 && forall k :: 0 <= k < |p| - 1 ==> Edge(es, p[k], p[k + 1])
  }

  ghost predicate Cyclic(es: seq<Event>) {
    exists p :: Path(es, p) && p[0] == p[|p| - 1]
  }

  lemma EdgeOrder(ss: seq<Sys>, es: seq<Event>, t: TxnId, u: TxnId)
    requires Run(ss, es) && Strict(es) && Edge(es, t, u)
    ensures Commit(es, t) < Commit(es, u)
  {
    var i, j :| 0 <= i < j < |es| && es[i].t == t && es[j].t == u && Conflict(es[i], es[j]);
    ConflictOrder(ss, es, i, j);
  }

  lemma {:induction false} PathOrder(ss: seq<Sys>, es: seq<Event>, p: seq<TxnId>)
    requires Run(ss, es) && Strict(es) && Path(es, p)
    ensures HasCommitted(es, p[0]) && HasCommitted(es, p[|p| - 1])
    ensures Commit(es, p[0]) < Commit(es, p[|p| - 1])
  {
    var n := |p| - 1;
    assert Edge(es, p[n - 1], p[n]);
    EdgeOrder(ss, es, p[n - 1], p[n]);
    if n > 1 {
      PathOrder(ss, es, p[..n]);
    }
  }

  /** The conflict graph has no cycle. */
  lemma Acyclic(ss: seq<Sys>, es: seq<Event>)
    requires Run(ss, es) && Strict(es)
    ensures !Cyclic(es)
  {
    forall p | Path(es, p)
      ensures p[0] != p[|p| - 1]
    {
      PathOrder(ss, es, p);
    }
  }
}
