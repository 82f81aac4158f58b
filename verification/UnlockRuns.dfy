/** Runs that show what the promises about transactions need: that locks are kept until the end, and
    that a transaction which is rolled back has written nothing. */
module UnlockRuns {
  import opened Locking
  import opened Serializability

  // ---------- going on with a run ----------

  /** A run goes on with one more event. */
  lemma OneMore(ss: seq<Sys>, es: seq<Event>, e: Event, s': Sys) returns (ss': seq<Sys>, es': seq<Event>)
    requires Run(ss, es) && Step(ss[|es|], e, s')
    ensures Run(ss', es') && es' == es + [e] && ss'[|es'|] == s'
  {
    ss', es' := ss + [s'], es + [e];
    forall i | 0 <= i < |es'|
      ensures StepAt(ss', es', i)
    {
      if i < |es| { assert StepAt(ss, es, i); }
    }
  }

  /** The locks after a transaction released everything. */
  ghost function AllDropped(s: Locks, t: TxnId): Locks {
    Locks(map rid | rid in s.table && !Unused(Without(s.table[rid], t)) :: Without(s.table[rid], t), s.owned - {t})
  }

  lemma AllDroppedReleased(s: Locks, t: TxnId)
    requires Consistent(s)
    ensures Released(s, AllDropped(s, t), t)
  {
    forall rid
      ensures EntryAt(AllDropped(s, t), rid) ==
              if rid in OwnedBy(s, t) then Without(EntryAt(s, rid), t) else EntryAt(s, rid)
    {
      assert rid in OwnedBy(s, t) <==> HoldsShared(s, t, rid);
    }
    LockManager.ReleasedAll(s, AllDropped(s, t), t);
  }

  /** A transaction that has not finished can finish. */
  lemma Finishes(ss: seq<Sys>, es: seq<Event>, t: TxnId, ok: bool) returns (ss': seq<Sys>, es': seq<Event>)
    requires Run(ss, es) && t !in ss[|es|].finished
    ensures Run(ss', es') && es' == es + [Finish(t, ok)]
    ensures ss'[|es'|].finished == ss[|es|].finished + {t} && Released(ss[|es|].locks, ss'[|es'|].locks, t)
  {
    var s := ss[|es|];
    RunConsistent(ss, es, |es|);
    AllDroppedReleased(s.locks, t);
    ss', es' := OneMore(ss, es, Finish(t, ok), Sys(AllDropped(s.locks, t), s.finished + {t}));
  }

  /** Nobody but t, if anyone, has row x. */
  ghost predicate FreeFor(s: Sys, t: TxnId, x: RowKey) {
    forall v :: HoldsShared(s.locks, v, x) ==> v == t
  }

  lemma Grantable(e: Entry, t: TxnId)
    requires forall v :: Touches(e, v) ==> v == t
    ensures ExclusiveEntry(e, t).Some? && SharedEntry(e, t).Some?
  {
    if e.exclusive.Some? {
      assert Touches(e, e.exclusive.value);
    }
    forall v | v in e.shared
      ensures v == t
    {
      assert Touches(e, v);
    }
    assert e.shared == {} || e.shared == {t};
  }

  /** A transaction takes a row that is free for it, writes it, and finishes. */
  lemma WriteRow(ss: seq<Sys>, es: seq<Event>, t: TxnId, x: RowKey, ok: bool) returns (ss': seq<Sys>, es': seq<Event>)
    requires Run(ss, es) && t !in ss[|es|].finished && FreeFor(ss[|es|], t, x)
    ensures Run(ss', es') && es' == es + [TakeExclusive(t, x)] + [Write(t, x)] + [Finish(t, ok)]
    ensures ss'[|es'|].finished == ss[|es|].finished + {t} && forall v :: FreeFor(ss'[|es'|], v, x)
  {
    var s, e := ss[|es|], EntryAt(ss[|es|].locks, x);
    assert forall v :: Touches(e, v) ==> HoldsShared(s.locks, v, x);
    Grantable(e, t);
    var held := Sys(Remember(s.locks, t, x, ExclusiveEntry(e, t).value), s.finished);
    ss', es' := OneMore(ss, es, TakeExclusive(t, x), held);
    assert HoldsExclusive(held.locks, t, x);
    ss', es' := OneMore(ss', es', Write(t, x), held);
    RunConsistent(ss', es', |es'|);
    ss', es' := Finishes(ss', es', t, ok);
    assert EntryAt(ss'[|es'|].locks, x) == Without(EntryAt(held.locks, x), t);
  }

  /** A transaction takes a row that is free for it, reads it, and commits. */
  lemma ReadRow(ss: seq<Sys>, es: seq<Event>, t: TxnId, x: RowKey) returns (ss': seq<Sys>, es': seq<Event>)
    requires Run(ss, es) && t !in ss[|es|].finished && FreeFor(ss[|es|], t, x)
    ensures Run(ss', es') && es' == es + [TakeShared(t, x)] + [Read(t, x)] + [Finish(t, true)]
  {
    var s, e := ss[|es|], EntryAt(ss[|es|].locks, x);
    assert forall v :: Touches(e, v) ==> HoldsShared(s.locks, v, x);
    Grantable(e, t);
    var held := Sys(Remember(s.locks, t, x, SharedEntry(e, t).value), s.finished);
    ss', es' := OneMore(ss, es, TakeShared(t, x), held);
    ss', es' := OneMore(ss', es', Read(t, x), held);
    ss', es' := Finishes(ss', es', t, true);
  }

  // ---------- a write that is rolled back ----------

  lemma DirtyFacts(t: TxnId, u: TxnId, x: RowKey, es: seq<Event>)
    requires t != u
    requires es == [] + [TakeExclusive(t, x)] + [Write(t, x)] + [Finish(t, false)]
                      + [TakeShared(u, x)] + [Read(u, x)] + [Finish(u, true)]
    ensures |es| == 6 && (forall i :: 0 <= i < |es| ==> !es[i].Unlock?)
    ensures CommittedAt(es, u, 5) && es[1] == Write(t, x) && es[4] == Read(u, x) && SeenWrite(es, 1, 4)
    ensures forall f :: !CommittedAt(es, t, f)
  {
  }

  /** Any two transactions, on any row: one writes and is rolled back, and the other then reads the row
      and commits.  The run is strict, and the read sees what no serial schedule shows it. */
  lemma DirtyRead(t: TxnId, u: TxnId, x: RowKey) returns (ss: seq<Sys>, es: seq<Event>, w: nat, r: nat)
    requires t != u
    ensures Run(ss, es) && Strict(es) && w < r && CommittedAccess(es, r) && es[w] == Write(t, x) && es[r] == Read(u, x)
    ensures SeenWrite(es, w, r) && !HasCommitted(es, t) && !SerialLastWrite(es, w, r)
  {
    ss, es := [Sys(Locks(map[], map[]), {})], [];
    ss, es := WriteRow(ss, es, t, x, false);
    ss, es := ReadRow(ss, es, u, x);
    DirtyFacts(t, u, x, es);
    w, r := 1, 4;
  }

  // ---------- a lock that is given up early ----------

  /** A transaction that has finished holds nothing. */
  lemma {:induction false} FinishedHoldNothing(ss: seq<Sys>, es: seq<Event>, i: nat, t: TxnId, x: RowKey)
    requires Run(ss, es) && i <= |es| && t in ss[i].finished
    ensures !HoldsShared(ss[i].locks, t, x)
  {
    if i > 0 {
      assert StepAt(ss, es, i - 1);
      if t in ss[i - 1].finished { FinishedHoldNothing(ss, es, i - 1, t, x); }
      if es[i - 1].Unlock? { DroppedEntries(ss[i - 1].locks, es[i - 1].t, es[i - 1].x); }
    }
  }

  ghost function Holders(s: Sys, x: RowKey): set<TxnId> {
    var e := EntryAt(s.locks, x);
    e.shared + if e.exclusive.Some? then {e.exclusive.value} else {}
  }

  /** No new event unlocks. */
  ghost predicate GoesOn(es: seq<Event>, es': seq<Event>) {
    es <= es' && forall k :: |es| <= k < |es'| ==> !es'[k].Unlock?
  }

  /** One holder of a row finishes, and the others still hold it. */
  lemma Leaves(ss: seq<Sys>, es: seq<Event>, v: TxnId, x: RowKey) returns (ss': seq<Sys>, es': seq<Event>)
    requires Run(ss, es) && HoldsShared(ss[|es|].locks, v, x)
    ensures Run(ss', es') && es' == es + [Finish(v, false)]
    ensures ss'[|es'|].finished == ss[|es|].finished + {v} && Holders(ss'[|es'|], x) == Holders(ss[|es|], x) - {v}
    ensures forall w :: HoldsShared(ss'[|es'|].locks, w, x) ==> HoldsShared(ss[|es|].locks, w, x)
  {
    if v in ss[|es|].finished { FinishedHoldNothing(ss, es, |es|, v, x); }
    ss', es' := Finishes(ss, es, v, false);
    assert EntryAt(ss'[|es'|].locks, x) == Without(EntryAt(ss[|es|].locks, x), v);
  }

  /** Everyone who is in the way of u finishes, without touching t. */
  lemma {:induction false} ClearRow(ss: seq<Sys>, es: seq<Event>, t: TxnId, u: TxnId, x: RowKey)
    returns (ss': seq<Sys>, es': seq<Event>)
    requires Run(ss, es) && {t, u} !! ss[|es|].finished && !HoldsShared(ss[|es|].locks, t, x)
    ensures Run(ss', es') && GoesOn(es, es')
    ensures {t, u} !! ss'[|es'|].finished && FreeFor(ss'[|es'|], u, x)
    decreases |Holders(ss[|es|], x) - {u}|
  {
    ss', es' := ss, es;
    var s := ss[|es|];
    if v :| v != u && HoldsShared(s.locks, v, x) {
      ss', es' := Leaves(ss, es, v, x);
      assert Holders(ss'[|es'|], x) - {u} == Holders(s, x) - {u} - {v};
      ss', es' := ClearRow(ss', es', t, u, x);
    }
  }

  lemma CycleFacts(es: seq<Event>, mid: seq<Event>, i: nat, t: TxnId, u: TxnId, x: RowKey, es': seq<Event>)
    requires t != u && i < |es| && Access(es[i]) && es[i].t == t && es[i].x == x && GoesOn(es, mid)
    requires es' == mid + [TakeExclusive(u, x)] + [Write(u, x)] + [Finish(u, true)]
                        + [TakeExclusive(t, x)] + [Write(t, x)] + [Finish(t, true)]
    ensures GoesOn(es, es') && Cyclic(es')
  {
    var n := |mid|;
    assert es'[i] == es[i];
    BothWays(es', i, n + 1, n + 4, n + 2, n + 5);
  }

  lemma BothWays(es: seq<Event>, i: nat, j: nat, k: nat, f: nat, g: nat)
    requires i < j < k < |es| && Conflict(es[i], es[j]) && Conflict(es[j], es[k]) && es[i].t == es[k].t != es[j].t
    requires CommittedAt(es, es[j].t, f) && CommittedAt(es, es[i].t, g)
    ensures Cyclic(es)
  {
    EdgeBetween(es, i, j);
    EdgeBetween(es, j, k);
    var p := [es[i].t, es[j].t, es[i].t];
    assert Path(es, p) && p[0] == p[|p| - 1];
  }

  lemma EdgeBetween(es: seq<Event>, i: nat, j: nat)
    requires i < j < |es| && Conflict(es[i], es[j]) && es[i].t != es[j].t
    requires HasCommitted(es, es[i].t) && HasCommitted(es, es[j].t)
    ensures Edge(es, es[i].t, es[j].t)
  {
  }

  /** A transaction that gave up a row which it had accessed can be caught in a cycle by any other that
      is still running, without another early unlock. */
  lemma Caught(ss: seq<Sys>, es: seq<Event>, i: nat, t: TxnId, u: TxnId, x: RowKey)
    returns (ss': seq<Sys>, es': seq<Event>)
    requires Run(ss, es) && t != u && {t, u} !! ss[|es|].finished && !HoldsShared(ss[|es|].locks, t, x)
    requires i < |es| && Access(es[i]) && es[i].t == t && es[i].x == x
    ensures Run(ss', es') && GoesOn(es, es') && Cyclic(es')
  {
    var mid;
    ss', mid := ClearRow(ss, es, t, u, x);
    ss', es' := WriteRow(ss', mid, u, x, true);
    ss', es' := WriteRow(ss', es', t, x, true);
    CycleFacts(es, mid, i, t, u, x, es');
  }

  lemma {:induction false} Fresh(used: set<TxnId>) returns (u: TxnId)
    ensures u !in used && forall v :: v in used ==> v < u
    decreases |used|
  {
    if used == {} {
      u := 0;
    } else {
      var v :| v in used;
      var w := Fresh(used - {v});
      u := if v < w then w else v + 1;
      assert forall z :: z in used ==> z == v || z in used - {v};
    }
  }

  lemma PrefixRun(ss: seq<Sys>, es: seq<Event>, n: nat)
    requires Run(ss, es) && n <= |es|
    ensures Run(ss[..n + 1], es[..n])
  {
    var ss', es' := ss[..n + 1], es[..n];
    forall i | 0 <= i < n
      ensures StepAt(ss', es', i)
    {
      assert StepAt(ss, es, i);
    }
  }

  /** The unlock of a row that its transaction has accessed leaves the transaction without the row. */
  lemma UnlockedTooEarly(ss: seq<Sys>, es: seq<Event>, i: nat, j: nat)
    requires Run(ss, es) && i < j < |es| && Access(es[i]) && es[j] == Unlock(es[i].t, es[i].x)
    requires forall f :: i < f < j ==> !(es[f].Finish? && es[f].t == es[i].t)
    ensures es[i].t !in ss[j + 1].finished && !HoldsShared(ss[j + 1].locks, es[i].t, es[i].x)
  {
    assert StepAt(ss, es, i) && StepAt(ss, es, j);
    NotFinished(ss, es, i, j, es[i].t);
    DroppedEntries(ss[j].locks, es[i].t, es[i].x);
  }

  lemma {:induction false} NotFinished(ss: seq<Sys>, es: seq<Event>, i: nat, j: nat, t: TxnId)
    requires Run(ss, es) && i <= j <= |es| && t !in ss[i].finished
    requires forall f :: i <= f < j ==> !(es[f].Finish? && es[f].t == t)
    ensures t !in ss[j].finished
    decreases j
  {
    if i < j {
      NotFinished(ss, es, i, j - 1, t);
      assert StepAt(ss, es, j - 1);
    }
  }

  lemma StrictGoesOn(es: seq<Event>, n: nat, es': seq<Event>)
    requires Strict(es) && n <= |es| && GoesOn(es[..n], es')
    ensures Strict(es')
  {
    forall i, j | 0 <= i < j < |es'| && Access(es'[i]) && es'[j] == Unlock(es'[i].t, es'[i].x)
      ensures exists f :: i < f < j && es'[f].Finish? && es'[f].t == es'[i].t
    {
      assert j < n;
      assert es'[i] == es[i] && es'[j] == es[j];
      var f :| i < f < j && es[f].Finish? && es[f].t == es[i].t;
      assert es'[f] == es[f];
    }
  }

  /** Locking is safe exactly when it is strict: no matter when a strict run is continued, and how, as
      long as nobody unlocks early, there is no cycle; and a run that is not strict could have been
      continued to a cycle right after an early unlock. */
  lemma SafeIffStrict(ss: seq<Sys>, es: seq<Event>)
    requires Run(ss, es)
    ensures Strict(es) <==>
            forall n: nat, ss', es' :: n <= |es| && GoesOn(es[..n], es') && Run(ss', es') ==> !Cyclic(es')
  {
    if Strict(es) {
      forall n: nat, ss', es' | n <= |es| && GoesOn(es[..n], es') && Run(ss', es')
        ensures !Cyclic(es')
      {
        StrictGoesOn(es, n, es');
        Acyclic(ss', es');
      }
    } else {
      var n, ss', es' := NotSafe(ss, es);
    }
  }

  lemma NotSafe(ss: seq<Sys>, es: seq<Event>) returns (n: nat, ss': seq<Sys>, es': seq<Event>)
    requires Run(ss, es) && !Strict(es)
    ensures n <= |es| && GoesOn(es[..n], es') && Run(ss', es') && Cyclic(es')
  {
    var i, j :| 0 <= i < j < |es| && Access(es[i]) && es[j] == Unlock(es[i].t, es[i].x) &&
                forall f :: i < f < j ==> !(es[f].Finish? && es[f].t == es[i].t);
    UnlockedTooEarly(ss, es, i, j);
    n := j + 1;
    PrefixRun(ss, es, n);
    var t := es[i].t;
    var u := Fresh(ss[n].finished + {t});
    ss', es' := Caught(ss[..n + 1], es[..n], i, t, u, es[i].x);
  }
}
