/** The task queue: submission, cancellation, the two critical sections of a worker, and the
    write-ahead log that survives a crash.  Each mutex-protected block is one method. */
module TaskQueues {
  import opened Common
  import opened Sequences
  import opened Values

  type TaskId = Bytes
  type Worker = nat

  datatype TaskStatus = Queued | Running | Completed | Failed | Cancelled

  datatype TaskInfo = TaskInfo(
    id: TaskId, sql: Bytes, database: Bytes, user: Bytes, status: TaskStatus, progress: int,
    result: Bytes, error: Bytes, submitted: int, started: int, finished: int, retries: int)

  predicate Terminal(s: TaskStatus) {
    s.Completed? || s.Failed? || s.Cancelled?
  }

  const MAX_RESULTS: nat := 10000

  // ---------- the log ----------

  /** The last record of a task. */
  ghost function LastRecord(wal: seq<TaskInfo>, id: TaskId): Option<TaskInfo> {
    if wal == [] then None
    else
      var front, t := wal[..|wal| - 1], wal[|wal| - 1];
      if t.id == id then Some(t) else LastRecord(front, id)
  }

  lemma Appended(wal: seq<TaskInfo>, t: TaskInfo, id: TaskId)
    ensures LastRecord(wal + [t], id) == if t.id == id then Some(t) else LastRecord(wal, id)
  {
    assert (wal + [t])[..|wal|] == wal;
  }

  ghost predicate Known(wal: seq<TaskInfo>, id: TaskId) {
    LastRecord(wal, id).Some?
  }

  lemma {:induction false} LastRecordId(wal: seq<TaskInfo>, id: TaskId)
    ensures Known(wal, id) ==> LastRecord(wal, id).value.id == id
  {
    if wal != [] { LastRecordId(wal[..|wal| - 1], id); }
  }

  /** A task as it comes back after a crash: unchanged when it had ended, otherwise queued. */
  function Requeued(t: TaskInfo): TaskInfo {
    if Terminal(t.status) then t else t.(status := Queued)
  }

  ghost predicate DistinctTasks(q: seq<TaskInfo>) {
    forall i, j :: 0 <= i < j < |q| ==> q[i].id != q[j].id
  }

  ghost predicate Holds(q: seq<TaskInfo>, id: TaskId) {
    exists i :: 0 <= i < |q| && q[i].id == id
  }

  /** Exactly the queued tasks are pending, each once. */
  ghost predicate PendingOk(tasks: map<TaskId, TaskInfo>, pending: seq<TaskInfo>) {
    && DistinctTasks(pending)
    && forall id :: Holds(pending, id) <==> id in tasks && tasks[id].status.Queued?
  }

  /** The last record of a task that a worker has: it runs, or was cancelled. */
  ghost predicate Taken(last: Option<TaskInfo>) {
    last.Some? && (last.value.status.Running? || last.value.status.Cancelled?)
  }

  ghost predicate InHand(busy: map<Worker, TaskInfo>, id: TaskId) {
    exists w :: w in busy && busy[w].id == id
  }

  /** Exactly the running tasks, and some cancelled ones, are in the hands of a worker, each of one. */
  ghost predicate BusyOk(tasks: map<TaskId, TaskInfo>, busy: map<Worker, TaskInfo>, wal: seq<TaskInfo>) {
    && (forall w, v :: w in busy && v in busy && busy[w].id == busy[v].id ==> w == v)
    && (forall w :: w in busy ==> Taken(LastRecord(wal, busy[w].id)))
    && (forall id :: id in tasks && tasks[id].status.Running? ==> InHand(busy, id))
  }

  /** Each task in the map is as its last record says; a task no longer in the map had ended. */
  ghost predicate LogOk(tasks: map<TaskId, TaskInfo>, wal: seq<TaskInfo>) {
    && (forall id :: id in tasks ==> tasks[id].id == id && LastRecord(wal, id) == Some(tasks[id]))
    && (forall id :: Known(wal, id) && id !in tasks ==> Terminal(LastRecord(wal, id).value.status))
  }

  ghost predicate Good(tasks: map<TaskId, TaskInfo>, pending: seq<TaskInfo>, busy: map<Worker, TaskInfo>,
                       wal: seq<TaskInfo>) {
    PendingOk(tasks, pending) && BusyOk(tasks, busy, wal) && LogOk(tasks, wal)
  }

  /** No task that had ended changes as long as it is in the map. */
  ghost predicate EndedStay(before: map<TaskId, TaskInfo>, after: map<TaskId, TaskInfo>) {
    forall id :: id in before && id in after && Terminal(before[id].status) ==> after[id] == before[id]
  }

  /** Log wal' has one record more than log wal. */
  ghost predicate Logged(wal: seq<TaskInfo>, t: TaskInfo, wal': seq<TaskInfo>) {
    forall id :: LastRecord(wal', id) == if t.id == id then Some(t) else LastRecord(wal, id)
  }

  lemma LogAppended(tasks: map<TaskId, TaskInfo>, wal: seq<TaskInfo>, t: TaskInfo)
    requires LogOk(tasks, wal)
    ensures LogOk(tasks[t.id := t], wal + [t]) && Logged(wal, t, wal + [t])
  {
    forall id
      ensures LastRecord(wal + [t], id) == if t.id == id then Some(t) else LastRecord(wal, id)
    {
      Appended(wal, t, id);
    }
  }

  /** Queue q is the queue without one entry of a task, if it has one. */
  ghost predicate Without(pending: seq<TaskInfo>, q: seq<TaskInfo>, id: TaskId) {
    || (!Holds(pending, id) && q == pending)
    || (exists i :: 0 <= i < |pending| && pending[i].id == id && q == pending[..i] + pending[i + 1..])
  }

  /** A queue without its entry i. */
  lemma Erased(q: seq<TaskInfo>, i: nat)
    requires DistinctTasks(q) && i < |q|
    ensures var r := q[..i] + q[i + 1..];
            DistinctTasks(r) && forall id :: Holds(r, id) <==> Holds(q, id) && id != q[i].id
  {
    var r := q[..i] + q[i + 1..];
    assert forall j :: 0 <= j < |r| ==> r[j] == if j < i then q[j] else q[j + 1];
    forall id
      ensures Holds(r, id) <==> Holds(q, id) && id != q[i].id
    {
      if Holds(q, id) && id != q[i].id {
        var j :| 0 <= j < |q| && q[j].id == id;
        assert r[if j < i then j else j - 1] == q[j];
      }
    }
  }

  class TaskQueue {
    const max: nat

    var pending: seq<TaskInfo>
    var tasks: map<TaskId, TaskInfo>
    var wal: seq<TaskInfo>
    var busy: map<Worker, TaskInfo>   // what each worker thread has taken

    ghost predicate Valid()
      reads this
    {
      Good(tasks, pending, busy, wal)
    }

    constructor (max: nat)
      ensures Valid() && this.max == max && wal == [] && tasks == map[] && pending == [] && busy == map[]
    {
      this.max := max;
      pending, tasks, wal, busy := [], map[], [], map[];
    }

    method AppendWal(t: TaskInfo)
      modifies this`wal
      ensures wal == old(wal) + [t]
    {
      wal := wal + [t];
    }

    /** The id is new: it has never been logged. */
    method Submit(id: TaskId, sql: Bytes, database: Bytes, user: Bytes, now: int) returns (status: Status)
      requires Valid() && !Known(wal, id)
      modifies this
      ensures Valid() && EndedStay(old(tasks), tasks)
      ensures status == if |old(pending)| >= max then InternalError else Ok
      ensures !status.Ok? ==> unchanged(this)
      ensures status.Ok? ==>
                var t := TaskInfo(id, sql, database, user, Queued, 0, [], [], now, 0, 0, 0);
                pending == old(pending) + [t] && tasks == old(tasks)[id := t] && wal == old(wal) + [t] &&
                busy == old(busy)
    {
      var t := TaskInfo(id, sql, database, user, Queued, 0, [], [], now, 0, 0, 0);
      if |pending| >= max {
        return InternalError;
      }
      SubmitGood(tasks, pending, busy, wal, t);
      AppendWal(t);
      tasks := tasks[id := t];
      pending := pending + [t];
      status := Ok;
    }

    static lemma SubmitGood(tasks: map<TaskId, TaskInfo>, pending: seq<TaskInfo>, busy: map<Worker, TaskInfo>,
                            wal: seq<TaskInfo>, t: TaskInfo)
      requires Good(tasks, pending, busy, wal) && !Known(wal, t.id) && t.status.Queued?
      ensures Good(tasks[t.id := t], pending + [t], busy, wal + [t]) && EndedStay(tasks, tasks[t.id := t])
    {
      assert t.id !in tasks;
      LogAppended(tasks, wal, t);
      SameBusy(tasks, busy, wal, t);
      PushedPending(tasks, pending, t);
    }

    static lemma PushedPending(tasks: map<TaskId, TaskInfo>, pending: seq<TaskInfo>, t: TaskInfo)
      requires PendingOk(tasks, pending) && t.id !in tasks && t.status.Queued?
      ensures PendingOk(tasks[t.id := t], pending + [t])
    {
      var q := pending + [t];
      assert !Holds(pending, t.id);
      forall id
        ensures Holds(q, id) <==> Holds(pending, id) || id == t.id
      {
        assert q[|pending|] == t;
        if Holds(pending, id) {
          var i :| 0 <= i < |pending| && pending[i].id == id;
          assert q[i].id == id;
        }
      }
      forall i | 0 <= i < |pending|
        ensures pending[i].id != t.id
      {
        assert Holds(pending, pending[i].id);
      }
    }

    /** Ends a task that has not ended; a worker that has it will find out. */
    method Cancel(id: TaskId, now: int) returns (status: Status)
      requires Valid()
      modifies this
      ensures Valid() && EndedStay(old(tasks), tasks) && busy == old(busy)
      ensures status == if id !in old(tasks) then NotFound
                        else if Terminal(old(tasks)[id].status) then InvalidArgument else Ok
      ensures !status.Ok? ==> unchanged(this)
      ensures status.Ok? ==>
                var t := old(tasks)[id].(status := Cancelled, finished := now);
                tasks == old(tasks)[id := t] && wal == old(wal) + [t] && !Holds(pending, id)
    {
      if id !in tasks {
        return NotFound;
      }
      if Terminal(tasks[id].status) {
        return InvalidArgument;
      }
      EndQueued(tasks[id].(status := Cancelled, finished := now));
      status := Ok;
    }

    /** The state changes of a cancellation. */
    method EndQueued(t: TaskInfo)
      requires Valid() && t.status.Cancelled? && t.id in tasks && !Terminal(tasks[t.id].status)
      modifies this`tasks, this`pending, this`wal
      ensures Valid() && EndedStay(old(tasks), tasks)
      ensures tasks == old(tasks)[t.id := t] && wal == old(wal) + [t] && !Holds(pending, t.id)
    {
      ErasePending(t.id);
      CancelGood(tasks, old(pending), pending, busy, wal, t);
      tasks := tasks[t.id := t];
      AppendWal(t);
    }

    static lemma CancelGood(tasks: map<TaskId, TaskInfo>, pending: seq<TaskInfo>, q: seq<TaskInfo>,
                            busy: map<Worker, TaskInfo>, wal: seq<TaskInfo>, t: TaskInfo)
      requires Good(tasks, pending, busy, wal) && t.status.Cancelled? && t.id in tasks && !Terminal(tasks[t.id].status)
      requires Without(pending, q, t.id)
      ensures Good(tasks[t.id := t], q, busy, wal + [t]) && !Holds(q, t.id) && EndedStay(tasks, tasks[t.id := t])
    {
      LogAppended(tasks, wal, t);
      SameBusy(tasks, busy, wal, t);
      WithoutPending(tasks, pending, q, t);
    }

    /** Removes the first entry of a task from the queue. */
    method ErasePending(id: TaskId)
      modifies this`pending
      ensures Without(old(pending), pending, id)
    {
      for i := 0 to |pending|
        invariant pending == old(pending)
        invariant forall j :: 0 <= j < i ==> pending[j].id != id
      {
        if pending[i].id == id {
          pending := pending[..i] + pending[i + 1..];
          return;
        }
      }
    }

    static lemma WithoutPending(tasks: map<TaskId, TaskInfo>, pending: seq<TaskInfo>, q: seq<TaskInfo>, t: TaskInfo)
      requires PendingOk(tasks, pending) && !t.status.Queued?
      requires Without(pending, q, t.id)
      ensures PendingOk(tasks[t.id := t], q) && !Holds(q, t.id)
    {
      if Holds(pending, t.id) {
        var i :| 0 <= i < |pending| && pending[i].id == t.id && q == pending[..i] + pending[i + 1..];
        Erased(pending, i);
      }
    }

    /** A task that no worker has, or that ends, does not change who is busy. */
    static lemma SameBusy(tasks: map<TaskId, TaskInfo>, busy: map<Worker, TaskInfo>, wal: seq<TaskInfo>, t: TaskInfo)
      requires BusyOk(tasks, busy, wal)
      requires t.status.Cancelled? || (t.status.Queued? && !InHand(busy, t.id))
      requires Logged(wal, t, wal + [t])
      ensures BusyOk(tasks[t.id := t], busy, wal + [t])
    {
      forall w | w in busy
        ensures t.status.Queued? ==> busy[w].id != t.id
      {
        assert InHand(busy, busy[w].id);
      }
    }

    /** A worker takes the first pending task, and marks it as running. */
    method Take(w: Worker, now: int)
      requires Valid() && w !in busy && pending != []
      modifies this
      ensures Valid() && EndedStay(old(tasks), tasks)
      ensures var id := old(pending)[0].id;
              && id in old(tasks) && old(tasks)[id].status.Queued?
              && var t := old(tasks)[id].(status := Running, started := now);
              && pending == old(pending)[1..] && tasks == old(tasks)[id := t]
              && wal == old(wal) + [t] && busy == old(busy)[w := t]
    {
      var task := pending[0];
      assert Holds(pending, task.id);
      pending := pending[1..];
      if task.id in tasks && tasks[task.id].status.Cancelled? {
        assert false;
        return;
      }
      if task.id in tasks {
        task := tasks[task.id].(status := Running, started := now);
      }
      TakeGood(tasks, old(pending), busy, wal, w, task);
      tasks := tasks[task.id := task];
      AppendWal(task);
      busy := busy[w := task];
    }

    static lemma TakeGood(tasks: map<TaskId, TaskInfo>, pending: seq<TaskInfo>, busy: map<Worker, TaskInfo>,
                          wal: seq<TaskInfo>, w: Worker, t: TaskInfo)
      requires Good(tasks, pending, busy, wal) && w !in busy && pending != [] && pending[0].id == t.id
      requires t.id in tasks && tasks[t.id].status.Queued? && t.status.Running?
      ensures Good(tasks[t.id := t], pending[1..], busy[w := t], wal + [t]) && EndedStay(tasks, tasks[t.id := t])
    {
      LogAppended(tasks, wal, t);
      assert pending[..0] + pending[1..] == pending[1..];
      WithoutPending(tasks, pending, pending[1..], t);
      TakenBusy(tasks, busy, wal, w, t);
    }

    static lemma TakenBusy(tasks: map<TaskId, TaskInfo>, busy: map<Worker, TaskInfo>, wal: seq<TaskInfo>,
                           w: Worker, t: TaskInfo)
      requires BusyOk(tasks, busy, wal) && w !in busy && !Taken(LastRecord(wal, t.id)) && t.status.Running?
      requires Logged(wal, t, wal + [t])
      ensures BusyOk(tasks[t.id := t], busy[w := t], wal + [t])
    {
      var busy' := busy[w := t];
      assert busy'[w].id == t.id;
      forall id | id in tasks && tasks[id].status.Running?
        ensures InHand(busy', id)
      {
        var v :| v in busy && busy[v].id == id;
        assert v in busy' && busy'[v].id == id;
      }
    }

    /** What becomes of a task when its worker is done with it. */
    static function Outcome(t: TaskInfo, ok: bool, result: Bytes, error: Bytes, now: int): TaskInfo {
      if ok then t.(status := Completed, progress := 100, result := result, finished := now)
      else t.(status := Failed, error := error, finished := now)
    }

    /** A worker reports the outcome, unless the task was cancelled meanwhile; a full map then loses
        some other task that has ended. */
    method Finish(w: Worker, ok: bool, result: Bytes, error: Bytes, now: int, oldest: TaskId)
      requires Valid() && w in busy && (tasks == map[] || oldest in tasks)
      modifies this
      ensures Valid() && EndedStay(old(tasks), tasks) && busy == old(busy) - {w} && pending == old(pending)
      ensures var id := old(busy)[w].id;
              if id in old(tasks) && old(tasks)[id].status.Running? then
                var t := Outcome(old(tasks)[id], ok, result, error, now);
                wal == old(wal) + [t] && Evicted(old(tasks)[id := t], tasks, oldest, id)
              else
                wal == old(wal) && tasks == old(tasks)
    {
      var task := busy[w];
      if task.id !in tasks || tasks[task.id].status.Cancelled? {
        DoneBusy(tasks, busy, wal, w);
        busy := busy - {w};
        return;
      }
      Report(w, Outcome(tasks[task.id], ok, result, error, now));
      EvictOldest(oldest, task.id);
    }

    /** Nothing left the map, or one task other than `keep` that had ended. */
    static ghost predicate Evicted(before: map<TaskId, TaskInfo>, after: map<TaskId, TaskInfo>, oldest: TaskId,
                                   keep: TaskId) {
      after == before ||
      (after == before - {oldest} && oldest != keep && oldest in before && Terminal(before[oldest].status))
    }

    method Report(w: Worker, t: TaskInfo)
      requires Valid() && w in busy && busy[w].id == t.id && t.id in tasks && tasks[t.id].status.Running? &&
               Terminal(t.status)
      modifies this`tasks, this`wal, this`busy
      ensures Valid() && tasks == old(tasks)[t.id := t] && wal == old(wal) + [t] && busy == old(busy) - {w}
      ensures EndedStay(old(tasks), tasks)
    {
      ReportGood(tasks, pending, busy, wal, w, t);
      busy := busy - {w};
      tasks := tasks[t.id := t];
      AppendWal(t);
    }

    static lemma ReportGood(tasks: map<TaskId, TaskInfo>, pending: seq<TaskInfo>, busy: map<Worker, TaskInfo>,
                            wal: seq<TaskInfo>, w: Worker, t: TaskInfo)
      requires Good(tasks, pending, busy, wal) && w in busy && busy[w].id == t.id
      requires t.id in tasks && tasks[t.id].status.Running? && Terminal(t.status)
      ensures Good(tasks[t.id := t], pending, busy - {w}, wal + [t]) && EndedStay(tasks, tasks[t.id := t])
    {
      LogAppended(tasks, wal, t);
      EndedBusy(tasks, busy, wal, w, t);
      EndedPending(tasks, pending, t);
    }

    method EvictOldest(oldest: TaskId, keep: TaskId)
      requires Valid()
      modifies this`tasks
      ensures Valid()
      ensures Evicted(old(tasks), tasks, oldest, keep) && EndedStay(old(tasks), tasks)
    {
      if |tasks| > MAX_RESULTS {
        if oldest in tasks && Terminal(tasks[oldest].status) && oldest != keep {
          tasks := tasks - {oldest};
        }
      }
    }

    static lemma EndedPending(tasks: map<TaskId, TaskInfo>, pending: seq<TaskInfo>, t: TaskInfo)
      requires PendingOk(tasks, pending) && t.id in tasks && !tasks[t.id].status.Queued? && !t.status.Queued?
      ensures PendingOk(tasks[t.id := t], pending)
    {
    }

    static lemma DoneBusy(tasks: map<TaskId, TaskInfo>, busy: map<Worker, TaskInfo>, wal: seq<TaskInfo>, w: Worker)
      requires BusyOk(tasks, busy, wal) && w in busy && (busy[w].id in tasks ==> tasks[busy[w].id].status.Cancelled?)
      ensures BusyOk(tasks, busy - {w}, wal)
    {
      forall id | id in tasks && tasks[id].status.Running?
        ensures InHand(busy - {w}, id)
      {
        var v :| v in busy && busy[v].id == id;
        assert v in busy - {w} && (busy - {w})[v].id == id;
      }
    }

    static lemma EndedBusy(tasks: map<TaskId, TaskInfo>, busy: map<Worker, TaskInfo>, wal: seq<TaskInfo>,
                           w: Worker, t: TaskInfo)
      requires BusyOk(tasks, busy, wal) && w in busy && t.id == busy[w].id && Terminal(t.status)
      requires Logged(wal, t, wal + [t])
      ensures BusyOk(tasks[t.id := t], busy - {w}, wal + [t])
    {
      forall id | id in tasks && id != t.id && tasks[id].status.Running?
        ensures InHand(busy - {w}, id)
      {
        var v :| v in busy && busy[v].id == id;
        assert v in busy - {w} && (busy - {w})[v].id == id;
      }
    }

    // ---------- recovery ----------

    /** The last record of every task in the log. */
    static method ReadLatest(wal: seq<TaskInfo>) returns (latest: map<TaskId, TaskInfo>)
      ensures IsLatest(wal, latest) && forall id :: id in latest ==> latest[id].id == id
    {
      latest := map[];
      for i := 0 to |wal|
        invariant IsLatest(wal[..i], latest) && forall id :: id in latest ==> latest[id].id == id
      {
        LatestGrows(wal[..i], wal[i], latest);
        assert wal[..i + 1] == wal[..i] + [wal[i]];
        latest := latest[wal[i].id := wal[i]];
      }
      assert wal[..|wal|] == wal;
    }

    static ghost predicate IsLatest(wal: seq<TaskInfo>, latest: map<TaskId, TaskInfo>) {
      forall id :: LastRecord(wal, id) == if id in latest then Some(latest[id]) else None
    }

    static lemma LatestGrows(wal: seq<TaskInfo>, t: TaskInfo, latest: map<TaskId, TaskInfo>)
      requires IsLatest(wal, latest)
      ensures IsLatest(wal + [t], latest[t.id := t])
    {
      forall id
        ensures LastRecord(wal + [t], id) == if id in latest[t.id := t] then Some(latest[t.id := t][id]) else None
      {
        Appended(wal, t, id);
      }
    }

    /** The tasks of the log as they come back. */
    static ghost predicate Recovered(wal: seq<TaskInfo>, tasks: map<TaskId, TaskInfo>) {
      forall id :: if Known(wal, id) then id in tasks && tasks[id] == Requeued(LastRecord(wal, id).value)
          else id !in tasks
    }

    /** A queue of all tasks of the log that had not ended, each once. */
    static ghost predicate Unfinished(wal: seq<TaskInfo>, q: seq<TaskInfo>) {
      && DistinctTasks(q)
      && (forall id :: Holds(q, id) <==> Known(wal, id) && !Terminal(LastRecord(wal, id).value.status))
      && (forall i :: 0 <= i < |q| ==> Known(wal, q[i].id) && q[i] == Requeued(LastRecord(wal, q[i].id).value))
    }

    /** Puts the tasks of the log into the map, on top of what is there, and queues those that had not
        ended behind what is queued; then the log is written anew from the map. */
    method ReplayWal() returns (ghost added: seq<TaskInfo>)
      requires forall id :: id in tasks ==> tasks[id].id == id
      modifies this`tasks, this`pending, this`wal
      ensures Unfinished(old(wal), added) && pending == old(pending) + added
      ensures forall id :: id in tasks <==> id in old(tasks) || Known(old(wal), id)
      ensures forall id :: id in tasks ==>
                tasks[id] == if Known(old(wal), id) then Requeued(LastRecord(old(wal), id).value) else old(tasks)[id]
      ensures forall id :: LastRecord(wal, id) == if id in tasks then Some(tasks[id]) else None
    {
      var latest := ReadLatest(wal);
      added := LoadLatest(latest);
      AddedAll(old(wal), latest, added);
      Compact();
    }

    /** The map after the tasks outside `todo` were loaded on top of it. */
    static ghost predicate Loaded(before: map<TaskId, TaskInfo>, latest: map<TaskId, TaskInfo>, todo: set<TaskId>,
                                  after: map<TaskId, TaskInfo>) {
      && (forall id :: id in after <==> id in before || (id in latest && id !in todo))
      && (forall id :: id in after ==>
            after[id] == if id in latest && id !in todo then Requeued(latest[id]) else before[id])
    }

    /** The tasks outside `todo` that had not ended, each once. */
    static ghost predicate Queue(latest: map<TaskId, TaskInfo>, todo: set<TaskId>, q: seq<TaskInfo>) {
      && DistinctTasks(q)
      && (forall id :: Holds(q, id) <==> id in latest && id !in todo && !Terminal(latest[id].status))
      && (forall i :: 0 <= i < |q| ==> q[i].id in latest && q[i] == Requeued(latest[q[i].id]))
    }

    static lemma QueueStep(latest: map<TaskId, TaskInfo>, todo: set<TaskId>, q: seq<TaskInfo>, id: TaskId)
      requires Queue(latest, todo, q) && id in todo && id in latest && latest[id].id == id
      ensures Queue(latest, todo - {id}, if Terminal(latest[id].status) then q else q + [Requeued(latest[id])])
    {
      if !Terminal(latest[id].status) {
        HoldsMore(q, Requeued(latest[id]));
      }
    }

    static lemma LoadedStep(before: map<TaskId, TaskInfo>, latest: map<TaskId, TaskInfo>, todo: set<TaskId>,
                            after: map<TaskId, TaskInfo>, id: TaskId)
      requires Loaded(before, latest, todo, after) && id in todo && id in latest
      ensures Loaded(before, latest, todo - {id}, after[id := Requeued(latest[id])])
    {
    }

    /** One task of the log after another, in any order. */
    method LoadLatest(latest: map<TaskId, TaskInfo>) returns (ghost added: seq<TaskInfo>)
      requires forall id :: id in latest ==> latest[id].id == id
      modifies this`tasks, this`pending
      ensures pending == old(pending) + added && Queue(latest, {}, added) && Loaded(old(tasks), latest, {}, tasks)
    {
      added := [];
      var todo := latest.Keys;
      while todo != {}
        invariant todo <= latest.Keys && pending == old(pending) + added
        invariant Queue(latest, todo, added) && Loaded(old(tasks), latest, todo, tasks)
        decreases |todo|
      {
        var id :| id in todo;
        QueueStep(latest, todo, added, id);
        LoadedStep(old(tasks), latest, todo, tasks, id);
        LoadOne(id, latest[id]);
        if !Terminal(latest[id].status) {
          Associative(old(pending), added, [Requeued(latest[id])]);
          added := added + [Requeued(latest[id])];
        }
        todo := todo - {id};
      }
    }

    method LoadOne(id: TaskId, t: TaskInfo)
      modifies this`tasks, this`pending
      ensures tasks == old(tasks)[id := Requeued(t)]
      ensures pending == if Terminal(t.status) then old(pending) else old(pending) + [Requeued(t)]
    {
      var task := t;
      tasks := tasks[id := task];
      if !Terminal(task.status) {
        task := task.(status := Queued);
        tasks := tasks[id := task];
        pending := pending + [task];
      }
    }

    static lemma HoldsMore(q: seq<TaskInfo>, t: TaskInfo)
      requires DistinctTasks(q) && !Holds(q, t.id)
      ensures DistinctTasks(q + [t]) && forall id :: Holds(q + [t], id) <==> Holds(q, id) || id == t.id
    {
      var r := q + [t];
      assert r[|q|] == t;
      assert forall i :: 0 <= i < |q| ==> r[i] == q[i];
    }

    static lemma AddedAll(wal: seq<TaskInfo>, latest: map<TaskId, TaskInfo>, added: seq<TaskInfo>)
      requires IsLatest(wal, latest) && Queue(latest, {}, added)
      ensures Unfinished(wal, added)
    {
    }

    /** The log becomes one record for each task of the map, in any order. */
    method Compact()
      requires forall id :: id in tasks ==> tasks[id].id == id
      modifies this`wal
      ensures forall id :: LastRecord(wal, id) == if id in tasks then Some(tasks[id]) else None
    {
      wal := [];
      var todo := tasks.Keys;
      while todo != {}
        invariant todo <= tasks.Keys
        invariant forall id :: LastRecord(wal, id) == if id in tasks && id !in todo then Some(tasks[id]) else None
        decreases |todo|
      {
        var id :| id in todo;
        ghost var before := wal;
        wal := wal + [tasks[id]];
        forall k
          ensures LastRecord(wal, k) == if tasks[id].id == k then Some(tasks[id]) else LastRecord(before, k)
        {
          Appended(before, tasks[id], k);
        }
        todo := todo - {id};
      }
    }

    /** Every task in the map has ended. */
    static ghost predicate AllEnded(tasks: map<TaskId, TaskInfo>) {
      forall id :: id in tasks ==> Terminal(tasks[id].status)
    }

    static ghost predicate Twice(q: seq<TaskInfo>, id: TaskId) {
      exists i, j :: 0 <= i < j < |q| && q[i].id == id && q[j].id == id
    }

    /** Starting a queue that has run before replays its log on top of what it has.  That goes well
        exactly when everything had ended: what was queued is then queued twice, and what a worker has
        is queued although it is still running.  With all workers stopped it goes well exactly when
        nothing is pending. */
    method Start()
      requires Valid()
      modifies this`tasks, this`pending, this`wal
      ensures Valid() <==> AllEnded(old(tasks))
      ensures forall id :: id in old(tasks) && old(tasks)[id].status.Queued? ==> Twice(pending, id)
      ensures forall id :: id in old(tasks) && old(tasks)[id].status.Running? ==> Holds(pending, id) && InHand(busy, id)
      ensures busy == map[] ==> (Valid() <==> old(pending) == [])
    {
      ghost var added := ReplayWal();
      StartQueues(old(tasks), old(pending), busy, old(wal), added);
      ReplayedIds(old(wal));
      if AllEnded(old(tasks)) {
        StartedGood(old(tasks), old(pending), busy, old(wal), added, tasks, wal);
      }
    }

    static lemma ReplayedIds(wal: seq<TaskInfo>)
      ensures forall id :: Known(wal, id) ==> LastRecord(wal, id).value.id == id
    {
      forall id | Known(wal, id)
        ensures LastRecord(wal, id).value.id == id
      {
        LastRecordId(wal, id);
      }
    }

    static lemma NoneHeld(q: seq<TaskInfo>)
      requires forall id :: !Holds(q, id)
      ensures q == []
    {
      if q != [] { assert Holds(q, q[0].id); }
    }

    /** What a replay queues again. */
    static lemma StartQueues(tasks: map<TaskId, TaskInfo>, pending: seq<TaskInfo>, busy: map<Worker, TaskInfo>,
                             wal: seq<TaskInfo>, added: seq<TaskInfo>)
      requires Good(tasks, pending, busy, wal) && Unfinished(wal, added)
      ensures forall id :: id in tasks && tasks[id].status.Queued? ==> Twice(pending + added, id)
      ensures forall id :: id in tasks && tasks[id].status.Running? ==> Holds(pending + added, id)
      ensures pending == [] <==> forall id :: id in tasks ==> !tasks[id].status.Queued?
    {
      var q := pending + added;
      forall id | id in tasks && !Terminal(tasks[id].status)
        ensures Holds(q, id) && (tasks[id].status.Queued? ==> Twice(q, id))
      {
        assert Holds(added, id);
        var j :| 0 <= j < |added| && added[j].id == id;
        assert q[|pending| + j].id == id;
        if tasks[id].status.Queued? {
          var i :| 0 <= i < |pending| && pending[i].id == id;
          assert q[i].id == id;
        }
      }
      if pending != [] { assert Holds(pending, pending[0].id); }
    }

    /** When everything had ended, a replay queues nothing. */
    static lemma StartedGood(tasks: map<TaskId, TaskInfo>, pending: seq<TaskInfo>, busy: map<Worker, TaskInfo>,
                             wal: seq<TaskInfo>, added: seq<TaskInfo>, tasks': map<TaskId, TaskInfo>,
                             wal': seq<TaskInfo>)
      requires Good(tasks, pending, busy, wal) && Unfinished(wal, added) && AllEnded(tasks)
      requires Recovered(wal, tasks')
      requires forall id :: LastRecord(wal', id) == if id in tasks' then Some(tasks'[id]) else None
      ensures Good(tasks', pending + added, busy, wal')
    {
      NoneHeld(pending);
      NoneHeld(added);
      ReplayedIds(wal);
    }

    /** A new process finds the log of an old one. */
    constructor Recover(max: nat, wal: seq<TaskInfo>)
      ensures Valid() && busy == map[]
      ensures Recovered(wal, tasks) && Unfinished(wal, pending)
      ensures Recovered(this.wal, tasks)
    {
      this.max := max;
      pending, tasks, busy := [], map[], map[];
      this.wal := wal;
      new;
      ghost var added := ReplayWal();
      assert [] + added == added;
      RecoveredGood(wal, tasks, pending, this.wal);
    }

    static lemma RecoveredGood(wal: seq<TaskInfo>, tasks: map<TaskId, TaskInfo>, pending: seq<TaskInfo>,
                               compact: seq<TaskInfo>)
      requires Recovered(wal, tasks) && Unfinished(wal, pending)
      requires forall id :: LastRecord(compact, id) == if id in tasks then Some(tasks[id]) else None
      ensures Good(tasks, pending, map[], compact) && Recovered(compact, tasks)
    {
      forall id | id in tasks
        ensures tasks[id].id == id
      {
        LastRecordId(wal, id);
      }
    }
  }

  /** A crash at any moment, and a new process that finds the log: tasks that had ended come back as
      they were, every other task is queued exactly once, and nothing else is queued.  Crashing again
      right away gives the same tasks again. */
  method CrashAndRecover(q: TaskQueue) returns (r: TaskQueue, again: TaskQueue)
    requires q.Valid()
    ensures r.Valid() && r.busy == map[]
    ensures forall id :: id in q.tasks && Terminal(q.tasks[id].status) ==> id in r.tasks && r.tasks[id] == q.tasks[id]
    ensures forall id :: id in q.tasks && !Terminal(q.tasks[id].status) ==>
              id in r.tasks && r.tasks[id] == q.tasks[id].(status := Queued)
    ensures forall id :: id in r.tasks && id !in q.tasks ==> Terminal(r.tasks[id].status)
    ensures forall id :: Holds(r.pending, id) <==> id in q.tasks && !Terminal(q.tasks[id].status)
    ensures DistinctTasks(r.pending)
    ensures again.Valid() && again.tasks == r.tasks
  {
    r := new TaskQueue.Recover(q.max, q.wal);
    again := new TaskQueue.Recover(q.max, r.wal);
    assert forall id :: id in again.tasks <==> id in r.tasks;
  }

  /** A task that is submitted and still waiting when the queue is started again waits twice. */
  method SubmitAndRestart(max: nat, id: TaskId, sql: Bytes, now: int) returns (q: TaskQueue)
    requires max > 0
    ensures fresh(q) && !q.Valid() && TaskQueue.Twice(q.pending, id)
  {
    q := new TaskQueue(max);
    var status := q.Submit(id, sql, [], [], now);
    q.Start();
  }

  /** A task that a worker has when the queue is started again waits for another worker as well. */
  method RestartWhileRunning(max: nat, id: TaskId, sql: Bytes, now: int) returns (q: TaskQueue)
    requires max > 0
    ensures fresh(q) && !q.Valid() && Holds(q.pending, id) && InHand(q.busy, id)
  {
    q := new TaskQueue(max);
    var status := q.Submit(id, sql, [], [], now);
    q.Take(0, now);
    q.Start();
  }
}
