/** Whole runs of the task queue, in any interleaving of clients and workers. */
module TaskRuns {
  import opened Values
  import opened TaskQueues

  datatype Step =
    | DoSubmit(id: TaskId, sql: Bytes, database: Bytes, user: Bytes)
    | DoCancel(id: TaskId)
    | DoTake(w: Worker)
    | DoFinish(w: Worker, ok: bool, result: Bytes, error: Bytes, oldest: TaskId)

  /** The log only grows, and a task that is new in the map was never logged before. */
  ghost predicate Onward(tasks: map<TaskId, TaskInfo>, wal: seq<TaskInfo>,
                         tasks': map<TaskId, TaskInfo>, wal': seq<TaskInfo>) {
    && EndedStay(tasks, tasks')
    && (forall id :: Known(wal, id) ==> Known(wal', id))
    && (forall id :: id in tasks' ==> id in tasks || !Known(wal, id))
  }

  lemma KnownStays(wal: seq<TaskInfo>, t: TaskInfo)
    ensures forall id :: Known(wal, id) ==> Known(wal + [t], id)
  {
    forall id | Known(wal, id)
      ensures Known(wal + [t], id)
    {
      Appended(wal, t, id);
    }
  }

  /** A step by a client or a worker; a worker that has a task, or finds no task, does not take one. */
  method Perform(q: TaskQueue, step: Step, now: int)
    requires q.Valid()
    modifies q
    ensures q.Valid() && Onward(old(q.tasks), old(q.wal), q.tasks, q.wal)
  {
    forall t ensures forall id :: Known(q.wal, id) ==> Known(q.wal + [t], id) { KnownStays(q.wal, t); }
    match step {
      case DoSubmit(id, sql, database, user) =>
        var fresh' := IsNew(q.wal, id);
        if fresh' {
          var status := q.Submit(id, sql, database, user, now);
        }
      case DoCancel(id) =>
        var status := q.Cancel(id, now);
      case DoTake(w) =>
        if w !in q.busy && q.pending != [] {
          q.Take(w, now);
        }
      case DoFinish(w, ok, result, error, oldest) =>
        if w in q.busy && (q.tasks == map[] || oldest in q.tasks) {
          q.Finish(w, ok, result, error, now, oldest);
        }
    }
  }

  /** No record of the log has this id. */
  method IsNew(wal: seq<TaskInfo>, id: TaskId) returns (r: bool)
    ensures r <==> !Known(wal, id)
  {
    for i := 0 to |wal|
      invariant !Known(wal[..i], id)
    {
      assert wal[..i + 1] == wal[..i] + [wal[i]];
      Appended(wal[..i], wal[i], id);
      if wal[i].id == id {
        LaterKnown(wal, i + 1, id);
        return false;
      }
    }
    assert wal[..|wal|] == wal;
    r := true;
  }

  lemma {:induction false} LaterKnown(wal: seq<TaskInfo>, i: nat, id: TaskId)
    requires i <= |wal| && Known(wal[..i], id)
    ensures Known(wal, id)
    decreases |wal| - i
  {
    if i < |wal| {
      assert wal[..i + 1] == wal[..i] + [wal[i]];
      Appended(wal[..i], wal[i], id);
      LaterKnown(wal, i + 1, id);
    } else {
      assert wal[..i] == wal;
    }
  }

  lemma OnwardTwice(t0: map<TaskId, TaskInfo>, w0: seq<TaskInfo>, t1: map<TaskId, TaskInfo>, w1: seq<TaskInfo>,
                    t2: map<TaskId, TaskInfo>, w2: seq<TaskInfo>)
    requires Onward(t0, w0, t1, w1) && Onward(t1, w1, t2, w2)
    requires forall id :: id in t0 ==> Known(w0, id)
    ensures Onward(t0, w0, t2, w2)
  {
  }

  /** In every run from a valid state, every state is valid, no task that has ended ever changes while
      it is in the map, and no task that left the map ever comes back. */
  method Run(q: TaskQueue, steps: seq<(Step, int)>)
    requires q.Valid()
    modifies q
    ensures q.Valid() && Onward(old(q.tasks), old(q.wal), q.tasks, q.wal)
  {
    for i := 0 to |steps|
      invariant q.Valid() && Onward(old(q.tasks), old(q.wal), q.tasks, q.wal)
    {
      ghost var t1, w1 := q.tasks, q.wal;
      Perform(q, steps[i].0, steps[i].1);
      OnwardTwice(old(q.tasks), old(q.wal), t1, w1, q.tasks, q.wal);
    }
  }
}
