/**
 * The sync endpoint (`POST`): with a session user, push every client task
 * through the merge in array order, then pull the user's rows stamped
 * after the client's checkpoint.
 */
module SyncRoute {
  import opened Common
  import LexOrder
  import Merge

  const StatusUnauthorized: nat := 401
  const StatusOk: nat := 200

  /** The request body: the client's changed tasks and its last checkpoint, if any. */
  datatype Request = Request(clientTasks: seq<Merge.Payload>, lastSyncTimestamp: Option<string>)

  datatype Response = Unauthorized | ServerUpdates(rows: map<Merge.TaskId, Merge.Row>)
  {
    function Status(): nat
    {
      if Unauthorized? then StatusUnauthorized else StatusOk
    }
  }

  datatype Handled = Handled(store: Merge.Store, response: Response)

  /** The merge loop: each task meets the store as the tasks before it left it. */
  function Push(store: Merge.Store, user: Merge.UserId, tasks: seq<Merge.Payload>, now: nat): (r: Merge.Store)
    ensures forall id :: id in store ==> id in r
    ensures forall id :: id in r ==> id in store || exists k :: 0 <= k < |tasks| && tasks[k].id == id
    decreases |tasks|
  {
    if |tasks| == 0 then store
    else
      var next := Merge.SyncTask(store, user, tasks[0], now).store;
      var r := Push(next, user, tasks[1..], now);
      assert forall id :: id in r && id !in store ==> id == tasks[0].id || exists k :: 0 <= k < |tasks| - 1 && tasks[1..][k].id == id;
      r
  }

  /** JavaScript truthiness of the checkpoint: absent, null and the empty string are falsy. */
  predicate Falsy(lastSync: Option<string>)
  {
    lastSync.None? || lastSync.value == []
  }

  /** The checkpoint filter `gt(tasks.hlcTimestamp, lastSyncTimestamp)`, skipped when falsy. */
  predicate Since(lastSync: Option<string>, hlcTimestamp: string)
  {
    Falsy(lastSync) || LexOrder.Less(lastSync.value, hlcTimestamp)
  }

  /** `findMany` where the owner is the user and, with a checkpoint, the stamp sorts after it. */
  function Pull(store: Merge.Store, user: Merge.UserId, lastSync: Option<string>): (rows: map<Merge.TaskId, Merge.Row>)
    ensures forall id :: id in rows ==> id in store && rows[id] == store[id]
  {
    map id | id in store && store[id].owner == user && Since(lastSync, store[id].hlcTimestamp) :: store[id]
  }

  /** A task id that no task of the batch names. */
  predicate Unnamed(tasks: seq<Merge.Payload>, id: Merge.TaskId)
  {
    forall k :: 0 <= k < |tasks| ==> tasks[k].id != id
  }

  /**
   * `POST(req)` with the session user `session` and the clock reading
   * `now`: the batch goes through the merge, rows no task names are left
   * as they were, and the answer holds exactly the user's rows of the new
   * store that pass the checkpoint, as stored.
   */
  function Post(session: Option<Merge.UserId>, store: Merge.Store, req: Request, now: nat): (h: Handled)
    ensures session.None? ==> h.store == store && h.response.Status() == StatusUnauthorized
    ensures session.Some? ==> h.store == Push(store, session.value, req.clientTasks, now)
    ensures session.Some? ==> h.response.ServerUpdates? && h.response.Status() == StatusOk
    ensures session.Some? ==> forall id :: id in h.response.rows <==>
      id in h.store && h.store[id].owner == session.value && Since(req.lastSyncTimestamp, h.store[id].hlcTimestamp)
    ensures session.Some? ==> forall id :: id in h.response.rows ==> h.response.rows[id] == h.store[id]
    ensures session.Some? ==> forall id :: id in store && Unnamed(req.clientTasks, id) ==>
      id in h.store && h.store[id] == store[id]
  {
    match session
    case None => Handled(store, Unauthorized)
    case Some(user) =>
      var pushed := Push(store, user, req.clientTasks, now);
      PushKeepsAllUnnamed(store, user, req.clientTasks, now);
      Handled(pushed, ServerUpdates(Pull(pushed, user, req.lastSyncTimestamp)))
  }

  lemma PushKeepsAllUnnamed(store: Merge.Store, user: Merge.UserId, tasks: seq<Merge.Payload>, now: nat)
    ensures forall id :: id in store && Unnamed(tasks, id) ==>
      id in Push(store, user, tasks, now) && Push(store, user, tasks, now)[id] == store[id]
  {
    forall id | id in store && Unnamed(tasks, id)
      ensures id in Push(store, user, tasks, now) && Push(store, user, tasks, now)[id] == store[id]
    {
      PushKeepsUnnamed(store, user, tasks, now, id);
    }
  }

  /** Pushing two batches one after the other is pushing them as one. */
  lemma {:induction false} PushConcat(store: Merge.Store, user: Merge.UserId, a: seq<Merge.Payload>, b: seq<Merge.Payload>, now: nat)
    ensures Push(store, user, a + b, now) == Push(Push(store, user, a, now), user, b, now)
    decreases |a|
  {
    if |a| == 0 {
      assert a + b == b;
    } else {
      assert (a + b)[0] == a[0] && (a + b)[1..] == a[1..] + b;
      PushConcat(Merge.SyncTask(store, user, a[0], now).store, user, a[1..], b, now);
    }
  }

  /** The last task of a batch meets the store the earlier tasks left. */
  lemma PushLast(store: Merge.Store, user: Merge.UserId, init: seq<Merge.Payload>, p: Merge.Payload, now: nat)
    ensures Push(store, user, init + [p], now)
      == Merge.SyncTask(Push(store, user, init, now), user, p, now).store
  {
    PushConcat(store, user, init, [p], now);
  }

  /** A row whose id no pushed task names keeps its value. */
  lemma {:induction false} PushKeepsUnnamed(store: Merge.Store, user: Merge.UserId, tasks: seq<Merge.Payload>, now: nat, id: Merge.TaskId)
    requires id in store && Unnamed(tasks, id)
    ensures Push(store, user, tasks, now)[id] == store[id]
    decreases |tasks|
  {
    if |tasks| > 0 {
      PushKeepsUnnamed(Merge.SyncTask(store, user, tasks[0], now).store, user, tasks[1..], now, id);
    }
  }

  /** A task sent twice in a row is written at most once. */
  lemma DuplicateInBatch(store: Merge.Store, user: Merge.UserId, p: Merge.Payload, now: nat)
    requires Merge.NotForeign(store, user, p.id)
    requires p.owner.None? || p.owner == Some(user)
    ensures Push(store, user, [p, p], now) == Push(store, user, [p], now)
  {
    Merge.Idempotent(store, user, p, now, now);
    assert [p, p][1..] == [p];
  }

  /** Without a session user nothing is read or written and the answer is 401. */
  lemma UnauthorizedTouchesNothing(store: Merge.Store, req: Request, now: nat)
    ensures Post(None, store, req, now) == Handled(store, Unauthorized)
  {
  }

  /** The pull returns exactly the user's rows stamped after a truthy checkpoint. */
  lemma PullExactly(store: Merge.Store, user: Merge.UserId, lastSync: Option<string>, id: Merge.TaskId)
    requires !Falsy(lastSync)
    ensures id in Pull(store, user, lastSync) <==>
      id in store && store[id].owner == user && LexOrder.Less(lastSync.value, store[id].hlcTimestamp)
  {
  }

  /** Rows another user owns are never returned. */
  lemma PullOwnRowsOnly(store: Merge.Store, user: Merge.UserId, lastSync: Option<string>)
    ensures forall id :: id in Pull(store, user, lastSync) ==> Pull(store, user, lastSync)[id].owner == user
  {
  }

  /** A falsy checkpoint returns all of the user's rows, deleted ones included. */
  lemma PullFalsyReturnsAll(store: Merge.Store, user: Merge.UserId, lastSync: Option<string>)
    requires Falsy(lastSync)
    ensures forall id :: id in store && store[id].owner == user ==>
      id in Pull(store, user, lastSync) && Pull(store, user, lastSync)[id] == store[id]
  {
  }

  /** A later checkpoint returns no row an earlier one would not. */
  lemma PullShrinks(store: Merge.Store, user: Merge.UserId, early: string, late: string)
    requires LexOrder.Less(early, late)
    ensures Pull(store, user, Some(late)).Keys <= Pull(store, user, Some(early)).Keys
  {
    forall id | id in Pull(store, user, Some(late))
      ensures id in Pull(store, user, Some(early))
    {
      LexOrder.Transitive(early, late, store[id].hlcTimestamp);
    }
  }

  /**
   * The pull runs after the push: a task of the batch, once written under
   * the user, comes back in the same reply when its stamp sorts after the
   * checkpoint and no later task of the batch names its id.
   */
  lemma PushedTaskReturned(session: Merge.UserId, store: Merge.Store, init: seq<Merge.Payload>, p: Merge.Payload,
                           rest: seq<Merge.Payload>, lastSync: Option<string>, now: nat)
    requires var before := Push(store, session, init, now);
      && Merge.NotForeign(before, session, p.id)
      && Merge.SyncTask(before, session, p, now).accepted
    requires p.owner.None? || p.owner == Some(session)
    requires Unnamed(rest, p.id)
    requires Since(lastSync, p.hlcTimestamp)
    ensures var h := Post(Some(session), store, Request(init + [p] + rest, lastSync), now);
      h.response.ServerUpdates? && p.id in h.response.rows
      && h.response.rows[p.id].hlcTimestamp == p.hlcTimestamp
  {
    var mid := Push(store, session, init + [p], now);
    PushLast(store, session, init, p, now);
    PushConcat(store, session, init + [p], rest, now);
    PushKeepsUnnamed(mid, session, rest, now, p.id);
  }

  /** The merge loop over the corrected merge. */
  function PushIsolated(store: Merge.Store, user: Merge.UserId, tasks: seq<Merge.Payload>, now: nat): (r: Merge.Store)
    ensures forall id :: id in store && store[id].owner != user ==> id in r && r[id] == store[id]
    ensures forall id :: id in r && r[id].owner != user ==> id in store && r[id] == store[id]
    decreases |tasks|
  {
    if |tasks| == 0 then store
    else
      Merge.Isolation(store, user, tasks[0], now);
      PushIsolated(Merge.SyncTaskIsolated(store, user, tasks[0], now).store, user, tasks[1..], now)
  }
}
