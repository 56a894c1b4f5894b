/**
 * The server's last-writer-wins merge of one client task (`syncTask`).
 *
 * The tasks table is a map from task id to row. The lookup that decides
 * whether to write is scoped by the task id AND the session user, while
 * the upsert that writes conflicts on the task id alone: `SyncTask` keeps
 * that mismatch, and `SyncTaskIsolated` is the version that never touches
 * another user's row.
 */
module Merge {
  import opened Common
  import Hlc
  import LexOrder

  type TaskId = string
  type UserId = string

  /** The columns of the tasks table a client may send, besides id, owner and version stamp. */
  datatype Column =
    | Title | Description | DurationMinutes | TaskType | Tags | IsCompleted
    | DueAt | TimezoneMode | Timezone | CreatedAt | DeletedAt

  datatype Value = Str(s: string) | Int(i: int) | Bool(b: bool) | Strs(items: seq<string>) | Null

  /** A stored row: its owner, version stamp, write time and the other columns. */
  datatype Row = Row(owner: UserId, hlcTimestamp: string, updatedAt: nat, columns: map<Column, Value>)

  /**
   * A task as the client sends it: its id, its version stamp, the owner
   * when the client sent one, and the columns it sent.
   */
  datatype Payload = Payload(id: TaskId, hlcTimestamp: string, owner: Option<UserId>, columns: map<Column, Value>)

  type Store = map<TaskId, Row>

  /** The store after the call, and whether the task was written (`syncTask`'s boolean). */
  datatype Outcome = Outcome(store: Store, accepted: bool)

  /** `findFirst` where the id and the owner both match. */
  function Lookup(store: Store, id: TaskId, user: UserId): Option<Row>
  {
    if id in store && store[id].owner == user then Some(store[id]) else None
  }

  /** The accept rule: no row found, or the client's stamp sorts after the stored one. */
  predicate Newer(p: Payload, existing: Option<Row>)
  {
    existing.None? || Hlc.Compare(p.hlcTimestamp, existing.value.hlcTimestamp) > 0
  }

  /** No other user owns a row under this id. */
  predicate NotForeign(store: Store, user: UserId, id: TaskId)
  {
    id !in store || store[id].owner == user
  }

  /**
   * The insert with `onConflictDoUpdate` on the id: a fresh row is stamped
   * with the session user; an existing row, whoever owns it, takes the
   * client's stamp, its owner if it sent one, and the columns it sent laid
   * over the stored ones. Either way `updatedAt` is the write time.
   */
  function Upsert(store: Store, user: UserId, p: Payload, now: nat): Store
  {
    if p.id in store then
      var row := store[p.id];
      store[p.id := Row(p.owner.GetOr(row.owner), p.hlcTimestamp, now, row.columns + p.columns)]
    else
      store[p.id := Row(user, p.hlcTimestamp, now, p.columns)]
  }

  /** `syncTask(userId, clientTask)` with the clock reading `now` for `new Date()`. */
  function SyncTask(store: Store, user: UserId, p: Payload, now: nat): (o: Outcome)
    ensures o.accepted <==>
      p.id !in store || store[p.id].owner != user
      || Hlc.Compare(p.hlcTimestamp, store[p.id].hlcTimestamp) > 0
    ensures !o.accepted ==> o.store == store
    ensures o.accepted ==>
      p.id in o.store && o.store[p.id].hlcTimestamp == p.hlcTimestamp && o.store[p.id].updatedAt == now
    ensures o.store.Keys == store.Keys || o.store.Keys == store.Keys + {p.id}
    ensures forall id :: id in store && id != p.id ==> o.store[id] == store[id]
  {
    if Newer(p, Lookup(store, p.id, user)) then Outcome(Upsert(store, user, p, now), true)
    else Outcome(store, false)
  }

  /** A task the store has never seen is inserted under the session user, whatever owner it names. */
  lemma NewTaskInserted(store: Store, user: UserId, p: Payload, now: nat)
    requires p.id !in store
    ensures SyncTask(store, user, p, now)
      == Outcome(store[p.id := Row(user, p.hlcTimestamp, now, p.columns)], true)
  {
  }

  /** A stamp that does not sort after the user's stored row is ignored, and nothing changes. */
  lemma StaleIgnored(store: Store, user: UserId, p: Payload, now: nat)
    requires p.id in store && store[p.id].owner == user
    requires Hlc.Compare(p.hlcTimestamp, store[p.id].hlcTimestamp) <= 0
    ensures SyncTask(store, user, p, now) == Outcome(store, false)
  {
  }

  /**
   * A newer version of the user's row replaces the stamp and write time and
   * overlays the columns: a column the client sent takes its value, any
   * other keeps the stored one.
   */
  lemma NewerOverlays(store: Store, user: UserId, p: Payload, now: nat)
    requires p.id in store && store[p.id].owner == user
    requires Hlc.Compare(p.hlcTimestamp, store[p.id].hlcTimestamp) > 0
    ensures var o := SyncTask(store, user, p, now);
      var old_, new_ := store[p.id].columns, o.store[p.id].columns;
      && o.accepted
      && o.store[p.id].owner == p.owner.GetOr(user)
      && o.store[p.id].hlcTimestamp == p.hlcTimestamp && o.store[p.id].updatedAt == now
      && (forall c :: c in new_ <==> c in old_ || c in p.columns)
      && (forall c :: c in p.columns ==> new_[c] == p.columns[c])
      && (forall c :: c in old_ && c !in p.columns ==> new_[c] == old_[c])
  {
  }

  /**
   * Sending the same task again right after it was synced is ignored, as
   * long as the payload does not hand the row to another owner: the stored
   * stamp is then the payload's own, and equal stamps compare as 0.
   */
  lemma Idempotent(store: Store, user: UserId, p: Payload, now: nat, later: nat)
    requires NotForeign(store, user, p.id)
    requires p.owner.None? || p.owner == Some(user)
    ensures var o := SyncTask(store, user, p, now);
      SyncTask(o.store, user, p, later) == Outcome(o.store, false)
  {
    var o := SyncTask(store, user, p, now);
    if o.accepted {
      assert o.store[p.id].owner == user;
      assert Hlc.Compare(p.hlcTimestamp, o.store[p.id].hlcTimestamp) == 0;
    }
  }

  /** Of two stamps, the one `compare` puts last (either, when they are equal). */
  function Later(a: string, b: string): (r: string)
    ensures r == a || r == b
    ensures Hlc.Compare(r, a) >= 0 && Hlc.Compare(r, b) >= 0
  {
    Hlc.CompareAntisymmetric(a, b);
    if Hlc.Compare(a, b) >= 0 then a else b
  }

  /** `Later` does not depend on the order of its arguments. */
  lemma LaterCommutes(a: string, b: string)
    ensures Later(a, b) == Later(b, a)
  {
    Hlc.CompareAntisymmetric(a, b);
  }

  /** `Later` does not depend on how three stamps are grouped. */
  lemma LaterAssociates(a: string, b: string, c: string)
    ensures Later(Later(a, b), c) == Later(a, Later(b, c))
  {
    Hlc.CompareAntisymmetric(a, b);
    Hlc.CompareAntisymmetric(b, c);
    Hlc.CompareAntisymmetric(a, c);
    Hlc.CompareTransitive(a, b, c);
    Hlc.CompareTransitive(c, b, a);
    Hlc.CompareTransitive(b, a, c);
    Hlc.CompareTransitive(c, a, b);
    Hlc.CompareTransitive(a, c, b);
    Hlc.CompareTransitive(b, c, a);
  }

  /** The stamp a row ends with after one push, when no other user owns the id. */
  lemma StampAfter(store: Store, user: UserId, p: Payload, now: nat)
    requires NotForeign(store, user, p.id)
    ensures var s := SyncTask(store, user, p, now).store;
      p.id in s
      && s[p.id].hlcTimestamp
        == (if p.id in store then Later(store[p.id].hlcTimestamp, p.hlcTimestamp) else p.hlcTimestamp)
  {
    if p.id in store {
      Hlc.CompareAntisymmetric(store[p.id].hlcTimestamp, p.hlcTimestamp);
    }
  }

  /**
   * Two versions of one task, delivered in either order, leave the row
   * with the stamp `compare` puts last.
   */
  lemma LastWriterWins(store: Store, user: UserId, p1: Payload, p2: Payload, n1: nat, n2: nat)
    requires p1.id == p2.id && NotForeign(store, user, p1.id)
    requires p1.owner.None? || p1.owner == Some(user)
    requires p2.owner.None? || p2.owner == Some(user)
    ensures var id := p1.id;
      var s12 := SyncTask(SyncTask(store, user, p1, n1).store, user, p2, n2).store;
      var s21 := SyncTask(SyncTask(store, user, p2, n2).store, user, p1, n1).store;
      var last := Later(p1.hlcTimestamp, p2.hlcTimestamp);
      && id in s12 && id in s21
      && s12[id].hlcTimestamp == s21[id].hlcTimestamp
      && s12[id].hlcTimestamp == (if id in store then Later(store[id].hlcTimestamp, last) else last)
  {
    var id := p1.id;
    var s1 := SyncTask(store, user, p1, n1).store;
    var s2 := SyncTask(store, user, p2, n2).store;
    StampAfter(store, user, p1, n1);
    StampAfter(store, user, p2, n2);
    StampAfter(s1, user, p2, n2);
    StampAfter(s2, user, p1, n1);
    LaterCommutes(p1.hlcTimestamp, p2.hlcTimestamp);
    if id in store {
      var h := store[id].hlcTimestamp;
      LaterAssociates(h, p1.hlcTimestamp, p2.hlcTimestamp);
      LaterAssociates(h, p2.hlcTimestamp, p1.hlcTimestamp);
    }
  }

  /**
   * Only the stamp is independent of arrival order. The columns are not:
   * a task first pushed with stamp "2" and no columns, then with the older
   * stamp "1" and a title, keeps no title, while the other order keeps it,
   * because the newer push only lays its (empty) columns over the stored
   * ones.
   */
  lemma ArrivalOrderMatters(user: UserId, n1: nat, n2: nat)
    ensures var p1 := Payload("x", "2", None, map[]);
      var p2 := Payload("x", "1", None, map[Title := Str("old")]);
      var s12 := SyncTask(SyncTask(map[], user, p1, n1).store, user, p2, n2).store;
      var s21 := SyncTask(SyncTask(map[], user, p2, n2).store, user, p1, n1).store;
      && "x" in s12 && "x" in s21
      && s12["x"].hlcTimestamp == s21["x"].hlcTimestamp == "2"
      && Title !in s12["x"].columns
      && s21["x"].columns[Title] == Str("old")
  {
    var p1 := Payload("x", "2", None, map[]);
    var p2 := Payload("x", "1", None, map[Title := Str("old")]);
    assert LexOrder.Less("1", "2");
    LexOrder.Asymmetric("1", "2");
  }

  /**
   * As written, a row another user owns under the same id is rewritten,
   * even by a stamp that sorts before the stored one: the lookup scoped to
   * the session user finds nothing, and the upsert on the id alone then
   * updates the other user's row.
   */
  lemma CrossOwnerOverwrite(store: Store, user: UserId, p: Payload, now: nat)
    requires p.id in store && store[p.id].owner != user
    requires Hlc.Compare(p.hlcTimestamp, store[p.id].hlcTimestamp) < 0
    ensures var o := SyncTask(store, user, p, now);
      && o.accepted
      && o.store[p.id].hlcTimestamp == p.hlcTimestamp != store[p.id].hlcTimestamp
      && o.store[p.id].owner == p.owner.GetOr(store[p.id].owner)
      && o.store[p.id].columns == store[p.id].columns + p.columns
  {
  }

  /**
   * The merge with the conflict confined to the session user's rows: a
   * task id held by another user is refused, and a written row always
   * belongs to the session user.
   */
  function SyncTaskIsolated(store: Store, user: UserId, p: Payload, now: nat): (o: Outcome)
    ensures o.accepted <==>
      p.id !in store
      || (store[p.id].owner == user && Hlc.Compare(p.hlcTimestamp, store[p.id].hlcTimestamp) > 0)
    ensures !o.accepted ==> o.store == store
    ensures o.accepted ==> o.store == store[p.id := Row(user, p.hlcTimestamp, now,
      if p.id in store then store[p.id].columns + p.columns else p.columns)]
  {
    if !NotForeign(store, user, p.id) then Outcome(store, false)
    else if Newer(p, Lookup(store, p.id, user)) then
      var columns := if p.id in store then store[p.id].columns + p.columns else p.columns;
      Outcome(store[p.id := Row(user, p.hlcTimestamp, now, columns)], true)
    else Outcome(store, false)
  }

  /** The corrected merge never changes, adds or removes another user's row. */
  lemma Isolation(store: Store, user: UserId, p: Payload, now: nat)
    ensures var o := SyncTaskIsolated(store, user, p, now);
      && (forall id :: id in store && store[id].owner != user ==> id in o.store && o.store[id] == store[id])
      && (forall id :: id in o.store && o.store[id].owner != user ==> id in store && o.store[id] == store[id])
  {
  }

  /** On every store where no other user holds the id, the corrected merge agrees with the original one, up to the owner the payload names. */
  lemma IsolatedAgrees(store: Store, user: UserId, p: Payload, now: nat)
    requires NotForeign(store, user, p.id)
    requires p.owner.None? || p.owner == Some(user)
    ensures SyncTaskIsolated(store, user, p, now) == SyncTask(store, user, p, now)
  {
  }

  /** The corrected merge is idempotent whatever the payload names as owner. */
  lemma IsolatedIdempotent(store: Store, user: UserId, p: Payload, now: nat, later: nat)
    ensures var o := SyncTaskIsolated(store, user, p, now);
      SyncTaskIsolated(o.store, user, p, later) == Outcome(o.store, false)
  {
    var o := SyncTaskIsolated(store, user, p, now);
    if o.accepted {
      assert Hlc.Compare(p.hlcTimestamp, o.store[p.id].hlcTimestamp) == 0;
    }
  }
}
