/** The REST handlers of entity.go as steps over the table: each takes the
    table before the request and gives the handler's result together with
    the table after it. Timestamps and new ids, which the store supplies,
    are parameters. */
module Lifecycle {
  import opened Wrappers
  import opened Entities

  datatype Step<T> = Step(result: Result<T, Error>, store: Store)

  /** findEntityByID: the row stored under `id`, or the store's not-found error. */
  function Find(m: Store, id: Id): (r: Result<Entity, Error>)
    ensures r.Success? <==> id in m
    ensures r.Success? ==> r.value == m[id]
    ensures r.Failure? ==> r.error == RecordNotFound
  {
    if id in m then Success(m[id]) else Failure(RecordNotFound)
  }

  /** createEntity: an empty title is rejected before the store is reached;
      otherwise the store inserts the record under the id it assigns and
      stamps both timestamps, and the handler answers with that record. */
  function Create(m: Store, input: Entity, freshId: Id, now: Timestamp): (o: Step<Entity>)
    ensures input.title == "" ==> o == Step(Failure(EmptyTitle), m)
    ensures input.title != "" && freshId !in m ==>
              && o.result.Success?
              && o.result.value.id == freshId
              && o.result.value.title == input.title
              && o.result.value.createdAt == now
              && o.result.value.updatedAt == now
              && o.result.value.rest == input.rest
              && o.store == m[freshId := o.result.value]
    ensures input.title != "" && freshId in m ==> o == Step(Failure(DuplicateKey), m)
    ensures o.result.Success? <==> input.title != "" && freshId !in m
    ensures o.result.Failure? ==> o.store == m
    ensures AgreeExcept(m, o.store, freshId)
    ensures Consistent(m) ==> Consistent(o.store)
  {
    if input.title == "" then
      Step(Failure(EmptyTitle), m)
    else if freshId in m then
      Step(Failure(DuplicateKey), m)
    else
      var created := input.(id := freshId, createdAt := now, updatedAt := now);
      Step(Success(created), m[freshId := created])
  }

  /** updateEntity: look the row up first (so an unknown id is reported as
      not found whatever the patch holds), merge the patch into it, and save
      the merged row, which the store stamps with `now`. */
  function Update(m: Store, id: Id, patch: EntityUpdate, now: Timestamp): (o: Step<Entity>)
    ensures id !in m ==> o == Step(Failure(RecordNotFound), m)
    ensures id in m && patch.title == Some("") ==> o == Step(Failure(EmptyTitle), m)
    ensures o.result.Success? <==> id in m && patch.title != Some("")
    ensures o.result.Failure? ==> o.store == m
    ensures o.result.Success? ==>
              && o.store == m[id := o.result.value]
              && o.result.value.id == m[id].id
              && o.result.value.createdAt == m[id].createdAt
              && o.result.value.rest == m[id].rest
              && o.result.value.updatedAt == now
              && o.result.value.title == (if patch.title.Some? then patch.title.value else m[id].title)
    ensures AgreeExcept(m, o.store, id)
    ensures Consistent(m) ==> Consistent(o.store)
  {
    match Find(m, id)
    case Failure(e) => Step(Failure(e), m)
    case Success(stored) =>
      match Merge(stored, patch)
      case Failure(e) => Step(Failure(e), m)
      case Success(merged) =>
        var saved := merged.(updatedAt := now);
        Step(Success(saved), m[id := saved])
  }

  /** deleteEntity: the store deletes whatever row has that id; the handler
      makes no existence check of its own, so an absent id succeeds too. */
  function Delete(m: Store, id: Id): (o: Step<()>)
    ensures o.result.Success?
    ensures id !in o.store
    ensures AgreeExcept(m, o.store, id)
    ensures Consistent(m) ==> Consistent(o.store)
  {
    Step(Success(()), m - {id})
  }

  /** After a delete, getEntity on that id reports not found, and every other
      id answers exactly as it did before. */
  lemma GetAfterDelete(m: Store, id: Id)
    ensures Find(Delete(m, id).store, id) == Failure(RecordNotFound)
    ensures forall k :: k != id ==> Find(Delete(m, id).store, k) == Find(m, k)
  {
  }

  /** A patch with no field present keeps the stored title and only
      refreshes updatedAt; with a clock that moves forward, it advances. */
  lemma EmptyPatchKeepsTitle(m: Store, id: Id, now: Timestamp)
    requires id in m
    ensures var o := Update(m, id, EntityUpdate(None), now);
              && o.result.Success?
              && o.result.value == m[id].(updatedAt := now)
              && (now > m[id].updatedAt ==> o.store[id].updatedAt > m[id].updatedAt)
  {
  }

  /** The life of one entity: created with title "Draft", patched with an
      empty patch, patched to "Final", deleted, then looked up. */
  lemma DraftScenario(m: Store, e1: Id, input: Entity, t0: Timestamp, t1: Timestamp, t2: Timestamp)
    requires Consistent(m) && e1 !in m
    requires input.title == "Draft"
    requires t0 < t1 < t2
    ensures var c := Create(m, input, e1, t0);
            var u1 := Update(c.store, e1, EntityUpdate(None), t1);
            var u2 := Update(u1.store, e1, EntityUpdate(Some("Final")), t2);
            var d := Delete(u2.store, e1);
            && c.result == Success(input.(id := e1, createdAt := t0, updatedAt := t0))
            && u1.result.Success? && u1.result.value.title == "Draft" && u1.result.value.updatedAt == t1
            && u2.result.Success? && u2.result.value.title == "Final" && u2.result.value.updatedAt == t2
            && Find(d.store, e1) == Failure(RecordNotFound)
            && d.store == m
  {
  }
}
