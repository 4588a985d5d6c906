/** The entity record, the PATCH body, the errors the handlers return, and
    the presence-based merge that `updateEntity` performs on a stored record. */
module Entities {
  import opened Wrappers

  type Id = string
  type Timestamp = int

  /** One row of the entity table. The columns this model does not inspect
      are carried together as the opaque value `rest`. */
  datatype Entity = Entity(id: Id, title: string, createdAt: Timestamp, updatedAt: Timestamp, rest: seq<char>)

  /** The body of an update request. `None` means the field was absent from
      the request (a nil `*string` in Go), which is different from `Some("")`. */
  datatype EntityUpdate = EntityUpdate(title: Option<string>)

  datatype Error =
    | HttpError(status: nat, code: string, message: string)  // built with xerr.New
    | RecordNotFound                                         // the store has no row with that id
    | DuplicateKey                                           // the store refused an insert under a taken id
    | DecodeError                                            // a message body that is not a JSON entity

  /** The error both createEntity and updateEntity return for an empty title. */
  const EmptyTitle: Error := HttpError(400, "BadRequest", "Empty title")

  /** The table, keyed by primary key. */
  type Store = map<Id, Entity>

  /** What every write path keeps true of the table: each row sits under its
      own id, and no row has an empty title. */
  ghost predicate Consistent(m: Store) {
    forall k :: k in m ==> m[k].id == k && m[k].title != ""
  }

  /** The two tables hold the same row, or no row, under every id but `id`. */
  ghost predicate AgreeExcept(m: Store, m': Store, id: Id) {
    forall k :: k != id ==> (k in m <==> k in m') && (k in m ==> m[k] == m'[k])
  }

  /** Applies a patch to a stored record: an absent title leaves the record's
      title alone, a present empty title is rejected, and a present non-empty
      title replaces it. Nothing but the title is ever touched. */
  function Merge(stored: Entity, patch: EntityUpdate): (r: Result<Entity, Error>)
    ensures r.Failure? <==> patch.title == Some("")
    ensures r.Failure? ==> r.error == EmptyTitle
    ensures patch.title.None? ==> r == Success(stored)
    ensures patch.title.Some? && patch.title.value != "" ==>
              r.Success? && r.value.title == patch.title.value
    ensures r.Success? ==> r.value.title != "" || stored.title == ""
    ensures r.Success? ==>
              && r.value.id == stored.id
              && r.value.createdAt == stored.createdAt
              && r.value.updatedAt == stored.updatedAt
              && r.value.rest == stored.rest
  {
    match patch.title
    case None => Success(stored)
    case Some(t) => if t == "" then Failure(EmptyTitle) else Success(stored.(title := t))
  }
}
