/** The shared table that entity.go reaches through its global `db`, and the
    handlers that read and write it in place. Each handler is tied to its
    step in Lifecycle; the message consumer is here too, to show that it is
    given no right to change the table. */
module Service {
  import opened Wrappers
  import opened Entities
  import Lifecycle

  /** The bytes of a message body. */
  type Payload = seq<bv8>

  class EntityStore {
    var records: Store

    ghost predicate Valid()
      reads this
    {
      Consistent(records)
    }

    constructor ()
      ensures Valid() && records == map[]
    {
      records := map[];
    }

    /** createEntity, given the store's next id and clock reading. */
    method CreateEntity(input: Entity, freshId: Id, now: Timestamp) returns (r: Result<Entity, Error>)
      requires Valid()
      modifies this
      ensures Valid()
      ensures Lifecycle.Step(r, records) == Lifecycle.Create(old(records), input, freshId, now)
    {
      if input.title == "" {
        return Failure(EmptyTitle);
      }
      if freshId in records {
        return Failure(DuplicateKey);
      }
      var created := input.(id := freshId, createdAt := now, updatedAt := now);
      records := records[freshId := created];
      r := Success(created);
    }

    /** getEntity, through findEntityByID. */
    method GetEntity(id: Id) returns (r: Result<Entity, Error>)
      ensures r == Lifecycle.Find(records, id)
      ensures Valid() && r.Success? ==> r.value.id == id && r.value.title != ""
    {
      if id in records {
        r := Success(records[id]);
      } else {
        r := Failure(RecordNotFound);
      }
    }

    /** updateEntity: load the row, check and apply the patch to the loaded
        copy, then save that copy back under its id. */
    method UpdateEntity(id: Id, patch: EntityUpdate, now: Timestamp) returns (r: Result<Entity, Error>)
      requires Valid()
      modifies this
      ensures Valid()
      ensures Lifecycle.Step(r, records) == Lifecycle.Update(old(records), id, patch, now)
    {
      var found := GetEntity(id);
      if found.Failure? {
        return Failure(found.error);
      }
      var stored := found.value;
      if patch.title.Some? {
        if patch.title.value == "" {
          return Failure(EmptyTitle);
        }
        stored := stored.(title := patch.title.value);
      }
      stored := stored.(updatedAt := now);
      records := records[id := stored];
      r := Success(stored);
    }

    /** deleteEntity: the store drops the row with that id, if there is one. */
    method DeleteEntity(id: Id) returns (r: Result<(), Error>)
      requires Valid()
      modifies this
      ensures Valid()
      ensures Lifecycle.Step(r, records) == Lifecycle.Delete(old(records), id)
    {
      records := records - {id};
      r := Success(());
    }

    /** ReceiveEntity: decode the body and log what it holds. The method has
        no modifies clause, so whatever the body holds the table stays as it
        was; a decode failure is returned to the consumer. */
    method ReceiveEntity(body: Payload, decode: Payload -> Option<Entity>) returns (r: Result<Entity, Error>)
      ensures r.Success? <==> decode(body).Some?
      ensures r.Success? ==> decode(body) == Some(r.value)
      ensures r.Failure? ==> r.error == DecodeError
    {
      var decoded := decode(body);
      if decoded.None? {
        return Failure(DecodeError);
      }
      r := Success(decoded.value);
    }

    /** An at-least-once channel delivering the same message twice: both
        deliveries give the same answer and the table is untouched. */
    method DeliverTwice(body: Payload, decode: Payload -> Option<Entity>) returns (first: Result<Entity, Error>, second: Result<Entity, Error>)
      ensures first == second
      ensures unchanged(this)
    {
      first := ReceiveEntity(body, decode);
      second := ReceiveEntity(body, decode);
    }
  }
}
