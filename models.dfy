/**
 * The entity, the two request bodies and the tagged outcome of the message
 * service.
 */
module Models {

  /** Identifiers. A `Guid` is opaque to the service; only equality and
      freshness matter, so natural numbers stand for them. */
  type Guid = nat

  /** `Guid.Empty`, the identifier of a message the repository has not yet
      stored. */
  const EmptyGuid: Guid := 0

  /** A UTC timestamp, supplied by the caller in place of `DateTime.UtcNow`. */
  type DateTime = int

  datatype Option<+T> = None | Some(value: T)

  /** A stored message. `updatedAt` is absent until the first update. */
  datatype Message = Message(
    id: Guid,
    organizationId: Guid,
    title: string,
    content: string,
    isActive: bool,
    createdAt: DateTime,
    updatedAt: Option<DateTime>)

  datatype CreateMessageRequest = CreateMessageRequest(title: string, content: string)

  datatype UpdateMessageRequest = UpdateMessageRequest(title: string, content: string, isActive: bool)

  /** Validation errors: field name to the messages reported for it. */
  type Errors = map<string, seq<string>>

  /** The outcome of every service operation; nothing is thrown. */
  datatype Result =
    | Created(value: Message)
    | Updated
    | Deleted
    | NotFound(message: string)
    | Conflict(message: string)
    | ValidationError(errors: Errors)
  {
    /** The three failure outcomes. */
    predicate IsError() {
      NotFound? || Conflict? || ValidationError?
    }
  }
}
