/**
 * The message repository the service is built on. Its implementation is not
 * part of this model; this class keeps the messages in a map keyed by
 * (organization id, message id) and gives each operation the contract the
 * service relies on. Every call is also appended to a ghost log, so that
 * the order and number of the service's repository calls can be stated.
 */
module Repositories {
  import opened Models
  import opened Text

  /** (organizationId, id): messages are always looked up within their
      organization. */
  type Key = (Guid, Guid)

  function KeyOf(m: Message): (k: Key) {
    (m.organizationId, m.id)
  }

  /** The message stored under (organizationId, id), if any. */
  function Lookup(store: map<Key, Message>, organizationId: Guid, id: Guid): (found: Option<Message>) {
    if (organizationId, id) in store then Some(store[(organizationId, id)]) else None
  }

  /** Some message of the organization has `title`, ignoring case. */
  predicate TitleTaken(store: map<Key, Message>, organizationId: Guid, title: string) {
    exists k | k in store :: store[k].organizationId == organizationId && EqualsIgnoreCase(store[k].title, title)
  }

  /** The messages of one organization. */
  function MessagesOf(store: map<Key, Message>, organizationId: Guid): (messages: set<Message>) {
    set k | k in store && store[k].organizationId == organizationId :: store[k]
  }

  /** One call the service made on the repository. */
  datatype RepositoryCall =
    | GetById(organizationId: Guid, id: Guid)
    | GetByTitle(organizationId: Guid, title: string)
    | GetAllByOrganization(organizationId: Guid)
    | Create(message: Message)
    | Update(message: Message)
    | Delete(organizationId: Guid, id: Guid)

  class MessageRepository {
    var store: map<Key, Message>
    /** Where fresh identifiers come from, in place of `Guid.NewGuid()`. */
    var nextId: Guid
    ghost var log: seq<RepositoryCall>

    /** Each message sits under its own key, and every identifier in use was
        handed out before `nextId`. */
    ghost predicate Valid()
      reads this`store, this`nextId
    {
      forall k | k in store :: KeyOf(store[k]) == k && k.1 < nextId
    }

    constructor ()
      ensures Valid() && store == map[] && log == []
    {
      store := map[];
      nextId := EmptyGuid + 1;
      log := [];
    }

    method GetByIdAsync(organizationId: Guid, id: Guid) returns (m: Option<Message>)
      modifies this`log
      ensures m == Lookup(store, organizationId, id)
      ensures log == old(log) + [GetById(organizationId, id)]
    {
      m := Lookup(store, organizationId, id);
      log := log + [GetById(organizationId, id)];
    }

    /** A message of the organization whose title equals `title` ignoring
        case, or `None` when there is none. */
    method GetByTitleAsync(organizationId: Guid, title: string) returns (m: Option<Message>)
      requires Valid()
      modifies this`log
      ensures m.Some? ==> && KeyOf(m.value) in store && store[KeyOf(m.value)] == m.value
                          && m.value.organizationId == organizationId
                          && EqualsIgnoreCase(m.value.title, title)
      ensures m.None? <==> !TitleTaken(store, organizationId, title)
      ensures log == old(log) + [GetByTitle(organizationId, title)]
    {
      if TitleTaken(store, organizationId, title) {
        var k :| k in store && store[k].organizationId == organizationId && EqualsIgnoreCase(store[k].title, title);
        assert KeyOf(store[k]) == k;
        m := Some(store[k]);
      } else {
        m := None;
      }
      log := log + [GetByTitle(organizationId, title)];
    }

    method GetAllByOrganizationAsync(organizationId: Guid) returns (ms: set<Message>)
      modifies this`log
      ensures ms == MessagesOf(store, organizationId)
      ensures log == old(log) + [GetAllByOrganization(organizationId)]
    {
      ms := MessagesOf(store, organizationId);
      log := log + [GetAllByOrganization(organizationId)];
    }

    /** Stores `message` under a fresh identifier and returns what was
        stored. */
    method CreateAsync(message: Message) returns (created: Message)
      requires Valid()
      modifies this
      ensures Valid()
      ensures created == message.(id := created.id)
      ensures KeyOf(created) !in old(store)
      ensures forall k | k in old(store) :: k.1 != created.id
      ensures store == old(store)[KeyOf(created) := created]
      ensures log == old(log) + [Create(message)]
    {
      created := message.(id := nextId);
      store := store[KeyOf(created) := created];
      nextId := nextId + 1;
      log := log + [Create(message)];
    }

    /** Replaces the stored message with the same key. `None` means nothing
        was written. */
    method UpdateAsync(message: Message) returns (updated: Option<Message>)
      requires Valid()
      modifies this
      ensures Valid()
      ensures updated.Some? ==> && KeyOf(message) in old(store) && updated.value == message
                                && store == old(store)[KeyOf(message) := message]
      ensures updated.None? ==> store == old(store)
      ensures log == old(log) + [Update(message)]
    {
      if KeyOf(message) in store {
        store := store[KeyOf(message) := message];
        updated := Some(message);
      } else {
        updated := None;
      }
      log := log + [Update(message)];
    }

    /** Removes the message stored under (organizationId, id); `false` means
        nothing was removed. */
    method DeleteAsync(organizationId: Guid, id: Guid) returns (deleted: bool)
      requires Valid()
      modifies this
      ensures Valid()
      ensures deleted ==> (organizationId, id) in old(store) && store == old(store) - {(organizationId, id)}
      ensures !deleted ==> store == old(store)
      ensures log == old(log) + [Delete(organizationId, id)]
    {
      deleted := (organizationId, id) in store;
      if deleted {
        store := store - {(organizationId, id)};
      }
      log := log + [Delete(organizationId, id)];
    }
  }
}
