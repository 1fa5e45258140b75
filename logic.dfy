/**
 * The message service (`MessageLogic`): request validation, the per
 * organization title-uniqueness rule, the active flag that gates update and
 * delete, and the orchestration of repository calls into one `Result`.
 */
module Logic {
  import opened Models
  import opened Text
  import opened Repositories

  // ---------------------------------------------------------------------
  // Validation
  // ---------------------------------------------------------------------

  /** The error key, the closed range of trimmed lengths and the two error
      messages of one validated field. */
  datatype FieldRule = FieldRule(key: string, minLength: nat, maxLength: nat, required: string, outOfRange: string)

  const TitleRule := FieldRule("Title", 3, 200, "Title is required.", "Title must be between 3 and 200 characters.")

  const ContentRule := FieldRule("Content", 10, 1000, "Content is required.", "Content must be between 10 and 1000 characters.")

  const MessageNotFound := "Message not found."
  const NotFoundDuringUpdate := "Message not found during update."
  const NotFoundOrNotDeleted := "Message not found or could not be deleted."
  const CannotUpdateInactive := "Cannot update an inactive message."
  const CannotDeleteInactive := "Cannot delete an inactive message."

  /** The text of a `Conflict`; it quotes the title as the caller sent it. */
  function DuplicateTitle(title: string): (text: string) {
    "A message with title '" + title + "' already exists."
  }

  /** A value is acceptable for a field when its trimmed length, counted in
      UTF-16 code units, lies in the field's closed range. */
  predicate WithinBounds(rule: FieldRule, value: string) {
    rule.minLength <= Utf16Length(Trim(value)) <= rule.maxLength
  }

  /** The one message the checks of a field report, if any: "required" for a
      null, empty or white-space-only value, otherwise the range message when
      the trimmed length is out of range. */
  function FieldError(rule: FieldRule, value: string): (error: Option<string>) {
    if IsNullOrWhiteSpace(value) then Some(rule.required)
    else if Utf16Length(Trim(value)) < rule.minLength || Utf16Length(Trim(value)) > rule.maxLength then Some(rule.outOfRange)
    else None
  }

  /** The entry a field contributes to the error dictionary. */
  function FieldErrors(rule: FieldRule, value: string): (errors: Errors) {
    match FieldError(rule, value)
    case Some(e) => map[rule.key := [e]]
    case None => map[]
  }

  /** What validating a title and a content collects. */
  function ValidationErrors(title: string, content: string): (errors: Errors) {
    FieldErrors(TitleRule, title) + FieldErrors(ContentRule, content)
  }

  /** What the collected errors mean. Only the keys "Title" and "Content"
      occur; each is present exactly when its field is out of bounds, and then
      holds exactly one message: "required" when the value trims to nothing
      and the range message otherwise. Each field is judged on its own value
      alone, and validation passes exactly when both are within bounds. */
  lemma ValidationErrorsMeaning(title: string, content: string)
    ensures var errors := ValidationErrors(title, content);
      && errors.Keys <= {"Title", "Content"}
      && ("Title" in errors <==> !WithinBounds(TitleRule, title))
      && ("Content" in errors <==> !WithinBounds(ContentRule, content))
      && ("Title" in errors ==>
            errors["Title"] == [if Trim(title) == [] then TitleRule.required else TitleRule.outOfRange])
      && ("Content" in errors ==>
            errors["Content"] == [if Trim(content) == [] then ContentRule.required else ContentRule.outOfRange])
      && (errors == map[] <==> WithinBounds(TitleRule, title) && WithinBounds(ContentRule, content))
  {
    var errors := ValidationErrors(title, content);
    assert "Title" != "Content";
    if errors == map[] {
      assert "Title" !in errors && "Content" !in errors;
    }
  }

  /** `Dictionary<string, List<string>>` as validation fills it in. */
  class ErrorDictionary {
    var entries: Errors

    constructor ()
      ensures entries == map[]
    {
      entries := map[];
    }
  }

  /** Appends `message` to the list under `key`, starting a new list when the
      key is not there yet; every other entry is left as it was. */
  method AddError(d: ErrorDictionary, key: string, message: string)
    modifies d
    ensures d.entries == old(d.entries)[key := if key in old(d.entries) then old(d.entries)[key] + [message] else [message]]
  {
    var list: seq<string>;
    if key in d.entries {
      list := d.entries[key];
    } else {
      list := [];
      d.entries := d.entries[key := list];
    }
    list := list + [message];
    assert key !in old(d.entries) ==> list == [message];
    d.entries := d.entries[key := list];
  }

  /** Checks one field and records its error, if any, in `d`. */
  method CheckField(d: ErrorDictionary, rule: FieldRule, value: string)
    requires rule.key !in d.entries
    modifies d
    ensures d.entries == old(d.entries) + FieldErrors(rule, value)
  {
    if IsNullOrWhiteSpace(value) {
      AddError(d, rule.key, rule.required);
      assert FieldError(rule, value) == Some(rule.required);
    } else if Utf16Length(Trim(value)) < rule.minLength || Utf16Length(Trim(value)) > rule.maxLength {
      AddError(d, rule.key, rule.outOfRange);
      assert FieldError(rule, value) == Some(rule.outOfRange);
    } else {
      assert FieldError(rule, value) == None;
      assert old(d.entries) + FieldErrors(rule, value) == old(d.entries);
    }
  }

  method ValidateCreateRequest(request: CreateMessageRequest) returns (errors: Errors)
    ensures errors == ValidationErrors(request.title, request.content)
  {
    var d := new ErrorDictionary();
    CheckField(d, TitleRule, request.title);
    CheckField(d, ContentRule, request.content);
    errors := d.entries;
  }

  method ValidateUpdateRequest(request: UpdateMessageRequest) returns (errors: Errors)
    ensures errors == ValidationErrors(request.title, request.content)
  {
    var d := new ErrorDictionary();
    CheckField(d, TitleRule, request.title);
    CheckField(d, ContentRule, request.content);
    errors := d.entries;
  }

  // ---------------------------------------------------------------------
  // What the service keeps true of the store
  // ---------------------------------------------------------------------

  /** A message as the service writes it: title and content trimmed and of
      acceptable length. */
  predicate WellFormed(m: Message) {
    && Trimmed(m.title) && TitleRule.minLength <= Utf16Length(m.title) <= TitleRule.maxLength
    && Trimmed(m.content) && ContentRule.minLength <= Utf16Length(m.content) <= ContentRule.maxLength
  }

  /** The messages under `k1` and `k2` belong to one organization and have
      titles equal ignoring case. */
  predicate SameTitle(store: map<Key, Message>, k1: Key, k2: Key) {
    && k1 in store && k2 in store
    && store[k1].organizationId == store[k2].organizationId
    && EqualsIgnoreCase(store[k1].title, store[k2].title)
  }

  /** Within an organization no two messages have titles equal ignoring
      case. */
  ghost predicate TitlesUnique(store: map<Key, Message>) {
    forall k1, k2 | SameTitle(store, k1, k2) :: k1 == k2
  }

  ghost predicate StoreInvariant(store: map<Key, Message>) {
    && (forall k {:trigger WellFormed(store[k])} | k in store :: WellFormed(store[k]))
    && TitlesUnique(store)
  }

  /** Every inactive message of `before` is still there, unchanged, in
      `after`: an inactive message is never updated or deleted. */
  ghost predicate InactivePreserved(before: map<Key, Message>, after: map<Key, Message>) {
    forall k | k in before && !before[k].isActive :: k in after && after[k] == before[k]
  }

  /** Overwriting an active message leaves every inactive one as it was. */
  lemma ReplacingActiveKeepsInactive(before: map<Key, Message>, key: Key, m: Message)
    requires key in before && before[key].isActive
    ensures InactivePreserved(before, before[key := m])
  {
  }

  /** A title lookup finds at most one message: two messages of an
      organization whose titles both equal `title` ignoring case are the
      same message. */
  lemma TitleHolderUnique(store: map<Key, Message>, organizationId: Guid, title: string, k1: Key, k2: Key)
    requires StoreInvariant(store)
    requires k1 in store && store[k1].organizationId == organizationId && EqualsIgnoreCase(store[k1].title, title)
    requires k2 in store && store[k2].organizationId == organizationId && EqualsIgnoreCase(store[k2].title, title)
    ensures k1 == k2
  {
    EqualsIgnoreCaseIsEquivalence(title, store[k2].title, store[k1].title);
    EqualsIgnoreCaseIsEquivalence(store[k1].title, title, store[k2].title);
    assert SameTitle(store, k1, k2);
  }

  /** When a message keeps its title up to case, or takes a title no message
      of its organization has, no other message of the organization has that
      title: the rename cannot create a duplicate. */
  lemma NoOtherHolder(store: map<Key, Message>, key: Key, title: string)
    requires StoreInvariant(store) && key in store && KeyOf(store[key]) == key
    requires EqualsIgnoreCase(store[key].title, title) || !TitleTaken(store, key.0, title)
    ensures forall k | k in store && k != key && store[k].organizationId == key.0
              :: !EqualsIgnoreCase(store[k].title, title)
  {
    if EqualsIgnoreCase(store[key].title, title) {
      forall k | k in store && k != key && store[k].organizationId == key.0
        ensures !EqualsIgnoreCase(store[k].title, title)
      {
        if EqualsIgnoreCase(store[k].title, title) {
          TitleHolderUnique(store, key.0, title, k, key);
        }
      }
    }
  }

  /** A message built from a request that passed validation, with the
      request's fields trimmed, is well formed. */
  lemma AcceptedIsWellFormed(m: Message, title: string, content: string)
    requires ValidationErrors(title, content) == map[]
    requires m.title == Trim(title) && m.content == Trim(content)
    ensures WellFormed(m)
  {
    ValidationErrorsMeaning(title, content);
  }

  /** A title that differs from a stored one only by case and by white space
      around it is taken: its trimmed form is what a create or a rename looks
      up, and that lookup finds the stored message. */
  lemma PaddedTitleIsTaken(store: map<Key, Message>, k: Key, before: string, title: string, after: string)
    requires k in store && Trimmed(store[k].title)
    requires EqualsIgnoreCase(title, store[k].title)
    requires IsNullOrWhiteSpace(before) && IsNullOrWhiteSpace(after)
    ensures TitleTaken(store, store[k].organizationId, Trim(before + title + after))
  {
    var stored := store[k].title;
    TrimFixedPoint(stored);
    TrimIgnoresPadding(before, title, after);
    TrimRespectsIgnoreCase(title, stored);
    EqualsIgnoreCaseIsEquivalence(Trim(title), stored, stored);
    assert EqualsIgnoreCase(store[k].title, Trim(before + title + after));
  }

  // ---------------------------------------------------------------------
  // The service
  // ---------------------------------------------------------------------

  class MessageLogic {
    const repository: MessageRepository

    constructor (repository: MessageRepository)
      requires repository.Valid()
      ensures this.repository == repository && Valid()
    {
      this.repository := repository;
    }

    /** The service relies only on each message sitting under its own key.
        `StoreInvariant` is what it keeps true of the messages it writes; other
        writers may break it, so each mutating method promises only to
        preserve it. */
    ghost predicate Valid()
      reads repository`store, repository`nextId
    {
      repository.Valid()
    }

    /** Validates the request; when it passes and no message of the
        organization has the trimmed title, stores a new active message with
        the trimmed title and content. */
    method CreateMessageAsync(organizationId: Guid, request: CreateMessageRequest, now: DateTime) returns (r: Result)
      requires Valid()
      modifies repository
      ensures Valid()
      ensures StoreInvariant(old(repository.store)) ==> StoreInvariant(repository.store)
      ensures r.IsError() ==> repository.store == old(repository.store)
      ensures InactivePreserved(old(repository.store), repository.store)
      ensures var errors := ValidationErrors(request.title, request.content);
        errors != map[] ==> r == ValidationError(errors) && repository.log == old(repository.log)
      ensures var errors, title := ValidationErrors(request.title, request.content), Trim(request.title);
        errors == map[] && TitleTaken(old(repository.store), organizationId, title) ==>
          && r == Conflict(DuplicateTitle(request.title))
          && repository.log == old(repository.log) + [GetByTitle(organizationId, title)]
      ensures var errors, title := ValidationErrors(request.title, request.content), Trim(request.title);
        errors == map[] && !TitleTaken(old(repository.store), organizationId, title) ==>
          var message := Message(EmptyGuid, organizationId, title, Trim(request.content), true, now, None);
          && r.Created?
          && r.value == message.(id := r.value.id)
          && (organizationId, r.value.id) !in old(repository.store)
          && repository.store == old(repository.store)[(organizationId, r.value.id) := r.value]
          && repository.log == old(repository.log) + [GetByTitle(organizationId, title), Create(message)]
    {
      var errors := ValidateCreateRequest(request);
      if errors != map[] {
        return ValidationError(errors);
      }

      var existing := repository.GetByTitleAsync(organizationId, Trim(request.title));
      if existing.Some? {
        return Conflict(DuplicateTitle(request.title));
      }

      var message := Message(EmptyGuid, organizationId, Trim(request.title), Trim(request.content), true, now, None);
      var created := repository.CreateAsync(message);
      r := Created(created);

      AcceptedIsWellFormed(created, request.title, request.content);
      if StoreInvariant(old(repository.store)) {
        CreatePreservesUniqueness(old(repository.store), repository.store, created);
      }
    }

    /** Updates an active message: after validation, and after a title lookup
        when the title changes other than by case, overwrites title and
        content (trimmed) and the active flag, and stamps `updatedAt`. */
    method UpdateMessageAsync(organizationId: Guid, id: Guid, request: UpdateMessageRequest, now: DateTime) returns (r: Result)
      requires Valid()
      modifies repository
      ensures Valid()
      ensures StoreInvariant(old(repository.store)) ==> StoreInvariant(repository.store)
      ensures r.IsError() ==> repository.store == old(repository.store)
      ensures InactivePreserved(old(repository.store), repository.store)
      ensures (organizationId, id) !in old(repository.store) ==>
        && r == NotFound(MessageNotFound)
        && repository.log == old(repository.log) + [GetById(organizationId, id)]
      ensures var key := (organizationId, id);
        key in old(repository.store) && !old(repository.store)[key].isActive ==>
          && r == ValidationError(map["IsActive" := [CannotUpdateInactive]])
          && repository.log == old(repository.log) + [GetById(organizationId, id)]
      ensures var key, errors := (organizationId, id), ValidationErrors(request.title, request.content);
        key in old(repository.store) && old(repository.store)[key].isActive && errors != map[] ==>
          && r == ValidationError(errors)
          && repository.log == old(repository.log) + [GetById(organizationId, id)]
      ensures var key, errors := (organizationId, id), ValidationErrors(request.title, request.content);
        key in old(repository.store) && old(repository.store)[key].isActive && errors == map[] ==>
          var current, title := old(repository.store)[key], Trim(request.title);
          var renamed := !EqualsIgnoreCase(current.title, title);
          var lookups := [GetById(organizationId, id)] + (if renamed then [GetByTitle(organizationId, title)] else []);
          if renamed && TitleTaken(old(repository.store), organizationId, title) then
            && r == Conflict(DuplicateTitle(request.title))
            && repository.log == old(repository.log) + lookups
          else
            var revised := Message(id, organizationId, title, Trim(request.content), request.isActive, current.createdAt, Some(now));
            && repository.log == old(repository.log) + lookups + [Update(revised)]
            && ((r == Updated && repository.store == old(repository.store)[key := revised])
                || r == NotFound(NotFoundDuringUpdate))
    {
      var found := repository.GetByIdAsync(organizationId, id);
      if found.None? {
        return NotFound(MessageNotFound);
      }
      var message := found.value;

      if !message.isActive {
        return ValidationError(map["IsActive" := [CannotUpdateInactive]]);
      }

      var errors := ValidateUpdateRequest(request);
      if errors != map[] {
        return ValidationError(errors);
      }

      ghost var renamed := !EqualsIgnoreCase(message.title, Trim(request.title));
      ghost var lookups := [GetById(organizationId, id)]
                           + (if renamed then [GetByTitle(organizationId, Trim(request.title))] else []);
      if !EqualsIgnoreCase(message.title, Trim(request.title)) {
        var byTitle := repository.GetByTitleAsync(organizationId, Trim(request.title));
        assert repository.log == old(repository.log) + lookups;
        if byTitle.Some? && byTitle.value.id != id {
          return Conflict(DuplicateTitle(request.title));
        }
      }
      assert repository.log == old(repository.log) + lookups;

      message := message.(title := Trim(request.title));
      message := message.(content := Trim(request.content));
      message := message.(isActive := request.isActive);
      message := message.(updatedAt := Some(now));
      assert message == Message(id, organizationId, Trim(request.title), Trim(request.content), request.isActive,
                                found.value.createdAt, Some(now));

      AcceptedIsWellFormed(message, request.title, request.content);
      if StoreInvariant(old(repository.store)) {
        NoOtherHolder(old(repository.store), (organizationId, id), message.title);
      }

      var updated := repository.UpdateAsync(message);
      if updated.None? {
        return NotFound(NotFoundDuringUpdate);
      }
      if StoreInvariant(old(repository.store)) {
        UpdatePreservesUniqueness(old(repository.store), repository.store, message);
      }
      ReplacingActiveKeepsInactive(old(repository.store), (organizationId, id), message);
      r := Updated;
    }

    /** Deletes an active message. */
    method DeleteMessageAsync(organizationId: Guid, id: Guid) returns (r: Result)
      requires Valid()
      modifies repository
      ensures Valid()
      ensures StoreInvariant(old(repository.store)) ==> StoreInvariant(repository.store)
      ensures r.IsError() ==> repository.store == old(repository.store)
      ensures InactivePreserved(old(repository.store), repository.store)
      ensures (organizationId, id) !in old(repository.store) ==>
        && r == NotFound(MessageNotFound)
        && repository.log == old(repository.log) + [GetById(organizationId, id)]
      ensures var key := (organizationId, id);
        key in old(repository.store) && !old(repository.store)[key].isActive ==>
          && r == ValidationError(map["IsActive" := [CannotDeleteInactive]])
          && repository.log == old(repository.log) + [GetById(organizationId, id)]
      ensures var key := (organizationId, id);
        key in old(repository.store) && old(repository.store)[key].isActive ==>
          && repository.log == old(repository.log) + [GetById(organizationId, id), Delete(organizationId, id)]
          && ((r == Deleted && repository.store == old(repository.store) - {key})
              || r == NotFound(NotFoundOrNotDeleted))
    {
      var found := repository.GetByIdAsync(organizationId, id);
      if found.None? {
        return NotFound(MessageNotFound);
      }

      if !found.value.isActive {
        return ValidationError(map["IsActive" := [CannotDeleteInactive]]);
      }

      var deleted := repository.DeleteAsync(organizationId, id);
      if !deleted {
        return NotFound(NotFoundOrNotDeleted);
      }
      if StoreInvariant(old(repository.store)) {
        DeletePreservesInvariant(old(repository.store), (organizationId, id));
      }
      r := Deleted;
    }

    /** Reads one message; no checks. */
    method GetMessageAsync(organizationId: Guid, id: Guid) returns (m: Option<Message>)
      modifies repository`log
      ensures m == Lookup(repository.store, organizationId, id)
      ensures repository.log == old(repository.log) + [GetById(organizationId, id)]
    {
      m := repository.GetByIdAsync(organizationId, id);
    }

    /** Reads the messages of one organization; no checks. */
    method GetAllMessagesAsync(organizationId: Guid) returns (ms: set<Message>)
      modifies repository`log
      ensures ms == MessagesOf(repository.store, organizationId)
      ensures repository.log == old(repository.log) + [GetAllByOrganization(organizationId)]
    {
      ms := repository.GetAllByOrganizationAsync(organizationId);
    }
  }

  /** Adding a well-formed message whose title no message of its
      organization has (ignoring case) keeps the store invariant. */
  lemma CreatePreservesUniqueness(before: map<Key, Message>, after: map<Key, Message>, m: Message)
    requires StoreInvariant(before) && WellFormed(m)
    requires KeyOf(m) !in before && after == before[KeyOf(m) := m]
    requires !TitleTaken(before, m.organizationId, m.title)
    ensures StoreInvariant(after)
  {
    forall k | k in before && before[k].organizationId == m.organizationId
      ensures !EqualsIgnoreCase(m.title, before[k].title)
    {
      EqualsIgnoreCaseIsEquivalence(m.title, before[k].title, m.title);
    }
    forall k1, k2 | SameTitle(after, k1, k2)
      ensures k1 == k2
    {
      if k1 != KeyOf(m) && k2 != KeyOf(m) {
        assert SameTitle(before, k1, k2);
      }
    }
  }

  /** Replacing a stored message by a well-formed one with the same key keeps
      the store invariant, provided no other message of the organization has
      the new title (ignoring case). */
  lemma UpdatePreservesUniqueness(before: map<Key, Message>, after: map<Key, Message>, m: Message)
    requires StoreInvariant(before) && WellFormed(m)
    requires KeyOf(m) in before && after == before[KeyOf(m) := m]
    requires forall k | k in before && k != KeyOf(m) && before[k].organizationId == m.organizationId
               :: !EqualsIgnoreCase(before[k].title, m.title)
    ensures StoreInvariant(after)
  {
    forall k | k in before && k != KeyOf(m) && before[k].organizationId == m.organizationId
      ensures !EqualsIgnoreCase(m.title, before[k].title)
    {
      EqualsIgnoreCaseIsEquivalence(m.title, before[k].title, m.title);
    }
    forall k1, k2 | SameTitle(after, k1, k2)
      ensures k1 == k2
    {
      if k1 != KeyOf(m) && k2 != KeyOf(m) {
        assert SameTitle(before, k1, k2);
      }
    }
  }

  /** Removing a message keeps the store invariant. */
  lemma DeletePreservesInvariant(before: map<Key, Message>, key: Key)
    requires StoreInvariant(before)
    ensures StoreInvariant(before - {key})
  {
    var after := before - {key};
    forall k | k in after
      ensures WellFormed(after[k])
    {
      assert WellFormed(before[k]);
    }
    forall k1, k2 | SameTitle(after, k1, k2)
      ensures k1 == k2
    {
      assert SameTitle(before, k1, k2);
    }
  }
}
