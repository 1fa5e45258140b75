/**
 * Scenarios of the service over an in-memory repository: the cases the unit
 * tests exercise, and the title, length and active-flag rules on concrete
 * values.
 */
module Scenarios {
  import opened Models
  import opened Text
  import opened Repositories
  import opened Logic

  const Organization: Guid := 7
  /** `new string('x', 20)`. */
  const Body: string := seq(20, _ => 'x')

  /** The UTF-16 lengths of the titles and contents used below. */
  lemma BodyLength()
    ensures Utf16Length(Body) == 20 && Trimmed(Body)
  {
    Utf16LengthOfBmp(Body);
  }

  lemma TitleLengths()
    ensures Utf16Length("Notice") == 6 && Utf16Length("NOTICE") == 6 && Utf16Length("notice") == 6
  {
  }

  lemma ShortLength()
    ensures Utf16Length("short") == 5
  {
  }

  /** A non-empty value with no white space at either end is judged by its
      length alone. */
  lemma TrimmedValueJudgedByLength(rule: FieldRule, value: string)
    requires Trimmed(value) && value != []
    ensures FieldError(rule, value)
      == if rule.minLength <= Utf16Length(value) <= rule.maxLength then None else Some(rule.outOfRange)
  {
    TrimFixedPoint(value);
    assert !IsWhiteSpace(value[0]);
  }

  /** A request whose fields are already trimmed and within bounds passes
      validation. */
  lemma PlainRequestAccepted(title: string, content: string)
    requires Trimmed(title) && TitleRule.minLength <= Utf16Length(title) <= TitleRule.maxLength
    requires Trimmed(content) && ContentRule.minLength <= Utf16Length(content) <= ContentRule.maxLength
    ensures ValidationErrors(title, content) == map[]
    ensures Trim(title) == title && Trim(content) == content
  {
    TrimFixedPoint(title);
    TrimFixedPoint(content);
    ValidationErrorsMeaning(title, content);
  }

  /** Two characters above U+FFFF make a valid title: .NET counts four UTF-16
      code units, at least the three the title needs. */
  lemma AstralTitleAccepted()
    ensures Utf16Length("\U{1F600}\U{1F600}") == 4
    ensures WithinBounds(TitleRule, "\U{1F600}\U{1F600}")
  {
    TrimFixedPoint("\U{1F600}\U{1F600}");
  }

  /** The titles the scenarios below use: one spelling, another case, and
      another case with white space around it. */
  lemma TitleSpellings()
    ensures EqualsIgnoreCase("Notice", "NOTICE") && EqualsIgnoreCase("NOTICE", "Notice")
    ensures "  notice\t" == "  " + "notice" + "\t"
    ensures IsNullOrWhiteSpace("  ") && IsNullOrWhiteSpace("\t")
    ensures EqualsIgnoreCase("notice", "Notice")
  {
  }

  lemma NoticeTitleAccepted()
    ensures FieldError(TitleRule, "Notice") == None
  {
    TitleLengths();
    TrimmedValueJudgedByLength(TitleRule, "Notice");
  }

  lemma ShortContentOutOfRange()
    ensures FieldError(ContentRule, "short") == Some(ContentRule.outOfRange)
  {
    ShortLength();
    TrimmedValueJudgedByLength(ContentRule, "short");
  }

  /** "short" is under the content's lower bound; the title is fine. */
  lemma ShortContentRejected()
    ensures ValidationErrors("Notice", "short") == map["Content" := [ContentRule.outOfRange]]
    ensures ValidationErrors("Notice", "short") != map[]
  {
    NoticeTitleAccepted();
    ShortContentOutOfRange();
    assert ValidationErrors("Notice", "short")["Content"] == [ContentRule.outOfRange];
  }

  /** The padded title passes validation and trims to "notice". */
  lemma PaddedNoticeAccepted()
    ensures ValidationErrors("  notice\t", Body) == map[]
  {
    TitleSpellings();
    TitleLengths();
    BodyLength();
    TrimIgnoresPadding("  ", "notice", "\t");
    PlainRequestAccepted("notice", Body);
    ValidationErrorsMeaning("  notice\t", Body);
  }

  /** A valid request is stored with its fields, active and never updated. */
  method CreateValidMessage() returns (r: Result)
    ensures r.Created?
    ensures r.value.organizationId == Organization
    ensures r.value.title == "Notice" && r.value.content == Body
    ensures r.value.isActive && r.value.updatedAt == None
  {
    var repository := new MessageRepository();
    var logic := new MessageLogic(repository);
    TitleLengths();
    BodyLength();
    PlainRequestAccepted("Notice", Body);
    r := logic.CreateMessageAsync(Organization, CreateMessageRequest("Notice", Body), 100);
  }

  /** A second title that differs only by case and surrounding white space is
      a conflict, and the message quotes it as sent. */
  method CreateDuplicateTitle() returns (first: Result, second: Result)
    ensures first.Created?
    ensures second == Conflict(DuplicateTitle("  notice\t"))
  {
    var repository := new MessageRepository();
    var logic := new MessageLogic(repository);
    TitleLengths();
    BodyLength();
    PlainRequestAccepted("Notice", Body);
    first := logic.CreateMessageAsync(Organization, CreateMessageRequest("Notice", Body), 100);

    TitleSpellings();
    PaddedNoticeAccepted();
    PaddedTitleIsTaken(repository.store, (Organization, first.value.id), "  ", "notice", "\t");
    second := logic.CreateMessageAsync(Organization, CreateMessageRequest("  notice\t", Body), 200);
  }

  /** Content shorter than ten characters is reported under "Content" alone,
      and the repository is never called. */
  method CreateShortContent() returns (r: Result, ghost calls: nat)
    ensures r == ValidationError(map["Content" := [ContentRule.outOfRange]])
    ensures calls == 0
  {
    var repository := new MessageRepository();
    var logic := new MessageLogic(repository);
    ShortContentRejected();
    r := logic.CreateMessageAsync(Organization, CreateMessageRequest("Notice", "short"), 100);
    calls := |repository.log|;
  }

  /** Updating or deleting a message that does not exist is `NotFound`. */
  method MissingMessage() returns (updated: Result, deleted: Result)
    ensures updated == NotFound("Message not found.")
    ensures deleted == NotFound("Message not found.")
  {
    var repository := new MessageRepository();
    var logic := new MessageLogic(repository);
    updated := logic.UpdateMessageAsync(Organization, 42, UpdateMessageRequest("Notice", Body, true), 100);
    deleted := logic.DeleteMessageAsync(Organization, 42);
  }

  /** An inactive message refuses update and delete under "IsActive"; the
      active flag is checked before the fields, so even an update whose title
      and content are both invalid gets only that error. */
  method InactiveMessageIsFrozen() returns (update: Result, delete: Result)
    ensures update == ValidationError(map["IsActive" := ["Cannot update an inactive message."]])
    ensures delete == ValidationError(map["IsActive" := ["Cannot delete an inactive message."]])
  {
    var repository := new MessageRepository();
    repository.store := map[(Organization, 1) := Message(1, Organization, "Notice", Body, false, 100, None)];
    repository.nextId := 2;
    var logic := new MessageLogic(repository);
    update := logic.UpdateMessageAsync(Organization, 1, UpdateMessageRequest(" ", "short", true), 300);
    delete := logic.DeleteMessageAsync(Organization, 1);
  }

  /** Changing only the case of a title is accepted: the stored title takes
      the new spelling and the creation time is kept. */
  method RecaseTitle() returns (r: Result, m: Option<Message>)
    ensures r == Updated || r == NotFound(NotFoundDuringUpdate)
    ensures r == Updated ==>
      m.Some? && m.value == Message(m.value.id, Organization, "NOTICE", Body, true, 100, Some(200))
  {
    var repository := new MessageRepository();
    var logic := new MessageLogic(repository);
    TitleLengths();
    BodyLength();
    PlainRequestAccepted("Notice", Body);
    PlainRequestAccepted("NOTICE", Body);
    TitleSpellings();
    var created := logic.CreateMessageAsync(Organization, CreateMessageRequest("Notice", Body), 100);
    var id := created.value.id;
    r := logic.UpdateMessageAsync(Organization, id, UpdateMessageRequest("NOTICE", Body, true), 200);
    m := logic.GetMessageAsync(Organization, id);
  }
}
