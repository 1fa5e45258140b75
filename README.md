# Message service model

A Dafny model of the message service of the backend code challenge
(`MessageLogic`). The service validates create and update requests, keeps
titles unique per organization ignoring case, lets the active flag gate
update and delete, and turns every outcome into a tagged `Result`.

The model has five modules:

- `Text` models the .NET string operations the service relies on.
  - `string.IsNullOrWhiteSpace` and `Trim` scan the string from each end, as .NET does.
  - `IsWhiteSpace` covers every character that `char.IsWhiteSpace` accepts.
  - `EqualsIgnoreCase` stands for ordinal case-insensitive comparison. It folds ASCII letters only.
  - A Dafny string is a sequence of Unicode scalar values, while .NET's `string.Length` counts UTF-16 code units. `Utf16Length` gives the .NET length: a character above U+FFFF counts twice. Every length bound in the service is checked on `Utf16Length`.
  - Lemmas prove what the service needs from these operations. `Trim` is idempotent. Surrounding white space does not change the result of `Trim`. `Trim` respects comparison ignoring case. Comparison ignoring case is an equivalence.
- `Models` holds the entity `Message`, the two request bodies, the validation-error map and the `Result` variants.
- `Repositories` holds `MessageRepository`. It is a class whose field is a map keyed by (organization id, message id), with one method per repository call the service makes. Every call is also appended to a ghost log. That log lets the service's contracts state which repository calls it makes, in what order, and when it makes none.
- `Logic` is the service itself.
  - The validation rules are functions: `FieldError`, `FieldErrors` and `ValidationErrors`.
  - The error dictionary is a class that `AddError` updates in place. `ValidateCreateRequest` and `ValidateUpdateRequest` fill it.
  - `MessageLogic` is a class over the repository. Its methods are `CreateMessageAsync`, `UpdateMessageAsync`, `DeleteMessageAsync`, `GetMessageAsync` and `GetAllMessagesAsync`.
  - Its invariant `Valid` says that every message sits under its own key. Every mutating method preserves it.
  - The store invariant `StoreInvariant` says two more things: every stored title and content is trimmed and within its length range, and within an organization no two titles are equal ignoring case. Every mutating method keeps it whenever it held before the call.
  - Every mutating method also keeps `InactivePreserved`: an inactive message is never changed or removed.
  - An update can make three repository calls (`GetById`, `GetByTitle`, `Update`), and `UpdateMessageAsync`'s contract lists all three in the log.
- `Scenarios` holds scenarios over an in-memory repository, one for each case the unit tests exercise, and the length rules on concrete values.

## Model

| member | source | states |
|---|---|---|
| Text.Trim | backend-code-challenge-main/CodeChallenge.Api/Logic/MessageLogic.cs:108 | The result is the input minus a white-space prefix and a white-space suffix, and it neither starts nor ends with white space. It is empty exactly when the input is null, empty or white space only. |
| Text.TrimIdempotent | backend-code-challenge-main/CodeChallenge.Api/Logic/MessageLogic.cs:29-30 | Trimming a trimmed value changes nothing, so what the service stores is trimmed. |
| Text.TrimFixedPoint | backend-code-challenge-main/CodeChallenge.Api/Logic/MessageLogic.cs:64-65 | A string is unchanged by `Trim` exactly when it is empty or neither starts nor ends with white space. |
| Text.TrimIgnoresPadding | backend-code-challenge-main/CodeChallenge.Api/Logic/MessageLogic.cs:22 | Adding white space around a title does not change the trimmed title used for the lookup. |
| Text.TrimRespectsIgnoreCase | backend-code-challenge-main/CodeChallenge.Api/Logic/MessageLogic.cs:57 | Two strings equal ignoring case still are once both are trimmed. |
| Text.EqualsIgnoreCaseIsEquivalence | backend-code-challenge-main/CodeChallenge.Api/Logic/MessageLogic.cs:57 | Ordinal comparison ignoring case is reflexive, symmetric and transitive. |
| Text.Utf16Length | backend-code-challenge-main/CodeChallenge.Api/Logic/MessageLogic.cs:108 | The .NET length of a string is at least its number of characters and at most twice that. |
| Text.Utf16LengthOfBmp | backend-code-challenge-main/CodeChallenge.Api/Logic/MessageLogic.cs:108 | The .NET length equals the number of characters exactly when no character lies above U+FFFF. |
| Repositories.MessageRepository.GetByIdAsync | backend-code-challenge-main/CodeChallenge.Api/Logic/MessageLogic.cs:41 | Returns the message stored under (organization, id), or nothing. The store is unchanged. |
| Repositories.MessageRepository.GetByTitleAsync | backend-code-challenge-main/CodeChallenge.Api/Logic/MessageLogic.cs:22 | Returns a stored message of the organization whose title equals the argument ignoring case. It returns nothing exactly when no such message exists. |
| Repositories.MessageRepository.GetAllByOrganizationAsync | backend-code-challenge-main/CodeChallenge.Api/Logic/MessageLogic.cs:99 | Returns exactly the messages of the organization. |
| Repositories.MessageRepository.CreateAsync | backend-code-challenge-main/CodeChallenge.Api/Logic/MessageLogic.cs:35 | Stores the message under an id that no stored message has, in any organization. It returns what was stored and adds exactly that one entry. |
| Repositories.MessageRepository.UpdateAsync | backend-code-challenge-main/CodeChallenge.Api/Logic/MessageLogic.cs:69 | When it reports success, the entry under the message's key existed and is replaced. Otherwise the store is unchanged. |
| Repositories.MessageRepository.DeleteAsync | backend-code-challenge-main/CodeChallenge.Api/Logic/MessageLogic.cs:88 | When it reports `true`, exactly that entry existed and is removed. Otherwise the store is unchanged. |
| Logic.ValidationErrorsMeaning | backend-code-challenge-main/CodeChallenge.Api/Logic/MessageLogic.cs:102-117 | Only "Title" and "Content" occur as keys. Each key is present exactly when its trimmed length, in UTF-16 code units, is outside the closed range ([3,200] for the title, [10,1000] for the content). A present key holds exactly one message: "required" when the value trims to nothing, otherwise the range message. Each field is judged on its own value, and the map is empty exactly when both fields are within bounds. |
| Logic.AddError | backend-code-challenge-main/CodeChallenge.Api/Logic/MessageLogic.cs:136-144 | Appends the message to the key's list, starting a new list when the key is new. Every other entry is unchanged. |
| Logic.CheckField | backend-code-challenge-main/CodeChallenge.Api/Logic/MessageLogic.cs:106-109 | The if / else-if check of one field adds exactly that field's entry of the validation specification. |
| Logic.ValidateCreateRequest | backend-code-challenge-main/CodeChallenge.Api/Logic/MessageLogic.cs:102-117 | The dictionary built step by step equals the validation specification of the request. |
| Logic.ValidateUpdateRequest | backend-code-challenge-main/CodeChallenge.Api/Logic/MessageLogic.cs:119-134 | The same, for an update request. |
| Logic.TitleHolderUnique | backend-code-challenge-main/CodeChallenge.Api/Logic/MessageLogic.cs:21-22 | Under the store invariant, at most one message of an organization has a given title ignoring case. |
| Logic.NoOtherHolder | backend-code-challenge-main/CodeChallenge.Api/Logic/MessageLogic.cs:56-62 | No other message of the organization holds the new title when either of two things holds. The new title equals the message's own title ignoring case, so no lookup is made. Or the lookup finds nothing. So an update never creates a duplicate. |
| Logic.AcceptedIsWellFormed | backend-code-challenge-main/CodeChallenge.Api/Logic/MessageLogic.cs:26-31 | A message built from a request that passed validation, with trimmed fields, is trimmed and within bounds. |
| Logic.PaddedTitleIsTaken | backend-code-challenge-main/CodeChallenge.Api/Logic/MessageLogic.cs:21-24 | A title that differs from a stored one only by case and surrounding white space is found by the lookup, so it conflicts. |
| Logic.CreatePreservesUniqueness | backend-code-challenge-main/CodeChallenge.Api/Logic/MessageLogic.cs:26-35 | Adding a well-formed message whose title is free in its organization keeps the store invariant. |
| Logic.UpdatePreservesUniqueness | backend-code-challenge-main/CodeChallenge.Api/Logic/MessageLogic.cs:64-69 | Overwriting a message with a well-formed one whose title no other message of the organization holds keeps the store invariant. |
| Logic.DeletePreservesInvariant | backend-code-challenge-main/CodeChallenge.Api/Logic/MessageLogic.cs:88 | Removing an entry keeps the store invariant. |
| Logic.ReplacingActiveKeepsInactive | backend-code-challenge-main/CodeChallenge.Api/Logic/MessageLogic.cs:45-50 | Overwriting an active message leaves every inactive message as it was. |
| Logic.MessageLogic.CreateMessageAsync | backend-code-challenge-main/CodeChallenge.Api/Logic/MessageLogic.cs:15-37 | Invalid request: `ValidationError` with exactly the specified errors, and no repository call. Trimmed title already taken in the organization: `Conflict` quoting the untrimmed title, after exactly one title lookup. Otherwise exactly one new entry under a fresh id, with the organization, the trimmed title and content, active, `createdAt = now` and no `updatedAt`, returned as `Created`. Every error leaves the store unchanged. `Valid` is preserved, and so is the store invariant whenever it held. |
| Logic.MessageLogic.UpdateMessageAsync | backend-code-challenge-main/CodeChallenge.Api/Logic/MessageLogic.cs:39-74 | Missing key: `NotFound("Message not found.")`. Inactive: the `IsActive` error before any field validation. Invalid fields: the validation errors. The title is looked up only when the trimmed new title differs from the stored one ignoring case, and it is a `Conflict` only when another message holds it. Otherwise one `Update` call with id, organization and `createdAt` kept, trimmed title and content, the supplied flag and `updatedAt = now`. The result is `Updated` with exactly that entry replaced, or `NotFound("Message not found during update.")`. Every error leaves the store unchanged. Inactive messages are untouched. `Valid` is preserved, and so is the store invariant whenever it held. |
| Logic.MessageLogic.DeleteMessageAsync | backend-code-challenge-main/CodeChallenge.Api/Logic/MessageLogic.cs:76-93 | Missing key: `NotFound("Message not found.")`. Inactive: the `IsActive` error, with the store unchanged. Otherwise one `Delete` call, then either `Deleted` with exactly that entry removed, or `NotFound("Message not found or could not be deleted.")`. Inactive messages are never removed. `Valid` is preserved, and so is the store invariant whenever it held. |
| Logic.MessageLogic.GetMessageAsync | backend-code-challenge-main/CodeChallenge.Api/Logic/MessageLogic.cs:95-96 | Returns the stored message for (organization, id), or nothing, after one `GetById` call. |
| Logic.MessageLogic.GetAllMessagesAsync | backend-code-challenge-main/CodeChallenge.Api/Logic/MessageLogic.cs:98-99 | Returns exactly the organization's messages, after one call. |
| Scenarios.CreateValidMessage | backend-code-challenge-main/CodeChallenge.Tests/MessageLogicTests.cs:24-48 | A valid create returns `Created` with the given organization, title and content, active and never updated. |
| Scenarios.CreateDuplicateTitle | backend-code-challenge-main/CodeChallenge.Tests/MessageLogicTests.cs:51-70 | A second create whose title differs only by case and padding gets the `Conflict` text quoting the padded title. |
| Scenarios.CreateShortContent | backend-code-challenge-main/CodeChallenge.Tests/MessageLogicTests.cs:73-89 | Content "short" gives a `ValidationError` holding only the "Content" range message, with no repository call. |
| Scenarios.MissingMessage | backend-code-challenge-main/CodeChallenge.Tests/MessageLogicTests.cs:92-110 | Updating or deleting an absent message gives `NotFound("Message not found.")`. |
| Scenarios.InactiveMessageIsFrozen | backend-code-challenge-main/CodeChallenge.Tests/MessageLogicTests.cs:113-142 | With an inactive message in the store, an update gets the `IsActive` error even when its fields are invalid, and a delete gets the `IsActive` error too. |
| Scenarios.RecaseTitle | backend-code-challenge-main/CodeChallenge.Api/Logic/MessageLogic.cs:56-67 | Renaming a message to its own title in another case is never a conflict: the result is `Updated` or the during-update `NotFound`. When it is `Updated`, the stored message has the new spelling, the original `createdAt` and `updatedAt` set. |
| Scenarios.AstralTitleAccepted | backend-code-challenge-main/CodeChallenge.Api/Logic/MessageLogic.cs:108 | Two characters above U+FFFF form a valid title, because .NET counts four code units. |
| Scenarios.ShortContentRejected | backend-code-challenge-main/CodeChallenge.Api/Logic/MessageLogic.cs:102-117 | Title "Notice" with content "short" gives exactly the "Content" range error. |

## Left out

- The HTTP controller (`MessagesController.cs`) is not part of this model. It is routing and response mapping, and it calls the repository directly.
- `async`/`Task` are modelled as sequential calls. The check-then-act race between the title lookup and the write is not modelled either. The service does not guard against concurrent writers.
- `Guid.NewGuid()` becomes a counter in the repository, and `Guid.Empty` becomes 0. `DateTime.UtcNow` becomes a parameter `now`.
- The repository implementation is not part of this model. The class here is an in-memory map that carries the contract the service relies on.
- Repositories.MessageRepository.GetByTitleAsync: its title match is assumed to be exactly the service's own comparison ignoring case (`Text.EqualsIgnoreCase`, as in `MessageLogic.cs` line 57). So the model never shows a lookup that returns the message being renamed, or that returns it in place of another holder of the title. The update's `byTitle.Id != id` guard is therefore always true in the model, and `UpdateMessageAsync`'s `Conflict` clause carries no id condition.
- Repositories.MessageRepository.UpdateAsync: does not promise that an update of a present key succeeds. A write can fail after a concurrent delete, and the service's "Message not found during update." branch must stay reachable.
- Repositories.MessageRepository.DeleteAsync: does not promise that a delete of a present key succeeds, for the same reason and for the "could not be deleted" branch.
- Text.EqualsIgnoreCase: folds ASCII letters only. .NET's ordinal comparison ignoring case also upper-cases non-ASCII letters through the invariant culture's simple case mapping, and that table is not modelled.
- A null title or content is modelled as the empty string. `string.IsNullOrWhiteSpace` treats both alike, and a null never reaches `Trim` because the check rejects it first.
- A `Message` is a value. In the source, `UpdateMessageAsync` mutates the entity object the repository returned before passing it back. The model builds the updated message field by field from the fetched one, so aliasing with the repository's copy is not modelled.
- The error dictionary's key order and the `List<string>` to array conversion are not modelled. A map has no order, and every list here holds a single message.
- `GetAllMessagesAsync` returns a set. The repository's ordering is not part of the contract.
- Unexpected repository faults, such as storage being unavailable, propagate as exceptions in the source. They are not modelled.
- The store invariant holds only as long as every write goes through `MessageLogic`. The controller's create and update endpoints write through the repository with weaker checks, so after them the store may hold, for example, a 250-character title. The service's methods therefore assume only that keys are consistent, and promise to keep the store invariant when it held before.
