# Task service model

A Dafny model of the task service of the Go Task-API
(`github.com/nightmaker00/go-tasks-api`, package `internal/service`). This
is the validation and business-rule layer between the HTTP handlers and
the task repository. The service has five operations: `Create`, `GetByID`,
`Update`, `Delete` and `List`. Each one validates its input, makes at most
one call on its `TaskRepository`, and translates the reply into a result
or one of the sentinel errors `ErrInvalidTitle`, `ErrInvalidStatus`,
`ErrInvalidLimit`, `ErrInvalidOffset` or `ErrTaskNotFound`. A repository
error is propagated unchanged.

The service's implementation file is not part of this model. Its
behaviour is fixed by the unit tests in `internal/service/task_test.go`.
Those tests run the service against a mocked repository that fails on any
unexpected call, so they also fix when the repository is *not* reached.
The model follows those tests.

Files:

- `text.dfy` (module `Text`): Go's `strings.TrimSpace`, over the white
  space that `unicode.IsSpace` recognises.
- `domain.dfy` (module `Domain`): the task, the list item, the status
  enumeration and its tokens (`new`, `in_progress`, `done`; the third is
  assumed, see "Left out"), and the
  16-byte uuid.
- `service.dfy` (module `TaskService`): the errors and the repository
  interface, and the five operations as pure functions. The repository is
  a value holding one function per interface method, each giving the reply
  to that call. Every operation returns an `Outcome`: the repository call
  it made, if any, and its result. "Never reaches the repository" is
  therefore `o.call == None`. Each unit test is restated by a lemma; some
  lemmas cover several tests.
- `memory_store.dfy` (module `MemoryStore`): a reference in-memory
  repository, a sequence of rows in insertion order, each with a nullable
  description. It is used to state what becomes of the calls the service
  makes:
  - the service keeps stored titles trimmed and non-blank, and stored
    statuses in the enumeration;
  - a created task is then found;
  - an update keeps or replaces the description;
  - a deleted task is gone.

  Unique ids are a property of the store, not of the service: the store
  refuses a Create under an id it already holds.

## Model

| member | source | states |
|---|---|---|
| Text.Trim | internal/service/task_test.go:36-40 | The trimmed string is empty exactly when the input is all white space, and it has no white space at either end |
| Text.TrimPadded | internal/service/task_test.go:36-40 | White space added around a string with no white space at its ends is exactly what Trim removes (`"  My task  "` becomes `"My task"`) |
| Text.TrimFixesTrimmed | internal/service/task_test.go:123-127 | A string with no white space at its ends, such as `"Title"`, is left unchanged by Trim |
| Text.TrimmedPart | internal/service/task_test.go:36-40 | Gives the white space cut from each end: the input is that lead, then the trimmed string, then that trail |
| Text.TrimRemovesOnlySpace | internal/service/task_test.go:36-40 | Trim removes only white space, and only from the two ends |
| Domain.ParseStatus | internal/service/task_test.go:88-91 | Accepts exactly the tokens of the status enumeration, and gives the status the token names; `"bad"` is rejected |
| Domain.Version4IsNotNil | internal/service/task_test.go:44-46 | An id minted as a version-4 uuid is never uuid.Nil |
| TaskService.NormalizeDescription | internal/service/task_test.go:36-40 | The description is absent exactly when the input is all white space; otherwise it is the trimmed input, which is non-empty |
| TaskService.Create | internal/service/task_test.go:14-47 | All-white-space title gives ErrInvalidTitle without a repository call, and only that input does. Otherwise one Create call with the minted id, the trimmed title, the normalized description and status "new". The id is returned exactly when the repository reports no error; a repository error is returned unchanged |
| TaskService.GetByID | internal/service/task_test.go:58-63 | Always one GetByID call with the id. (nil, nil) gives ErrTaskNotFound and only it does. A task comes back only when the repository returns one without error. A repository error is returned unchanged |
| TaskService.Update | internal/service/task_test.go:74-130 | Blank title gives ErrInvalidTitle; otherwise a status outside the enumeration gives ErrInvalidStatus; both without a repository call, and only those inputs skip the call. Otherwise one Update call with the id, trimmed title, description exactly as given and status. "Not affected" gives ErrTaskNotFound, "affected" gives success, and a repository error is returned unchanged |
| TaskService.Delete | internal/service/task_test.go:142-147 | Always one Delete call with the id. Succeeds exactly when the repository reports no error, otherwise returns that error |
| TaskService.EffectiveLimit | internal/service/task_test.go:172-176 | The page size sent to the repository is always positive: defaultListLimit for 0, the limit itself otherwise |
| TaskService.List | internal/service/task_test.go:158-193 | A non-empty invalid status gives ErrInvalidStatus, then a negative limit ErrInvalidLimit, then a negative offset ErrInvalidOffset, all without a repository call and each for exactly those inputs. Otherwise one List call with the filter, the effective limit and the offset unchanged; the items are returned exactly as the repository gave them |
| TaskService.PersistableIsTrimFixed | internal/service/task_test.go:36-40 | A title fit to store is exactly one that is not blank and that Trim leaves unchanged |
| TaskService.IssuedCallsAreWellFormed | internal/service/task_test.go:36-38 | Whatever the inputs and the repository, every call Create, Update and List make carries a trimmed non-blank title, a valid status ("new" on Create), a trimmed non-blank description on Create, and a valid filter, positive limit and non-negative offset on List |
| TaskService.CallIndependentOfRepository | internal/service/task_test.go:18-25 | Whether Create, Update and List call the repository, and with what arguments, does not depend on the repository |
| TaskService.CreateBlankTitleRejected | internal/service/task_test.go:18-25 | `Create("   ", "desc")` is ErrInvalidTitle with no repository call |
| TaskService.CreateTrimsTitleAndDropsBlankDescription | internal/service/task_test.go:36-46 | `Create("  My task  ", "   ")` calls Create with "My task", no description and "new", and returns the minted, non-nil id |
| TaskService.GetByIDMissingIsNotFound | internal/service/task_test.go:58-63 | A (nil, nil) reply to GetByID gives ErrTaskNotFound |
| TaskService.UpdateInvalidInputRejected | internal/service/task_test.go:74-91 | Update with title `"   "` is ErrInvalidTitle, and with status `"bad"` is ErrInvalidStatus; neither calls the repository |
| TaskService.UpdateForwardsAndTranslates | internal/service/task_test.go:103-130 | Update forwards id, "Title", an absent or present description and the status unchanged. (false, nil) gives ErrTaskNotFound and (true, nil) gives success |
| TaskService.DeleteForwards | internal/service/task_test.go:142-147 | Delete forwards the id and succeeds when the repository returns nil |
| TaskService.ListScenarios | internal/service/task_test.go:158-193 | `List("bad", 10, 0)` is ErrInvalidStatus and `List("", 10, -1)` is ErrInvalidOffset, neither calling the repository. `List("", 0, 5)` calls List with no filter, defaultListLimit and offset 5 |
| MemoryStore.Find | internal/service/task_test.go:58-63 | The row found has the id, and nothing is found exactly when no stored row has it |
| MemoryStore.Replace | internal/service/task_test.go:123-127 | The row under the id is revised and every other row is kept as it was, in place |
| MemoryStore.Remove | internal/service/task_test.go:142-147 | Keeps exactly the stored rows that do not have the id |
| MemoryStore.RemoveAppend | internal/service/task_test.go:142-147 | Remove works row by row, so the rows it keeps stay in the store's order |
| MemoryStore.Matching | internal/service/task_test.go:172-176 | Holds one list item for each stored row that passes the status filter, and no other item |
| MemoryStore.MatchingAppend | internal/service/task_test.go:172-176 | Matching works row by row, so the items stay in the store's order |
| MemoryStore.Select | internal/service/task_test.go:172-176 | For a positive limit and a non-negative offset, the page is the matching items from the offset on, as many as the limit allows and as remain; otherwise it is empty |
| MemoryStore.ApplyPreservesValid | internal/service/task_test.go:36-38 | A well-formed call keeps the stored rows valid: unique ids (the store refuses a duplicate), trimmed non-blank titles and statuses in the enumeration |
| MemoryStore.ServiceKeepsStoreValid | internal/service/task_test.go:36-38 | Whatever the caller passes, the calls Create, Update and Delete make leave a valid store valid |
| MemoryStore.CreateThenGet | internal/service/task_test.go:36-46 | After Create under a fresh id, the row holds the trimmed title, the normalized description and status "new", and GetByID of that id gives the task with the trimmed description ("" for a blank one) |
| MemoryStore.UpdateThenGet | internal/service/task_test.go:123-130 | After Update of a stored task, GetByID gives the trimmed title and the new status. An absent description keeps the stored one; a present one, even "", replaces it verbatim |
| MemoryStore.UpdateMissingIsNotFound | internal/service/task_test.go:103-110 | Update of an id that is not stored gives ErrTaskNotFound and changes nothing |
| MemoryStore.DeleteThenGet | internal/service/task_test.go:142-147 | After Delete, GetByID of the same id gives ErrTaskNotFound |
| MemoryStore.ListHonoursFilterAndLimit | internal/service/task_test.go:172-179 | A successful List returns the matching items from the offset on, at most the effective limit of them, and at least one when any remain |

## Left out

- The service's implementation file is not part of this model. Where the
  tests are silent, the model assumes:
  - trimming is `strings.TrimSpace`;
  - Update checks the title before the status;
  - List checks the status, then the limit, then the offset;
  - a negative limit gives ErrInvalidLimit;
  - `defaultListLimit` is 20;
  - the status tokens are `new` and `done`, which the tests show, and `in_progress`
    as the third;
  - a positive limit is passed through with no upper clamp;
  - a non-blank description on Create is stored trimmed.
- The HTTP handlers (`internal/api/handlers_test.go`) and the CORS
  middleware (`internal/api/cors_test.go`) are adapter code over
  `net/http` and are outside the service.
- `context.Context` cancellation and deadlines are not modelled. gomock's
  expectation machinery is not modelled either: the repository is a value
  giving the reply to each call, and every operation reports the call it
  made.
- Uuid generation is random, so the minted id is a parameter of Create.
  Only its version-4 layout is used, to show that it is not uuid.Nil.
- The SQL repository and the `CreatedAt`/`UpdatedAt` timestamps it sets are
  not modelled. That the repository reads an absent (NULL) description
  back as `""` in `domain.Task`, whose description is a plain string, is
  an assumption of MemoryStore.AsTask. MemoryStore is a reference repository. It does not model
  SQL ordering, and it does not model what storage failures the SQL
  repository can raise.
- MemoryStore.Select: lists in the store's insertion order. The real
  repository owns its ordering.
