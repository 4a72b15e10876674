/** The task service: the validation and business-rule layer between the HTTP
    handlers and the task repository. Every operation validates its input,
    then makes at most one repository call, then translates the repository's
    reply. The repository is given as a value of five functions (what it
    would answer to each call), and every operation reports the call it made,
    so that "the repository is not reached" is a statement about the result. */
module TaskService {
  import opened Text
  import opened Domain

  /** defaultListLimit: the page size List uses when the caller asks for 0. */
  const DefaultListLimit: int := 20

  /** An error the repository raised, carried through unchanged. */
  datatype StorageError = StorageError(message: string)

  /** The service's sentinel errors (ErrInvalidTitle, ErrInvalidStatus,
      ErrInvalidLimit, ErrInvalidOffset, ErrTaskNotFound) and a propagated
      repository error. */
  datatype Error =
    | InvalidTitle
    | InvalidStatus
    | InvalidLimit
    | InvalidOffset
    | TaskNotFound
    | Storage(cause: StorageError)
  {
    /** Errors about the caller's input, decided before any repository call. */
    predicate IsValidation() {
      InvalidTitle? || InvalidStatus? || InvalidLimit? || InvalidOffset?
    }
  }

  datatype Result<T> = Ok(value: T) | Err(error: Error)

  /** A call the service makes on its TaskRepository, with its arguments. */
  datatype RepoCall =
    | CreateCall(id: Uuid, title: string, description: Option<string>, status: string)
    | GetCall(id: Uuid)
    | UpdateCall(id: Uuid, title: string, description: Option<string>, status: string)
    | DeleteCall(id: Uuid)
    | ListCall(filter: string, limit: int, offset: int)

  /** The TaskRepository interface: for each method, the reply it gives.
      GetByID answers (task or absent, error or absent); Update answers
      (row affected, error or absent). */
  datatype Repository = Repository(
    create: (Uuid, string, Option<string>, string) -> Option<StorageError>,
    getById: Uuid -> (Option<Task>, Option<StorageError>),
    update: (Uuid, string, Option<string>, string) -> (bool, Option<StorageError>),
    delete: Uuid -> Option<StorageError>,
    list: (string, int, int) -> (seq<TaskListItem>, Option<StorageError>))

  /** What an operation did: the repository call it made, if any, and what
      it returned to its caller. */
  datatype Outcome<T> = Outcome(call: Option<RepoCall>, result: Result<T>)

  /** An outcome is classified when the repository was left alone exactly
      for the input-validation errors (so a propagated repository error or
      TaskNotFound always follows a repository call). */
  predicate Classified<T>(o: Outcome<T>) {
    o.call.None? <==> o.result.Err? && o.result.error.IsValidation()
  }

  /** The description Create stores: a blank one becomes absent, any other
      is stored trimmed. */
  function NormalizeDescription(d: string): (r: Option<string>)
    ensures r.None? <==> AllSpace(d)
    ensures r.Some? ==> r.value == Trim(d) && r.value != []
  {
    var t := Trim(d);
    if t == [] then None else Some(t)
  }

  /** Create: a title that is all white space is rejected with InvalidTitle
      before the repository is reached; otherwise the task is stored once,
      under the freshly minted id, with the trimmed title, the normalized
      description and status "new", and the id is returned unless the
      repository failed, whose error is then returned as it is. */
  function Create(repo: Repository, title: string, description: string, newId: Uuid): (o: Outcome<Uuid>)
    ensures Classified(o)
    ensures o.call.None? <==> AllSpace(title)
    ensures AllSpace(title) <==> o.result == Err(InvalidTitle)
    ensures o.call.Some? ==> o.call.value == CreateCall(newId, Trim(title), NormalizeDescription(description), Token(New))
    ensures o.call.Some? ==>
      var reply := repo.create(newId, Trim(title), NormalizeDescription(description), Token(New));
      && (o.result.Ok? <==> reply.None?)
      && (reply.Some? ==> o.result == Err(Storage(reply.value)))
    ensures o.result.Ok? ==> o.result.value == newId
  {
    var t := Trim(title);
    if t == [] then
      Outcome(None, Err(InvalidTitle))
    else
      var d := NormalizeDescription(description);
      var call := CreateCall(newId, t, d, Token(New));
      match repo.create(newId, t, d, Token(New))
      case Some(e) => Outcome(Some(call), Err(Storage(e)))
      case None => Outcome(Some(call), Ok(newId))
  }

  /** GetByID: always asks the repository; "no task and no error" becomes
      TaskNotFound, a repository error is returned as it is, and a task is
      returned only when the repository found one without error. */
  function GetByID(repo: Repository, id: Uuid): (o: Outcome<Task>)
    ensures Classified(o)
    ensures o.call == Some(GetCall(id))
    ensures o.result == Err(TaskNotFound) <==> repo.getById(id) == (None, None)
    ensures o.result.Ok? <==> repo.getById(id).0.Some? && repo.getById(id).1.None?
    ensures o.result.Ok? ==> repo.getById(id).0 == Some(o.result.value)
    ensures repo.getById(id).1.Some? ==> o.result == Err(Storage(repo.getById(id).1.value))
  {
    var call := GetCall(id);
    match repo.getById(id)
    case (_, Some(e)) => Outcome(Some(call), Err(Storage(e)))
    case (None, None) => Outcome(Some(call), Err(TaskNotFound))
    case (Some(t), None) => Outcome(Some(call), Ok(t))
  }

  /** Update: a blank title is rejected with InvalidTitle and then a status
      outside the enumeration with InvalidStatus, neither reaching the
      repository; otherwise the repository is asked once to update the task
      with the trimmed title, the description exactly as given (absent or
      present) and the status; "no row affected" becomes TaskNotFound and a
      repository error is returned as it is. */
  function Update(repo: Repository, id: Uuid, title: string, description: Option<string>, status: string): (o: Outcome<()>)
    ensures Classified(o)
    ensures o.call.None? <==> AllSpace(title) || !IsValidStatus(status)
    ensures AllSpace(title) <==> o.result == Err(InvalidTitle)
    ensures !AllSpace(title) && !IsValidStatus(status) <==> o.result == Err(InvalidStatus)
    ensures o.call.Some? ==> o.call.value == UpdateCall(id, Trim(title), description, status)
    ensures o.call.Some? ==>
      var reply := repo.update(id, Trim(title), description, status);
      && (o.result.Ok? <==> reply.0 && reply.1.None?)
      && (o.result == Err(TaskNotFound) <==> !reply.0 && reply.1.None?)
      && (reply.1.Some? ==> o.result == Err(Storage(reply.1.value)))
  {
    var t := Trim(title);
    if t == [] then
      Outcome(None, Err(InvalidTitle))
    else if !IsValidStatus(status) then
      Outcome(None, Err(InvalidStatus))
    else
      var call := UpdateCall(id, t, description, status);
      match repo.update(id, t, description, status)
      case (_, Some(e)) => Outcome(Some(call), Err(Storage(e)))
      case (false, None) => Outcome(Some(call), Err(TaskNotFound))
      case (true, None) => Outcome(Some(call), Ok(()))
  }

  /** Delete: pure delegation; succeeds exactly when the repository reports
      no error, and otherwise returns that error. */
  function Delete(repo: Repository, id: Uuid): (o: Outcome<()>)
    ensures Classified(o)
    ensures o.call == Some(DeleteCall(id))
    ensures o.result.Ok? <==> repo.delete(id).None?
    ensures repo.delete(id).Some? ==> o.result == Err(Storage(repo.delete(id).value))
  {
    match repo.delete(id)
    case Some(e) => Outcome(Some(DeleteCall(id)), Err(Storage(e)))
    case None => Outcome(Some(DeleteCall(id)), Ok(()))
  }

  /** The page size List asks the repository for: 0 means the default, any
      positive limit is kept; the result is always positive. */
  function EffectiveLimit(limit: int): (r: int)
    requires limit >= 0
    ensures r > 0
    ensures limit > 0 ==> r == limit
    ensures limit == 0 ==> r == DefaultListLimit
  {
    if limit == 0 then DefaultListLimit else limit
  }

  /** List: a non-empty status that is not in the enumeration is rejected
      with InvalidStatus, then a negative limit with InvalidLimit, then a
      negative offset with InvalidOffset, none of them reaching the
      repository; otherwise the repository is asked once, with the status
      filter ("" for none) and the offset unchanged and the limit made
      effective, and its items are returned exactly as it gave them. */
  function List(repo: Repository, status: string, limit: int, offset: int): (o: Outcome<seq<TaskListItem>>)
    ensures Classified(o)
    ensures o.call.None? <==> (status != "" && !IsValidStatus(status)) || limit < 0 || offset < 0
    ensures status != "" && !IsValidStatus(status) <==> o.result == Err(InvalidStatus)
    ensures (status == "" || IsValidStatus(status)) && limit < 0 <==> o.result == Err(InvalidLimit)
    ensures (status == "" || IsValidStatus(status)) && limit >= 0 && offset < 0 <==> o.result == Err(InvalidOffset)
    ensures o.call.Some? ==> limit >= 0 && o.call.value == ListCall(status, EffectiveLimit(limit), offset)
    ensures o.call.Some? ==>
      var reply := repo.list(status, EffectiveLimit(limit), offset);
      && (o.result.Ok? <==> reply.1.None?)
      && (o.result.Ok? ==> o.result.value == reply.0)
      && (reply.1.Some? ==> o.result == Err(Storage(reply.1.value)))
  {
    if status != "" && !IsValidStatus(status) then
      Outcome(None, Err(InvalidStatus))
    else if limit < 0 then
      Outcome(None, Err(InvalidLimit))
    else if offset < 0 then
      Outcome(None, Err(InvalidOffset))
    else
      var l := EffectiveLimit(limit);
      var call := ListCall(status, l, offset);
      match repo.list(status, l, offset)
      case (_, Some(e)) => Outcome(Some(call), Err(Storage(e)))
      case (items, None) => Outcome(Some(call), Ok(items))
  }

  /** A title as the repository may store it: non-empty, and with no white
      space at either end (so not blank, and left as it is by trimming). */
  predicate PersistableTitle(t: string) {
    t != [] && IsTrimmed(t)
  }

  /** A persistable title is exactly a string that is not all white space
      and that trimming leaves unchanged. */
  lemma PersistableIsTrimFixed(t: string)
    ensures PersistableTitle(t) <==> !AllSpace(t) && Trim(t) == t
  {
  }

  /** What the service guarantees of every call it makes on the repository:
      stored titles are trimmed and non-blank, stored statuses belong to the
      enumeration (a new task is "new"), a description Create stores is
      trimmed and non-blank, and List asks for a valid filter, a positive
      limit and a non-negative offset. */
  predicate WellFormedCall(c: RepoCall) {
    match c
    case CreateCall(_, title, description, status) =>
      PersistableTitle(title) && status == Token(New)
      && (description.Some? ==> PersistableTitle(description.value))
    case UpdateCall(_, title, _, status) =>
      PersistableTitle(title) && IsValidStatus(status)
    case ListCall(filter, limit, offset) =>
      (filter == "" || IsValidStatus(filter)) && limit > 0 && offset >= 0
    case GetCall(_) => true
    case DeleteCall(_) => true
  }

  /** Whatever the inputs and whatever the repository, every call Create,
      Update and List make is well formed. */
  lemma IssuedCallsAreWellFormed(
    repo: Repository, title: string, description: string, newId: Uuid,
    id: Uuid, optDescription: Option<string>, status: string, limit: int, offset: int)
    ensures Create(repo, title, description, newId).call.Some? ==>
      WellFormedCall(Create(repo, title, description, newId).call.value)
    ensures Update(repo, id, title, optDescription, status).call.Some? ==>
      WellFormedCall(Update(repo, id, title, optDescription, status).call.value)
    ensures List(repo, status, limit, offset).call.Some? ==>
      WellFormedCall(List(repo, status, limit, offset).call.value)
  {
  }

  /** Validation never consults the repository: whether Create, Update and
      List make a call, and which, depends on their arguments alone. */
  lemma CallIndependentOfRepository(
    r1: Repository, r2: Repository, title: string, description: string, newId: Uuid,
    id: Uuid, optDescription: Option<string>, status: string, limit: int, offset: int)
    ensures Create(r1, title, description, newId).call == Create(r2, title, description, newId).call
    ensures Update(r1, id, title, optDescription, status).call == Update(r2, id, title, optDescription, status).call
    ensures List(r1, status, limit, offset).call == List(r2, status, limit, offset).call
  {
  }

  // The unit tests of the service, each against a repository that answers
  // the one call the test expects as the test's mock does.

  /** Create("   ", "desc") fails with InvalidTitle and calls nothing. */
  lemma CreateBlankTitleRejected(repo: Repository, newId: Uuid)
    ensures Create(repo, "   ", "desc", newId) == Outcome(None, Err(InvalidTitle))
  {
  }

  /** Create("  My task  ", "   ") stores "My task" with no description and
      status "new", and returns the minted (non-nil) id. */
  lemma CreateTrimsTitleAndDropsBlankDescription(repo: Repository, newId: Uuid)
    requires IsVersion4(newId)
    requires repo.create(newId, "My task", None, "new") == None
    ensures Create(repo, "  My task  ", "   ", newId).call == Some(CreateCall(newId, "My task", None, "new"))
    ensures Create(repo, "  My task  ", "   ", newId).result == Ok(newId) && newId != Nil
  {
    PaddedTitleTrimmed();
    BlankDescriptionDropped();
    Version4IsNotNil(newId);
  }

  lemma PaddedTitleTrimmed()
    ensures Trim("  My task  ") == "My task"
  {
    assert "  My task  " == "  " + "My task" + "  ";
    TrimPadded("  ", "My task", "  ");
  }

  lemma BlankDescriptionDropped()
    ensures NormalizeDescription("   ") == None
  {
    assert AllSpace("   ");
  }

  /** GetByID of an id the repository answers with (nil, nil) fails with
      TaskNotFound. */
  lemma GetByIDMissingIsNotFound(repo: Repository, id: Uuid)
    requires repo.getById(id) == (None, None)
    ensures GetByID(repo, id) == Outcome(Some(GetCall(id)), Err(TaskNotFound))
  {
  }

  /** Update with title "   " fails with InvalidTitle, and with status "bad"
      fails with InvalidStatus; neither calls the repository. */
  lemma UpdateInvalidInputRejected(repo: Repository, id: Uuid)
    ensures Update(repo, id, "   ", None, Token(New)) == Outcome(None, Err(InvalidTitle))
    ensures Update(repo, id, "Title", None, "bad") == Outcome(None, Err(InvalidStatus))
  {
  }

  /** Update forwards id, title, description and status unchanged; "not
      affected" is TaskNotFound and "affected" is success. */
  lemma UpdateForwardsAndTranslates(repo: Repository, id: Uuid, desc: string)
    requires repo.update(id, "Title", None, "done") == (false, None)
    requires repo.update(id, "Title", Some(desc), "new") == (true, None)
    ensures Update(repo, id, "Title", None, "done") == Outcome(Some(UpdateCall(id, "Title", None, "done")), Err(TaskNotFound))
    ensures Update(repo, id, "Title", Some(desc), "new") == Outcome(Some(UpdateCall(id, "Title", Some(desc), "new")), Ok(()))
  {
  }

  /** Delete forwards the id and succeeds when the repository does. */
  lemma DeleteForwards(repo: Repository, id: Uuid)
    requires repo.delete(id) == None
    ensures Delete(repo, id) == Outcome(Some(DeleteCall(id)), Ok(()))
  {
  }

  /** List("bad", 10, 0) fails with InvalidStatus and List("", 10, -1) with
      InvalidOffset, neither calling the repository; List("", 0, 5) asks the
      repository for the default limit with no filter and offset 5. */
  lemma ListScenarios(repo: Repository)
    requires repo.list("", DefaultListLimit, 5) == ([], None)
    ensures List(repo, "bad", 10, 0) == Outcome(None, Err(InvalidStatus))
    ensures List(repo, "", 10, -1) == Outcome(None, Err(InvalidOffset))
    ensures List(repo, "", 0, 5) == Outcome(Some(ListCall("", DefaultListLimit, 5)), Ok([]))
  {
  }
}
