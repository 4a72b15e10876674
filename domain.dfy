/** The task entity and its status enumeration, as the service and its
    repository exchange them. */
module Domain {

  datatype Option<T> = None | Some(value: T)

  /** A 128-bit uuid.UUID, as its 16 bytes. */
  type Uuid = b: seq<bv8> | |b| == 16 witness [0, 0, 0, 0, 0, 0, 0, 0, 0, 0, 0, 0, 0, 0, 0, 0]

  /** uuid.Nil, the all-zero identifier. */
  const Nil: Uuid := [0, 0, 0, 0, 0, 0, 0, 0, 0, 0, 0, 0, 0, 0, 0, 0]

  /** A random (version 4, RFC 4122 variant) identifier as uuid.New mints
      it: the high nibble of byte 6 is 4 and the top two bits of byte 8
      are 10 (section 4.4 of RFC 4122). */
  predicate IsVersion4(id: Uuid) {
    0x40 <= id[6] <= 0x4F && 0x80 <= id[8] <= 0xBF
  }

  /** uuid.New never mints uuid.Nil. */
  lemma Version4IsNotNil(id: Uuid)
    requires IsVersion4(id)
    ensures id != Nil
  {
  }

  /** The closed status enumeration of a task. */
  datatype Status = New | InProgress | Done

  /** The string form of a status (domain.TaskStatus). */
  function Token(st: Status): string {
    match st
    case New => "new"
    case InProgress => "in_progress"
    case Done => "done"
  }

  /** Recognises a status token: it accepts exactly the tokens of the
      enumeration, and gives back the status the token names. */
  function ParseStatus(s: string): (r: Option<Status>)
    ensures r.Some? ==> Token(r.value) == s
    ensures forall st: Status :: Token(st) == s ==> r == Some(st)
  {
    if s == "new" then Some(New)
    else if s == "in_progress" then Some(InProgress)
    else if s == "done" then Some(Done)
    else None
  }

  predicate IsValidStatus(s: string) {
    ParseStatus(s).Some?
  }

  /** A task as the repository returns it (domain.Task); its description
      is a plain string, and the timestamps the repository sets are not part
      of this model. */
  datatype Task = Task(id: Uuid, title: string, description: string, status: string)

  /** The projection of a task that List returns (domain.TaskListItem). */
  datatype TaskListItem = TaskListItem(id: Uuid, title: string, status: string)

  function ListItem(t: Task): TaskListItem {
    TaskListItem(t.id, t.title, t.status)
  }
}
