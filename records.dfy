/** The documents of the two collections, `users` and `tasks`, with the
    optional fields of legacy task documents made explicit. */
module Records {

  datatype Option<T> = None | Some(value: T) {
    /** The value, or `default` when absent (Python's `dict.get(key, default)`). */
    function GetOr(default: T): T {
      if Some? then value else default
    }
  }

  /** Document identifiers (ObjectIds), modelled as naturals. */
  type UserId = nat
  type TaskId = nat

  /** A UTC timestamp, as an abstract ordinal. */
  type Time = int

  /** A due date (a date at midnight), as an abstract day number. */
  type Date = int

  /** A password hash produced by the credential service; never inspected. */
  type Hash = seq<int>

  datatype User = User(
    id: UserId,
    username: string,
    email: string,
    password: Hash,
    createdAt: Time)

  /** A task document. `category`, `completed` and `order` may be missing on
      legacy documents; `dueDate` is `None` when no date was given. */
  datatype Task = Task(
    id: TaskId,
    userId: UserId,
    title: string,
    priority: string,
    category: Option<string>,
    tags: seq<string>,
    dueDate: Option<Date>,
    feedback: string,
    notes: string,
    needsReview: bool,
    completed: Option<bool>,
    order: Option<int>,
    createdAt: Time,
    updatedAt: Time)

  /** The completion flag as the toggle route reads it: a missing field counts as false. */
  function IsCompleted(t: Task): bool {
    t.completed.GetOr(false)
  }

  /** No two tasks share an identifier. */
  ghost predicate UniqueTaskIds(ts: seq<Task>) {
    forall i, j :: 0 <= i < |ts| && 0 <= j < |ts| && ts[i].id == ts[j].id ==> i == j
  }

  /** No two users share an identifier. */
  ghost predicate UniqueUserIds(us: seq<User>) {
    forall i, j :: 0 <= i < |us| && 0 <= j < |us| && us[i].id == us[j].id ==> i == j
  }

  /** Some user in `us` has identifier `uid`. */
  predicate IsUser(us: seq<User>, uid: UserId) {
    exists i :: 0 <= i < |us| && us[i].id == uid
  }

  /** The caller `user` owns a task with identifier `id`. */
  predicate OwnsTask(ts: seq<Task>, user: UserId, id: TaskId) {
    exists i :: 0 <= i < |ts| && ts[i].id == id && ts[i].userId == user
  }
}
