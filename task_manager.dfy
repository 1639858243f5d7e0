/** The request handlers of the web application over an in-memory store:
    registration and login, the listing and search of a user's tasks, and
    the ownership-scoped task lifecycle (create, view, edit, toggle, delete).
    The signed-in user is passed explicitly; time, the password hash, the
    password check and the date parser are parameters. */
module TaskManager {
  import opened Records
  import opened Tags
  import opened Sorting
  import opened Queries

  datatype Failure = DuplicateUser | InvalidCredentials | InvalidDateFormat | TaskNotFound

  /** What a handler reports: a value, or the error it flashes. */
  datatype Outcome<T> = Done(value: T) | Failed(error: Failure)

  /** The fields of the create and edit forms; `None` is a field not sent.
      The two flags are the presence of the edit form's check boxes. */
  datatype TaskForm = TaskForm(
    title: string,
    priority: Option<string>,
    category: Option<string>,
    tags: Option<string>,
    dueDate: Option<string>,
    feedback: Option<string>,
    notes: Option<string>,
    completedChecked: bool,
    needsReviewChecked: bool)

  datatype DueDateInput = NoDueDate | DueOn(date: Date) | Unparseable

  /** The due-date field: blank or absent means no date; otherwise the date
      parser (`strptime(s, '%Y-%m-%d')`, a parameter) decides. */
  function ReadDueDate(raw: Option<string>, parseDate: string -> Option<Date>): DueDateInput {
    var s := raw.GetOr("");
    if s == "" then NoDueDate
    else match parseDate(s)
      case Some(d) => DueOn(d)
      case None => Unparseable
  }

  function DueValue(d: DueDateInput): Option<Date> {
    if d.DueOn? then Some(d.date) else None
  }

  /** The user fields that registration keeps unique. */
  datatype UserField = Username | Email

  function UserKey(u: User, f: UserField): string {
    if f == Username then u.username else u.email
  }

  /** Every stored tag is one the tag parser can produce. */
  ghost predicate TagsClean(ts: seq<Task>) {
    forall i :: 0 <= i < |ts| ==> forall g :: g in ts[i].tags ==> IsTag(g)
  }

  /** Every task's owner is a registered user. */
  ghost predicate OwnersExist(us: seq<User>, ts: seq<Task>) {
    forall i :: 0 <= i < |ts| ==> IsUser(us, ts[i].userId)
  }

  /** The task `{'_id': id}` (owner `None`) or `{'_id': id, 'user_id': owner}`. */
  predicate TaskMatches(t: Task, id: TaskId, owner: Option<UserId>) {
    t.id == id && (owner.None? || t.userId == owner.value)
  }

  /** The toggle's `$set`: the completion flag flipped, a missing one read
      as false, and `updated_at` refreshed. */
  function Toggled(t: Task, now: Time): (r: Task)
    ensures IsCompleted(r) == !IsCompleted(t) && r.completed.Some?
    ensures r == t.(completed := r.completed, updatedAt := now)
  {
    t.(completed := Some(!IsCompleted(t)), updatedAt := now)
  }

  /** Toggling twice restores the completion state as the application reads
      it; besides `updated_at`, a missing `completed` field becomes an
      explicit value. */
  lemma ToggleTwice(t: Task, now1: Time, now2: Time)
    ensures IsCompleted(Toggled(Toggled(t, now1), now2)) == IsCompleted(t)
    ensures Toggled(Toggled(t, now1), now2) == t.(completed := Some(IsCompleted(t)), updatedAt := now2)
  {
  }

  /** A task stored without a `completed` field is not pending, but after two
      toggles it holds an explicit false, which the pending filter selects. */
  lemma ToggleTwiceMakesPending(t: Task, now1: Time, now2: Time, args: ListingArgs)
    requires t.completed.None?
    requires args == ListingArgs(Some("pending"), None, None, None, None)
    ensures !ListingSelects(t.userId, args, t)
    ensures ListingSelects(t.userId, args, Toggled(Toggled(t, now1), now2))
  {
    ToggleTwice(t, now1, now2);
  }

  /** The edit's `$set` of `update_data`: the fields it names are overwritten;
      the identifier, the owner, `created_at` and `order` are not among them. */
  function Edited(t: Task, form: TaskForm, due: Option<Date>, now: Time): (r: Task)
    ensures r.id == t.id && r.userId == t.userId && r.createdAt == t.createdAt && r.order == t.order
    ensures forall g :: g in r.tags ==> IsTag(g)
  {
    t.(title := form.title,
       completed := Some(form.completedChecked),
       priority := form.priority.GetOr("medium"),
       category := Some(form.category.GetOr("general")),
       tags := ParseTags(form.tags.GetOr("")),
       dueDate := due,
       feedback := form.feedback.GetOr(""),
       notes := Strip(form.notes.GetOr("")),
       needsReview := form.needsReviewChecked,
       updatedAt := now)
  }

  /** The document `new_task` inserts: the form's values, with "medium",
      "general" and the empty string for fields not sent. The clock is read
      twice, once for `created_at` and once for `updated_at`. */
  function Created(id: TaskId, user: UserId, form: TaskForm, due: Option<Date>, created: Time, updated: Time): Task {
    Task(id, user, form.title, form.priority.GetOr("medium"),
         Some(form.category.GetOr("general")), ParseTags(form.tags.GetOr("")),
         due, form.feedback.GetOr(""), Strip(form.notes.GetOr("")),
         false, Some(false), None, created, updated)
  }

  /** A new task belongs to its creator, has the form's fields with priority
      'medium' and category 'general' by default, starts incomplete and not
      under review, has no `order`, clean tags and trimmed notes, and carries the
      two clock readings as its timestamps. */
  lemma CreatedFacts(id: TaskId, user: UserId, form: TaskForm, due: Option<Date>, created: Time, updated: Time)
    ensures var t := Created(id, user, form, due, created, updated);
      && t.id == id && t.userId == user && t.title == form.title && t.dueDate == due
      && t.priority == form.priority.GetOr("medium") && t.category == Some(form.category.GetOr("general"))
      && t.feedback == form.feedback.GetOr("")
      && t.completed == Some(false) && !IsCompleted(t) && !t.needsReview && t.order.None?
      && (forall g :: g in t.tags ==> IsTag(g)) && Trimmed(t.notes)
      && t.createdAt == created && t.updatedAt == updated
  {
  }

  /** The tasks search returns: the user's, whose title contains the pattern. */
  ghost predicate SearchSelects(user: UserId, pattern: string, t: Task) {
    t.userId == user && ContainsIgnoreCase(t.title, pattern)
  }

  /** The distinct tags over the user's tasks. */
  ghost function UserTags(ts: seq<Task>, user: UserId): set<string> {
    set k, g | 0 <= k < |ts| && ts[k].userId == user && g in ts[k].tags :: g
  }

  lemma UserTagsStep(ts: seq<Task>, user: UserId, i: nat)
    requires i < |ts|
    ensures UserTags(ts[..i + 1], user)
            == UserTags(ts[..i], user) + (if ts[i].userId == user then set g | g in ts[i].tags else {})
  {
    var a, b := ts[..i + 1], ts[..i];
    forall g | g in UserTags(a, user)
      ensures g in UserTags(b, user) || (ts[i].userId == user && g in ts[i].tags)
    {
      var k :| 0 <= k < |a| && a[k].userId == user && g in a[k].tags;
      if k < i { assert b[k] == a[k]; }
    }
    forall g | g in UserTags(b, user) ensures g in UserTags(a, user) {
      var k :| 0 <= k < |b| && b[k].userId == user && g in b[k].tags;
      assert a[k] == b[k];
    }
    if ts[i].userId == user {
      forall g | g in ts[i].tags ensures g in UserTags(a, user) {
        assert a[i] == ts[i];
      }
    }
  }

  /** Removing one task keeps the identifiers of the others distinct. */
  lemma RemoveKeepsUnique(ts: seq<Task>, k: nat)
    requires k < |ts| && UniqueTaskIds(ts)
    ensures UniqueTaskIds(ts[..k] + ts[k + 1..])
  {
    var r := ts[..k] + ts[k + 1..];
    forall i, j | 0 <= i < |r| && 0 <= j < |r| && r[i].id == r[j].id ensures i == j {
      var i' := if i < k then i else i + 1;
      var j' := if j < k then j else j + 1;
      assert r[i] == ts[i'] && r[j] == ts[j'];
    }
  }

  /** Appending a task with an identifier above every stored one keeps them distinct. */
  lemma AppendKeepsUnique(ts: seq<Task>, t: Task)
    requires UniqueTaskIds(ts) && forall i :: 0 <= i < |ts| ==> ts[i].id < t.id
    ensures UniqueTaskIds(ts + [t])
  {
    var r := ts + [t];
    forall i, j | 0 <= i < |r| && 0 <= j < |r| && r[i].id == r[j].id ensures i == j {
      if i < |ts| { assert r[i] == ts[i]; }
      if j < |ts| { assert r[j] == ts[j]; }
    }
  }

  /** Replacing a task by one with the same identifier keeps them distinct. */
  lemma UpdateKeepsUnique(ts: seq<Task>, k: nat, t: Task)
    requires k < |ts| && UniqueTaskIds(ts) && t.id == ts[k].id
    ensures UniqueTaskIds(ts[k := t])
  {
    var r := ts[k := t];
    forall i, j | 0 <= i < |r| && 0 <= j < |r| && r[i].id == r[j].id ensures i == j {
      assert r[i].id == ts[i].id && r[j].id == ts[j].id;
    }
  }

  /** The `users` and `tasks` collections, with the identifiers the store
      hands out next. */
  class Db {
    var users: seq<User>
    var tasks: seq<Task>
    var nextUserId: nat
    var nextTaskId: nat

    /** Identifiers are unique and below the next fresh one; usernames and
        emails are unique across users. */
    ghost predicate Valid()
      reads this
    {
      && UniqueUserIds(users)
      && UniqueTaskIds(tasks)
      && (forall i :: 0 <= i < |users| ==> users[i].id < nextUserId)
      && (forall i :: 0 <= i < |tasks| ==> tasks[i].id < nextTaskId)
      && (forall i, j :: 0 <= i < |users| && 0 <= j < |users| && i != j ==>
            users[i].username != users[j].username && users[i].email != users[j].email)
    }

    constructor ()
      ensures Valid() && users == [] && tasks == []
    {
      users, tasks := [], [];
      nextUserId, nextTaskId := 0, 0;
    }

    /** `db.users.find_one({field: value})`: the first user with that value. */
    method FindUser(field: UserField, value: string) returns (k: Option<nat>)
      ensures k.Some? ==> k.value < |users| && UserKey(users[k.value], field) == value
      ensures k.Some? ==> forall i :: 0 <= i < k.value ==> UserKey(users[i], field) != value
      ensures k.None? <==> forall i :: 0 <= i < |users| ==> UserKey(users[i], field) != value
    {
      var i := 0;
      while i < |users|
        invariant 0 <= i <= |users|
        invariant forall j :: 0 <= j < i ==> UserKey(users[j], field) != value
      {
        if UserKey(users[i], field) == value {
          return Some(i);
        }
        i := i + 1;
      }
      return None;
    }

    /** `db.tasks.find_one(...)` by identifier, optionally also by owner: the first match. */
    method FindTask(id: TaskId, owner: Option<UserId>) returns (k: Option<nat>)
      ensures k.Some? ==> k.value < |tasks| && TaskMatches(tasks[k.value], id, owner)
      ensures k.Some? ==> forall i :: 0 <= i < k.value ==> !TaskMatches(tasks[i], id, owner)
      ensures k.None? <==> forall i :: 0 <= i < |tasks| ==> !TaskMatches(tasks[i], id, owner)
    {
      var i := 0;
      while i < |tasks|
        invariant 0 <= i <= |tasks|
        invariant forall j :: 0 <= j < i ==> !TaskMatches(tasks[j], id, owner)
      {
        if TaskMatches(tasks[i], id, owner) {
          return Some(i);
        }
        i := i + 1;
      }
      return None;
    }

    /** Registration: a user is inserted only when neither the username nor
        the email is taken, so both stay unique. */
    method Register(username: string, email: string, password: Hash, now: Time) returns (r: Outcome<UserId>)
      requires Valid()
      modifies this
      ensures Valid() && tasks == old(tasks)
      ensures r.Failed? <==> exists i :: 0 <= i < |old(users)| &&
                               (old(users)[i].username == username || old(users)[i].email == email)
      ensures r.Failed? ==> r.error == DuplicateUser && users == old(users)
      ensures r.Done? ==> !IsUser(old(users), r.value)
      ensures r.Done? ==> users == old(users) + [User(r.value, username, email, password, now)]
    {
      var byName := FindUser(Username, username);
      var taken := byName.Some?;
      if !taken {
        var byEmail := FindUser(Email, email);
        taken := byEmail.Some?;
      }
      if taken {
        return Failed(DuplicateUser);
      }
      var id := nextUserId;
      users := users + [User(id, username, email, password, now)];
      nextUserId := nextUserId + 1;
      r := Done(id);
    }

    /** Login: the user found by username, if the password check passes. The
        failure does not tell a missing user from a wrong password. */
    method Login(username: string, password: string, checkPassword: (string, Hash) -> bool)
      returns (r: Outcome<UserId>)
      requires Valid()
      ensures r.Done? <==> exists i :: 0 <= i < |users| && users[i].username == username
                                        && checkPassword(password, users[i].password)
      ensures r.Done? ==> exists i :: 0 <= i < |users| && users[i].username == username && users[i].id == r.value
      ensures r.Failed? ==> r.error == InvalidCredentials
    {
      var k := FindUser(Username, username);
      if k.Some? && checkPassword(password, users[k.value].password) {
        r := Done(users[k.value].id);
      } else {
        r := Failed(InvalidCredentials);
      }
    }

    /** The listing: the user's tasks that pass every filter, each as often as
        it is stored, in the chosen order; and the user's distinct tags. */
    method ListTasks(user: UserId, args: ListingArgs, nullsLow: bool) returns (result: seq<Task>, allTags: seq<string>)
      ensures forall t :: multiset(result)[t] == if ListingSelects(user, args, t) then multiset(tasks)[t] else 0
      ensures forall t :: t in result ==> t.userId == user
      ensures SortedBy(SortOrder(args.sort.GetOr("newest"), nullsLow), result)
      ensures forall i, j :: 0 <= i < j < |allTags| ==> allTags[i] != allTags[j]
      ensures forall g :: g in allTags <==> g in UserTags(tasks, user)
    {
      var q := BuildListingQuery(user, args);
      var keys := SortOrder(args.sort.GetOr("newest"), nullsLow);
      result := Find(tasks, q, keys);
      forall t | t in result ensures t.userId == user {
        assert t in multiset(result);
      }
      allTags := DistinctTags(user);
    }

    /** `db.tasks.distinct('tags', {'user_id': user})`. */
    method DistinctTags(user: UserId) returns (tags: seq<string>)
      ensures forall i, j :: 0 <= i < j < |tags| ==> tags[i] != tags[j]
      ensures forall g :: g in tags <==> g in UserTags(tasks, user)
    {
      tags := [];
      var i := 0;
      while i < |tasks|
        invariant 0 <= i <= |tasks|
        invariant forall a, b :: 0 <= a < b < |tags| ==> tags[a] != tags[b]
        invariant forall g :: g in tags <==> g in UserTags(tasks[..i], user)
      {
        UserTagsStep(tasks, user, i);
        if tasks[i].userId == user {
          var own := tasks[i].tags;
          var j := 0;
          while j < |own|
            invariant 0 <= j <= |own|
            invariant forall a, b :: 0 <= a < b < |tags| ==> tags[a] != tags[b]
            invariant forall g :: g in tags <==> g in UserTags(tasks[..i], user) || g in own[..j]
          {
            assert own[..j + 1] == own[..j] + [own[j]];
            if own[j] !in tags {
              tags := tags + [own[j]];
            }
            j := j + 1;
          }
          assert own[..j] == own;
        }
        i := i + 1;
      }
      assert tasks[..i] == tasks;
    }

    /** Search: with a non-empty pattern, the user's tasks whose title
        contains it ignoring case; with none, all of the user's tasks; newest
        first either way. */
    method SearchTasks(user: UserId, q: Option<string>) returns (result: seq<Task>)
      ensures forall t :: multiset(result)[t] == if SearchSelects(user, q.GetOr(""), t) then multiset(tasks)[t] else 0
      ensures forall t :: t in result ==> t.userId == user
      ensures SortedBy([SortKey(CreatedAt, false)], result)
    {
      var pattern := q.GetOr("");
      var keys := [SortKey(CreatedAt, false)];
      if pattern != "" {
        result := Find(tasks, OwnerQuery(user).(titlePattern := Some(pattern)), keys);
      } else {
        result := Find(tasks, OwnerQuery(user), keys);
        forall t ensures SearchSelects(user, pattern, t) <==> t.userId == user {
          EmptyPatternMatches(t.title);
        }
      }
      forall t | t in result ensures t.userId == user {
        assert t in multiset(result);
      }
    }

    /** Viewing a task: found only when the caller owns it. */
    method ViewTask(user: UserId, id: TaskId) returns (r: Outcome<Task>)
      ensures r.Done? <==> OwnsTask(tasks, user, id)
      ensures r.Done? ==> r.value in tasks && r.value.id == id && r.value.userId == user
      ensures r.Failed? ==> r.error == TaskNotFound
    {
      var k := FindTask(id, Some(user));
      if k.Some? {
        r := Done(tasks[k.value]);
      } else {
        r := Failed(TaskNotFound);
      }
    }

    /** `db.tasks.insert_one(t)` for a task carrying the next fresh identifier. */
    method Insert(t: Task)
      requires Valid() && t.id == nextTaskId
      modifies this
      ensures Valid() && users == old(users)
      ensures tasks == old(tasks) + [t]
    {
      AppendKeepsUnique(tasks, t);
      tasks := tasks + [t];
      nextTaskId := nextTaskId + 1;
    }

    /** `db.tasks.update_one({'_id': id}, {'$set': {'order': n}})`: only the
        `order` of the task with that identifier changes. */
    method SetOrder(id: TaskId, n: int)
      requires Valid()
      modifies this
      ensures Valid() && users == old(users) && |tasks| == |old(tasks)|
      ensures forall i :: 0 <= i < |tasks| ==>
        tasks[i] == if old(tasks)[i].id == id then old(tasks)[i].(order := Some(n)) else old(tasks)[i]
    {
      var k := FindTask(id, None);
      if k.Some? {
        var i := k.value;
        var updated := tasks[i].(order := Some(n));
        UpdateKeepsUnique(tasks, i, updated);
        ghost var before := tasks;
        tasks := tasks[i := updated];
        forall j | 0 <= j < |tasks| && j != i ensures before[j].id != id {
          assert before[j].id != before[i].id;
        }
      }
    }

    /** Creating a task: an unparseable due date fails before anything is
        stored; otherwise exactly one task owned by the caller is appended,
        with the form's values and the defaults, incomplete and without `order`. */
    method NewTask(user: UserId, form: TaskForm, parseDate: string -> Option<Date>, created: Time, updated: Time)
      returns (r: Outcome<TaskId>)
      requires Valid() && IsUser(users, user)
      modifies this
      ensures Valid() && users == old(users)
      ensures r.Failed? <==> ReadDueDate(form.dueDate, parseDate).Unparseable?
      ensures r.Failed? ==> r.error == InvalidDateFormat && tasks == old(tasks)
      ensures r.Done? ==> forall i :: 0 <= i < |old(tasks)| ==> old(tasks)[i].id != r.value
      ensures r.Done? ==> tasks == old(tasks) + [Created(r.value, user, form, DueValue(ReadDueDate(form.dueDate, parseDate)), created, updated)]
      ensures old(TagsClean(tasks)) ==> TagsClean(tasks)
      ensures old(OwnersExist(users, tasks)) ==> OwnersExist(users, tasks)
    {
      var due := ReadDueDate(form.dueDate, parseDate);
      if due.Unparseable? {
        return Failed(InvalidDateFormat);
      }
      var id := nextTaskId;
      var t := Created(id, user, form, DueValue(due), created, updated);
      CreatedFacts(id, user, form, DueValue(due), created, updated);
      Insert(t);
      r := Done(id);
    }

    /** Editing a task the caller owns: the fields of `update_data` are
        overwritten in that one task; a task not owned by the caller, or an
        unparseable due date, leaves the store unchanged. */
    method EditTask(user: UserId, id: TaskId, form: TaskForm, parseDate: string -> Option<Date>, now: Time)
      returns (r: Outcome<TaskId>)
      requires Valid()
      modifies this
      ensures Valid() && users == old(users)
      ensures !OwnsTask(old(tasks), user, id) ==> r == Failed(TaskNotFound)
      ensures OwnsTask(old(tasks), user, id) && ReadDueDate(form.dueDate, parseDate).Unparseable?
              ==> r == Failed(InvalidDateFormat)
      ensures r.Failed? ==> tasks == old(tasks)
      ensures r.Done? <==> OwnsTask(old(tasks), user, id) && !ReadDueDate(form.dueDate, parseDate).Unparseable?
      ensures r.Done? ==> r.value == id
      ensures r.Done? ==> |tasks| == |old(tasks)|
      ensures r.Done? ==> forall i :: 0 <= i < |tasks| ==>
        tasks[i] == if old(tasks)[i].id == id
                    then Edited(old(tasks)[i], form, DueValue(ReadDueDate(form.dueDate, parseDate)), now)
                    else old(tasks)[i]
      ensures old(TagsClean(tasks)) ==> TagsClean(tasks)
      ensures old(OwnersExist(users, tasks)) ==> OwnersExist(users, tasks)
    {
      var found := FindTask(id, Some(user));
      if found.None? {
        return Failed(TaskNotFound);
      }
      var due := ReadDueDate(form.dueDate, parseDate);
      if due.Unparseable? {
        return Failed(InvalidDateFormat);
      }
      // `update_one({'_id': id}, {'$set': update_data})`
      var target := FindTask(id, None);
      var k := target.value;
      var edited := Edited(tasks[k], form, DueValue(due), now);
      UpdateKeepsUnique(tasks, k, edited);
      ghost var before := tasks;
      tasks := tasks[k := edited];
      forall i | 0 <= i < |tasks| && i != k ensures before[i].id != id {
        assert before[i].id != before[k].id;
      }
      r := Done(id);
    }

    /** Toggling a task the caller owns flips its completion flag and
        refreshes `updated_at`; nothing else changes, and a task not owned by
        the caller is left alone. */
    method ToggleTask(user: UserId, id: TaskId, now: Time)
      requires Valid()
      modifies this
      ensures Valid() && users == old(users) && |tasks| == |old(tasks)|
      ensures forall i :: 0 <= i < |tasks| ==>
        tasks[i] == if old(tasks)[i].id == id && OwnsTask(old(tasks), user, id)
                    then Toggled(old(tasks)[i], now)
                    else old(tasks)[i]
      ensures !OwnsTask(old(tasks), user, id) ==> tasks == old(tasks)
      ensures old(TagsClean(tasks)) ==> TagsClean(tasks)
      ensures old(OwnersExist(users, tasks)) ==> OwnersExist(users, tasks)
    {
      var found := FindTask(id, Some(user));
      if found.Some? {
        // `update_one({'_id': id}, {'$set': {'completed': ..., 'updated_at': ...}})`
        var target := FindTask(id, None);
        var k := target.value;
        var toggled := Toggled(tasks[k], now);
        UpdateKeepsUnique(tasks, k, toggled);
        tasks := tasks[k := toggled];
      }
    }

    /** Deleting removes the one task with that identifier and owner, and
        reports whether it did; otherwise the store is unchanged. */
    method DeleteTask(user: UserId, id: TaskId) returns (deleted: bool)
      requires Valid()
      modifies this
      ensures Valid() && users == old(users)
      ensures deleted <==> OwnsTask(old(tasks), user, id)
      ensures !deleted ==> tasks == old(tasks)
      ensures deleted ==> exists k :: 0 <= k < |old(tasks)| && TaskMatches(old(tasks)[k], id, Some(user))
                                      && tasks == old(tasks)[..k] + old(tasks)[k + 1..]
      ensures deleted ==> |tasks| == |old(tasks)| - 1 && forall i :: 0 <= i < |tasks| ==> tasks[i].id != id
      ensures old(TagsClean(tasks)) ==> TagsClean(tasks)
      ensures old(OwnersExist(users, tasks)) ==> OwnersExist(users, tasks)
    {
      var found := FindTask(id, Some(user));
      if found.None? {
        return false;
      }
      var k := found.value;
      ghost var before := tasks;
      tasks := tasks[..k] + tasks[k + 1..];
      RemoveKeepsUnique(before, k);
      forall i | 0 <= i < |tasks| ensures tasks[i].id != id {
        var i' := if i < k then i else i + 1;
        assert tasks[i] == before[i'];
      }
      deleted := true;
    }
  }
}
