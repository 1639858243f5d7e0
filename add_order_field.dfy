/** The one-off migration that gives the tasks of every registered user an
    `order`: a task's 1-based position among its owner's tasks sorted by
    creation time, written only where `order` is missing. */
module AddOrderField {
  import opened Records
  import opened Sorting
  import opened Queries
  import opened TaskManager

  /** `.sort("created_at", 1)`. */
  const ByCreation: seq<SortKey> := [SortKey(CreatedAt, true)]

  /** `db.tasks.find({"user_id": uid}).sort("created_at", 1)`. */
  function OwnerTasksByAge(ts: seq<Task>, uid: UserId): seq<Task> {
    Find(ts, OwnerQuery(uid), ByCreation)
  }

  /** The index of the first task in `s` with identifier `id`, or `|s|` when there is none. */
  function IndexOfId(s: seq<Task>, id: TaskId): (k: nat)
    ensures k <= |s|
    ensures k < |s| ==> s[k].id == id
    ensures forall j :: 0 <= j < k ==> s[j].id != id
  {
    if s == [] then 0
    else if s[0].id == id then 0
    else
      var k := 1 + IndexOfId(s[1..], id);
      assert forall j :: 1 <= j < k ==> s[j] == s[1..][j - 1];
      k
  }

  /** The 1-based position `enumerate(tasks, start=1)` gives `t` in its owner's list. */
  function Position(ts: seq<Task>, t: Task): nat {
    1 + IndexOfId(OwnerTasksByAge(ts, t.userId), t.id)
  }

  /** What the migration does to one task of the store `ts`: a task of a
      registered user that lacks `order` gets its position; any other task is
      left as it is. Only `order` is ever written. */
  function Backfill(ts: seq<Task>, us: seq<User>, t: Task): (r: Task)
    ensures r == t.(order := r.order)
    ensures t.order.Some? || !IsUser(us, t.userId) ==> r == t
    ensures IsUser(us, t.userId) ==> r.order.Some?
  {
    if t.order.None? && IsUser(us, t.userId) then t.(order := Some(Position(ts, t))) else t
  }

  /** The task store after the migration, task by task. */
  function Backfilled(ts: seq<Task>, us: seq<User>): (r: seq<Task>)
    ensures |r| == |ts|
    ensures forall k :: 0 <= k < |ts| ==> r[k] == Backfill(ts, us, ts[k])
  {
    seq(|ts|, k requires 0 <= k < |ts| => Backfill(ts, us, ts[k]))
  }

  /** The user `uid` is among the first `i` users of the cursor. */
  ghost predicate Visited(us: seq<User>, i: nat, uid: UserId)
    requires i <= |us|
  {
    exists j :: 0 <= j < i && us[j].id == uid
  }

  // ---------------------------------------------------------------------
  // Facts about one owner's creation-ordered list.

  /** With distinct identifiers a task occurs at most once. */
  lemma {:induction false} UniqueCount(ts: seq<Task>, x: Task)
    requires UniqueTaskIds(ts)
    ensures multiset(ts)[x] <= 1
  {
    if ts != [] {
      var tail := ts[1..];
      assert ts == [ts[0]] + tail;
      assert UniqueTaskIds(tail) by {
        forall i, j | 0 <= i < |tail| && 0 <= j < |tail| && tail[i].id == tail[j].id ensures i == j {
          assert tail[i] == ts[i + 1] && tail[j] == ts[j + 1];
        }
      }
      UniqueCount(tail, x);
      if ts[0] == x {
        forall j | 0 <= j < |tail| ensures tail[j] != x {
          assert tail[j] == ts[j + 1];
        }
        assert x !in tail;
      }
    }
  }

  /** A value at two different indices occurs at least twice. */
  lemma CountTwo(s: seq<Task>, a: nat, b: nat)
    requires a < b < |s| && s[a] == s[b]
    ensures multiset(s)[s[a]] >= 2
  {
    assert s == s[..b] + s[b..];
    assert s[a] in s[..b];
    assert s[b] in s[b..];
    assert multiset(s) == multiset(s[..b]) + multiset(s[b..]);
  }

  /** Two stored tasks with the same identifier are the same task. */
  lemma SameIdSame(ts: seq<Task>, a: Task, b: Task)
    requires UniqueTaskIds(ts) && a in ts && b in ts && a.id == b.id
    ensures a == b
  {
    var i :| 0 <= i < |ts| && ts[i] == a;
    var j :| 0 <= j < |ts| && ts[j] == b;
  }

  /** The owner's list holds exactly the owner's stored tasks. */
  lemma OwnList(ts: seq<Task>, uid: UserId, x: Task)
    ensures x in OwnerTasksByAge(ts, uid) <==> x in ts && x.userId == uid
  {
    var q := OwnerQuery(uid);
    var s := OwnerTasksByAge(ts, uid);
    assert multiset(s) == multiset(Select(ts, q));
    assert multiset(s)[x] == if x.userId == uid then multiset(ts)[x] else 0;
    assert x in s <==> multiset(s)[x] > 0;
    assert x in ts <==> multiset(ts)[x] > 0;
  }

  /** The owner's list inherits distinct identifiers from the store. */
  lemma OwnListUnique(ts: seq<Task>, uid: UserId)
    requires UniqueTaskIds(ts)
    ensures UniqueTaskIds(OwnerTasksByAge(ts, uid))
  {
    var s := OwnerTasksByAge(ts, uid);
    forall a, b | 0 <= a < |s| && 0 <= b < |s| && s[a].id == s[b].id ensures a == b {
      if a != b {
        OwnList(ts, uid, s[a]);
        OwnList(ts, uid, s[b]);
        SameIdSame(ts, s[a], s[b]);
        if a < b { CountTwo(s, a, b); } else { CountTwo(s, b, a); }
        UniqueCount(ts, s[a]);
        assert false;
      }
    }
  }

  /** In a list with distinct identifiers, looking up the identifier of the
      task at `n` finds `n`. */
  lemma IndexOfOwnId(s: seq<Task>, n: nat)
    requires UniqueTaskIds(s) && n < |s|
    ensures IndexOfId(s, s[n].id) == n
  {
  }

  /** What the migration relies on about an owner's list `s`: distinct
      identifiers, creation order, and exactly the owner's stored tasks. */
  ghost predicate OwnerList(ts: seq<Task>, uid: UserId, s: seq<Task>) {
    && UniqueTaskIds(s)
    && SortedBy(ByCreation, s)
    && forall x :: x in s <==> x in ts && x.userId == uid
  }

  /** The list the migration reads is such a list. */
  lemma OwnerListOf(ts: seq<Task>, uid: UserId)
    requires UniqueTaskIds(ts)
    ensures OwnerList(ts, uid, OwnerTasksByAge(ts, uid))
  {
    forall x ensures x in OwnerTasksByAge(ts, uid) <==> x in ts && x.userId == uid {
      OwnList(ts, uid, x);
    }
    OwnListUnique(ts, uid);
  }

  /** A stored task of the owner sits in the list at the index of its identifier. */
  lemma ListIndex(ts: seq<Task>, uid: UserId, s: seq<Task>, k: nat)
    requires UniqueTaskIds(ts) && OwnerList(ts, uid, s) && k < |ts| && ts[k].userId == uid
    ensures IndexOfId(s, ts[k].id) < |s| && s[IndexOfId(s, ts[k].id)] == ts[k]
  {
    assert ts[k] in s;
    var j :| 0 <= j < |s| && s[j] == ts[k];
    IndexOfOwnId(s, j);
  }

  /** The stored task carrying the identifier of `s[j]` is `s[j]`, of the owner, at index `j`. */
  lemma ListAt(ts: seq<Task>, uid: UserId, s: seq<Task>, j: nat, k: nat)
    requires UniqueTaskIds(ts) && OwnerList(ts, uid, s) && j < |s| && k < |ts| && ts[k].id == s[j].id
    ensures ts[k] == s[j] && ts[k].userId == uid && IndexOfId(s, ts[k].id) == j
  {
    assert s[j] in s;
    SameIdSame(ts, ts[k], s[j]);
    IndexOfOwnId(s, j);
  }

  /** In a list sorted by creation time, positions do not go back in time. */
  lemma SortedLe(s: seq<Task>, a: nat, b: nat)
    requires SortedBy(ByCreation, s) && a <= b < |s|
    ensures s[a].createdAt <= s[b].createdAt
  {
    if a < b {
      assert Compare(ByCreation, s[a], s[b]) <= 0;
      OldestOrder(s[a], s[b], false);
    }
  }

  /** In a list sorted by creation time, an element created strictly earlier
      sits strictly earlier. */
  lemma SortedPositions(s: seq<Task>, a: nat, b: nat)
    requires SortedBy(ByCreation, s) && a < |s| && b < |s|
    requires s[a].createdAt < s[b].createdAt
    ensures a < b
  {
    if b < a {
      SortedLe(s, b, a);
      assert false;
    }
  }

  /** The position of `t` is one more than the index of its identifier in its owner's list `s`. */
  lemma PositionIn(ts: seq<Task>, s: seq<Task>, t: Task)
    requires s == OwnerTasksByAge(ts, t.userId)
    ensures Position(ts, t) == 1 + IndexOfId(s, t.id)
  {
  }

  /** A registered user's task that lacked `order` gets its position. */
  lemma BackfillAt(ts: seq<Task>, us: seq<User>, k: nat)
    requires k < |ts| && ts[k].order.None? && IsUser(us, ts[k].userId)
    ensures Backfilled(ts, us)[k] == ts[k].(order := Some(Position(ts, ts[k])))
  {
  }

  /** Tasks of `uid` are the same in both stores, and owners agree
      everywhere, so the owner's list is the same. */
  lemma {:induction false} SelectAgree(a: seq<Task>, b: seq<Task>, uid: UserId)
    requires |a| == |b|
    requires forall k :: 0 <= k < |a| ==> a[k].userId == b[k].userId
    requires forall k :: 0 <= k < |a| && b[k].userId == uid ==> a[k] == b[k]
    ensures Select(a, OwnerQuery(uid)) == Select(b, OwnerQuery(uid))
  {
    if a != [] {
      var q := OwnerQuery(uid);
      assert forall k :: 0 <= k < |a| - 1 ==> a[1..][k] == a[k + 1] && b[1..][k] == b[k + 1];
      SelectAgree(a[1..], b[1..], uid);
      assert Matches(q, a[0]) <==> Matches(q, b[0]);
    }
  }

  // ---------------------------------------------------------------------
  // The migration.

  /** The store once the first `i` users of the cursor have been handled. */
  ghost function Partial(ts0: seq<Task>, us: seq<User>, i: nat): (r: seq<Task>)
    requires i <= |us|
    ensures |r| == |ts0|
  {
    seq(|ts0|, k requires 0 <= k < |ts0| =>
      if Visited(us, i, ts0[k].userId) then Backfill(ts0, us, ts0[k]) else ts0[k])
  }

  /** The store in the middle of user `i`: the first `j` tasks of that
      user's list `s` handled as well. */
  ghost function Stage(ts0: seq<Task>, us: seq<User>, i: nat, s: seq<Task>, j: nat): (r: seq<Task>)
    requires i < |us|
    ensures |r| == |ts0|
  {
    seq(|ts0|, k requires 0 <= k < |ts0| =>
      if Visited(us, i, ts0[k].userId) || (ts0[k].userId == us[i].id && IndexOfId(s, ts0[k].id) < j)
      then Backfill(ts0, us, ts0[k]) else ts0[k])
  }

  /** A visited user changes only `order`, so owners and identifiers stay. */
  lemma PartialKeepsKeys(ts0: seq<Task>, us: seq<User>, i: nat)
    requires i <= |us|
    ensures forall k :: 0 <= k < |ts0| ==>
      Partial(ts0, us, i)[k].userId == ts0[k].userId && Partial(ts0, us, i)[k].id == ts0[k].id
  {
  }

  /** The tasks of the next user are still untouched, so the list the
      migration reads for them is the original one. */
  lemma PartialOwnList(ts0: seq<Task>, us: seq<User>, i: nat)
    requires UniqueUserIds(us) && i < |us|
    ensures Find(Partial(ts0, us, i), OwnerQuery(us[i].id), ByCreation) == OwnerTasksByAge(ts0, us[i].id)
  {
    var uid := us[i].id;
    var cur := Partial(ts0, us, i);
    assert !Visited(us, i, uid);
    PartialKeepsKeys(ts0, us, i);
    SelectAgree(cur, ts0, uid);
  }

  lemma StageStart(ts0: seq<Task>, us: seq<User>, i: nat, s: seq<Task>)
    requires i < |us|
    ensures Stage(ts0, us, i, s, 0) == Partial(ts0, us, i)
  {
  }

  /** After the whole list of user `i`, all of that user's tasks are handled. */
  lemma StageEnd(ts0: seq<Task>, us: seq<User>, i: nat, s: seq<Task>)
    requires UniqueTaskIds(ts0) && i < |us| && OwnerList(ts0, us[i].id, s)
    ensures Stage(ts0, us, i, s, |s|) == Partial(ts0, us, i + 1)
  {
    var a, b := Stage(ts0, us, i, s, |s|), Partial(ts0, us, i + 1);
    forall k | 0 <= k < |ts0| ensures a[k] == b[k] {
      if ts0[k].userId == us[i].id {
        ListIndex(ts0, us[i].id, s, k);
        assert Visited(us, i + 1, ts0[k].userId);
      } else if Visited(us, i + 1, ts0[k].userId) {
        var j :| 0 <= j < i + 1 && us[j].id == ts0[k].userId;
        assert Visited(us, i, ts0[k].userId);
      }
    }
  }

  /** One step of the inner loop: `s[j]` is written exactly when it lacks
      `order`, and then with `j + 1`, its position. */
  lemma StageStep(ts0: seq<Task>, us: seq<User>, i: nat, s: seq<Task>, j: nat, after: seq<Task>)
    requires UniqueTaskIds(ts0) && UniqueUserIds(us) && i < |us| && s == OwnerTasksByAge(ts0, us[i].id)
    requires OwnerList(ts0, us[i].id, s) && j < |s|
    requires var before := Stage(ts0, us, i, s, j);
      |after| == |before| &&
      forall k :: 0 <= k < |after| ==>
        after[k] == if s[j].order.None? && before[k].id == s[j].id
                    then before[k].(order := Some(j + 1)) else before[k]
    ensures after == Stage(ts0, us, i, s, j + 1)
  {
    var next := Stage(ts0, us, i, s, j + 1);
    forall k | 0 <= k < |ts0| ensures after[k] == next[k] {
      StageStepAt(ts0, us, i, s, j, k);
    }
  }

  /** StageStep for the one stored task `k`. */
  lemma StageStepAt(ts0: seq<Task>, us: seq<User>, i: nat, s: seq<Task>, j: nat, k: nat)
    requires UniqueTaskIds(ts0) && UniqueUserIds(us) && i < |us| && s == OwnerTasksByAge(ts0, us[i].id)
    requires OwnerList(ts0, us[i].id, s) && j < |s| && k < |ts0|
    ensures var before := Stage(ts0, us, i, s, j)[k];
      Stage(ts0, us, i, s, j + 1)[k]
        == if s[j].order.None? && before.id == s[j].id then before.(order := Some(j + 1)) else before
  {
    var t := ts0[k];
    var before, after := Stage(ts0, us, i, s, j)[k], Stage(ts0, us, i, s, j + 1)[k];
    if t.id == s[j].id {
      StepFacts(ts0, us, i, s, j, k);
      assert !Visited(us, i, t.userId);
      assert before == t;
      assert after == Backfill(ts0, us, t);
    } else {
      if t.userId == us[i].id {
        assert IndexOfId(s, t.id) != j;
      }
      assert after == before;
      assert before.id == t.id;
    }
  }

  /** Once every user of the cursor is handled, the store is the backfilled one. */
  lemma PartialAll(ts0: seq<Task>, us: seq<User>)
    ensures Partial(ts0, us, |us|) == Backfilled(ts0, us)
  {
    forall k | 0 <= k < |ts0| ensures Visited(us, |us|, ts0[k].userId) <==> IsUser(us, ts0[k].userId) {
    }
  }

  /** The nested loop: for each user of the cursor, the user's tasks by
      creation time, numbered from 1, with `order` set where it is missing. */
  method AddOrderField(db: Db)
    requires db.Valid()
    modifies db
    ensures db.Valid() && db.users == old(db.users)
    ensures db.tasks == Backfilled(old(db.tasks), old(db.users))
  {
    ghost var ts0 := db.tasks;
    var us := db.users;
    var i := 0;
    while i < |us|
      invariant 0 <= i <= |us|
      invariant db.Valid() && db.users == us && UniqueTaskIds(ts0)
      invariant db.tasks == Partial(ts0, us, i)
    {
      NumberUserTasks(db, ts0, us, i);
      i := i + 1;
    }
    PartialAll(ts0, us);
  }

  /** The inner loop for user `i`: `enumerate(tasks, start=1)` over the
      user's tasks by creation time, writing the index where `order` is missing. */
  method NumberUserTasks(db: Db, ghost ts0: seq<Task>, us: seq<User>, i: nat)
    requires db.Valid() && db.users == us && UniqueTaskIds(ts0) && i < |us|
    requires db.tasks == Partial(ts0, us, i)
    modifies db
    ensures db.Valid() && db.users == us
    ensures db.tasks == Partial(ts0, us, i + 1)
  {
    var uid := us[i].id;
    PartialOwnList(ts0, us, i);
    var s := Find(db.tasks, OwnerQuery(uid), ByCreation);
    OwnerListOf(ts0, uid);
    StageStart(ts0, us, i, s);
    var j := 0;
    while j < |s|
      invariant 0 <= j <= |s|
      invariant db.Valid() && db.users == us
      invariant db.tasks == Stage(ts0, us, i, s, j)
    {
      NumberTask(db, ts0, us, i, s, j);
      j := j + 1;
    }
    StageEnd(ts0, us, i, s);
  }

  /** One round of the inner loop: the task at index `j` of the list is
      given `j + 1` when it lacks `order`. */
  method NumberTask(db: Db, ghost ts0: seq<Task>, us: seq<User>, i: nat, s: seq<Task>, j: nat)
    requires db.Valid() && db.users == us && UniqueTaskIds(ts0) && i < |us|
    requires s == OwnerTasksByAge(ts0, us[i].id) && OwnerList(ts0, us[i].id, s) && j < |s|
    requires db.tasks == Stage(ts0, us, i, s, j)
    modifies db
    ensures db.Valid() && db.users == us
    ensures db.tasks == Stage(ts0, us, i, s, j + 1)
  {
    if s[j].order.None? {
      db.SetOrder(s[j].id, j + 1);
    }
    StageStep(ts0, us, i, s, j, db.tasks);
  }

  /** One step of the inner loop, for the stored task `k` that carries the
      identifier of `s[j]`: it is `s[j]`, it sits at index `j`, and the
      migration gives it `j + 1` if it lacks `order`. */
  lemma StepFacts(ts0: seq<Task>, us: seq<User>, i: nat, s: seq<Task>, j: nat, k: nat)
    requires UniqueTaskIds(ts0) && i < |us| && s == OwnerTasksByAge(ts0, us[i].id)
    requires OwnerList(ts0, us[i].id, s) && j < |s| && k < |ts0| && ts0[k].id == s[j].id
    ensures ts0[k] == s[j] && IndexOfId(s, ts0[k].id) == j
    ensures Backfill(ts0, us, ts0[k]) == if s[j].order.None? then s[j].(order := Some(j + 1)) else s[j]
  {
    ListAt(ts0, us[i].id, s, j, k);
    assert IsUser(us, us[i].id);
  }

  // ---------------------------------------------------------------------
  // What the migration promises.

  /** A registered user's task that lacked `order` receives its 1-based
      position in the owner's creation-ordered list, the list counting
      every task of the owner, ordered or not. */
  lemma BackfillPosition(ts: seq<Task>, us: seq<User>, k: nat)
    requires UniqueTaskIds(ts) && k < |ts|
    requires ts[k].order.None? && IsUser(us, ts[k].userId)
    ensures var s := OwnerTasksByAge(ts, ts[k].userId);
      var n := Backfilled(ts, us)[k].order.value;
      && Backfilled(ts, us)[k].order.Some?
      && 1 <= n <= |s| && s[n - 1] == ts[k]
  {
    var uid := ts[k].userId;
    OwnerListOf(ts, uid);
    ListIndex(ts, uid, OwnerTasksByAge(ts, uid), k);
    BackfillAt(ts, us, k);
  }

  /** Running the migration again changes nothing. */
  lemma BackfillIdempotent(ts: seq<Task>, us: seq<User>)
    ensures Backfilled(Backfilled(ts, us), us) == Backfilled(ts, us)
  {
    var once := Backfilled(ts, us);
    var twice := Backfilled(once, us);
    forall k | 0 <= k < |ts| ensures twice[k] == once[k] {
      assert once[k].userId == ts[k].userId;
    }
  }

  /** Two different tasks of one registered owner that both lacked `order`
      receive different orders. */
  lemma BackfillDistinct(ts: seq<Task>, us: seq<User>, k1: nat, k2: nat)
    requires UniqueTaskIds(ts) && k1 < |ts| && k2 < |ts| && k1 != k2
    requires ts[k1].userId == ts[k2].userId && IsUser(us, ts[k1].userId)
    requires ts[k1].order.None? && ts[k2].order.None?
    ensures Backfilled(ts, us)[k1].order != Backfilled(ts, us)[k2].order
  {
    var uid := ts[k1].userId;
    var s := OwnerTasksByAge(ts, uid);
    OwnerListOf(ts, uid);
    ListIndex(ts, uid, s, k1);
    ListIndex(ts, uid, s, k2);
    BackfillAt(ts, us, k1);
    BackfillAt(ts, us, k2);
  }

  /** Of two such tasks, the one created earlier receives the smaller order. */
  lemma BackfillIncreasing(ts: seq<Task>, us: seq<User>, k1: nat, k2: nat)
    requires UniqueTaskIds(ts) && k1 < |ts| && k2 < |ts|
    requires ts[k1].userId == ts[k2].userId && IsUser(us, ts[k1].userId)
    requires ts[k1].order.None? && ts[k2].order.None?
    requires ts[k1].createdAt < ts[k2].createdAt
    ensures Backfilled(ts, us)[k1].order.value < Backfilled(ts, us)[k2].order.value
  {
    var uid := ts[k1].userId;
    var s := OwnerTasksByAge(ts, uid);
    OwnerListOf(ts, uid);
    ListIndex(ts, uid, s, k1);
    ListIndex(ts, uid, s, k2);
    SortedPositions(s, IndexOfId(s, ts[k1].id), IndexOfId(s, ts[k2].id));
    BackfillAt(ts, us, k1);
    BackfillAt(ts, us, k2);
  }

  /** When none of a registered user's N tasks had `order`, every value in
      1..N is given to one of them: with BackfillPosition, BackfillDistinct
      and BackfillIncreasing the orders are exactly 1..N in creation order. */
  lemma BackfillOnto(ts: seq<Task>, us: seq<User>, uid: UserId, p: nat)
    requires UniqueTaskIds(ts) && IsUser(us, uid)
    requires forall k :: 0 <= k < |ts| && ts[k].userId == uid ==> ts[k].order.None?
    requires 1 <= p <= |OwnerTasksByAge(ts, uid)|
    ensures exists k :: 0 <= k < |ts| && ts[k].userId == uid && Backfilled(ts, us)[k].order == Some(p)
  {
    var s := OwnerTasksByAge(ts, uid);
    OwnerListOf(ts, uid);
    assert s[p - 1] in s;
    var k :| 0 <= k < |ts| && ts[k] == s[p - 1];
    IndexOfOwnId(s, p - 1);
    assert ts[k].id == s[p - 1].id && ts[k].userId == uid;
    assert IndexOfId(s, ts[k].id) == p - 1;
    PositionIn(ts, s, ts[k]);
    assert Position(ts, ts[k]) == p;
    BackfillAt(ts, us, k);
    assert Backfilled(ts, us)[k].order == Some(p);
  }

  /** Positions count the owner's already-ordered tasks too, and existing
      values are never rewritten, so a filled-in order can repeat one that
      was already there: the owner's oldest task, lacking `order`, gets 1,
      which a newer task of the owner already had. */
  lemma BackfillCanRepeatExistingOrder(ts: seq<Task>, us: seq<User>, k1: nat, k2: nat)
    requires UniqueTaskIds(ts) && k1 < |ts| && k2 < |ts| && k1 != k2
    requires ts[k1].userId == ts[k2].userId && IsUser(us, ts[k1].userId)
    requires forall k :: 0 <= k < |ts| && k != k1 && ts[k].userId == ts[k1].userId ==>
      ts[k1].createdAt < ts[k].createdAt
    requires ts[k1].order.None? && ts[k2].order == Some(1)
    ensures Backfilled(ts, us)[k1].order == Some(1)
    ensures Backfilled(ts, us)[k2].order == Some(1)
  {
    var uid := ts[k1].userId;
    var s := OwnerTasksByAge(ts, uid);
    OwnerListOf(ts, uid);
    OldestFirst(ts, uid, s, k1);
    PositionIn(ts, s, ts[k1]);
    BackfillAt(ts, us, k1);
  }

  /** The owner's strictly oldest task heads the owner's list. */
  lemma OldestFirst(ts: seq<Task>, uid: UserId, s: seq<Task>, k1: nat)
    requires UniqueTaskIds(ts) && OwnerList(ts, uid, s) && k1 < |ts| && ts[k1].userId == uid
    requires forall k :: 0 <= k < |ts| && k != k1 && ts[k].userId == uid ==>
      ts[k1].createdAt < ts[k].createdAt
    ensures IndexOfId(s, ts[k1].id) == 0
  {
    ListIndex(ts, uid, s, k1);
    var m := IndexOfId(s, ts[k1].id);
    assert s[0] in s;
    var k0 :| 0 <= k0 < |ts| && ts[k0] == s[0];
    SortedLe(s, 0, m);
    assert k0 == k1;
  }
}
