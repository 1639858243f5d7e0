/** The query documents the routes build, MongoDB's matching of a task
    document against them, and the listing's query and sort selection. */
module Queries {
  import opened Records
  import opened Sorting

  /** The category condition of a listing query. */
  datatype CategoryCond =
    | AnyCategory                 // no `category` key
    | CategoryIs(name: string)    // `{'category': name}`
    | GeneralOrMissing            // `{'$or': [{'category': 'general'}, {'category': {'$exists': False}}]}`

  /** A query document over the `tasks` collection: an AND of its present keys. */
  datatype Query = Query(
    userId: UserId,                // `{'user_id': ...}`: always present
    completed: Option<bool>,       // `{'completed': b}`
    priority: Option<string>,      // `{'priority': p}`
    category: CategoryCond,
    tag: Option<string>,           // `{'tags': g}`: array membership
    titlePattern: Option<string>)  // `{'title': {'$regex': q, '$options': 'i'}}`

  /** `{'user_id': uid}`: the user's tasks, with no other condition. */
  function OwnerQuery(uid: UserId): (q: Query)
    ensures forall t :: Matches(q, t) <==> t.userId == uid
  {
    Query(uid, None, None, AnyCategory, None, None)
  }

  /** ASCII case folding. */
  function Lower(c: char): char {
    if 'A' <= c <= 'Z' then (c as int + 32) as char else c
  }

  /** `p` occurs in `s` at position `i`, ignoring case. */
  predicate MatchesAt(s: string, p: string, i: nat)
    requires i + |p| <= |s|
  {
    forall k :: 0 <= k < |p| ==> Lower(s[i + k]) == Lower(p[k])
  }

  /** Case-insensitive substring test (a regular expression free of metacharacters). */
  predicate ContainsIgnoreCase(s: string, p: string) {
    exists i: nat :: i + |p| <= |s| && MatchesAt(s, p, i)
  }

  /** The empty pattern matches every title. */
  lemma EmptyPatternMatches(s: string)
    ensures ContainsIgnoreCase(s, "")
  {
    assert MatchesAt(s, "", 0);
  }

  /** `p` with every letter folded to lower case. */
  function LowerAll(p: string): string {
    seq(|p|, k requires 0 <= k < |p| => Lower(p[k]))
  }

  /** The search ignores case: folding the pattern to lower case changes
      neither which titles match nor where. */
  lemma PatternCaseIrrelevant(s: string, p: string)
    ensures forall i: nat :: i + |p| <= |s| ==> (MatchesAt(s, p, i) <==> MatchesAt(s, LowerAll(p), i))
    ensures ContainsIgnoreCase(s, p) <==> ContainsIgnoreCase(s, LowerAll(p))
  {
    var q := LowerAll(p);
    forall i: nat | i + |p| <= |s| ensures MatchesAt(s, p, i) <==> MatchesAt(s, q, i) {
      forall k | 0 <= k < |p| ensures Lower(q[k]) == Lower(p[k]) {
        LowerIdempotent(p[k]);
      }
    }
  }

  /** Folding a folded character changes nothing. */
  lemma LowerIdempotent(c: char)
    ensures Lower(Lower(c)) == Lower(c)
  {
  }

  predicate MatchesCategory(c: CategoryCond, category: Option<string>) {
    match c
    case AnyCategory => true
    case CategoryIs(name) => category == Some(name)
    case GeneralOrMissing => category == Some("general") || category.None?
  }

  /** MongoDB matching: every present key must hold. A missing `completed`
      field equals neither true nor false. */
  predicate Matches(q: Query, t: Task) {
    && t.userId == q.userId
    && (q.completed.Some? ==> t.completed == Some(q.completed.value))
    && (q.priority.Some? ==> t.priority == q.priority.value)
    && MatchesCategory(q.category, t.category)
    && (q.tag.Some? ==> q.tag.value in t.tags)
    && (q.titlePattern.Some? ==> ContainsIgnoreCase(t.title, q.titlePattern.value))
  }

  /** `collection.find(q)`: the matching documents, in store order. */
  function Select(ts: seq<Task>, q: Query): (r: seq<Task>)
    ensures forall t :: multiset(r)[t] == if Matches(q, t) then multiset(ts)[t] else 0
    ensures forall t :: t in r ==> Matches(q, t)
  {
    if ts == [] then []
    else
      assert ts == [ts[0]] + ts[1..];
      (if Matches(q, ts[0]) then [ts[0]] else []) + Select(ts[1..], q)
  }

  /** `collection.find(q).sort(keys)`. */
  function Find(ts: seq<Task>, q: Query, keys: seq<SortKey>): seq<Task> {
    Sort(keys, Select(ts, q))
  }

  /** The query-string arguments of the listing; a missing one defaults to 'all' ('newest' for the sort). */
  datatype ListingArgs = ListingArgs(
    filter: Option<string>,
    priority: Option<string>,
    category: Option<string>,
    tag: Option<string>,
    sort: Option<string>)

  /** Which tasks the listing shows, stated filter by filter: each argument
      other than 'all' adds a condition, and the conditions are AND-combined. */
  ghost predicate ListingSelects(user: UserId, args: ListingArgs, t: Task) {
    var f, p, c, g := args.filter.GetOr("all"), args.priority.GetOr("all"),
                      args.category.GetOr("all"), args.tag.GetOr("all");
    && t.userId == user
    && (f == "completed" ==> t.completed == Some(true))
    && (f == "pending" ==> t.completed == Some(false))
    && (p != "all" ==> t.priority == p)
    && (c == "general" ==> t.category == Some("general") || t.category.None?)
    && (c != "all" && c != "general" ==> t.category == Some(c))
    && (g != "all" ==> g in t.tags)
  }

  /** The listing's query document, built key by key as the route does. */
  method BuildListingQuery(user: UserId, args: ListingArgs) returns (q: Query)
    ensures q.userId == user && q.titlePattern.None?
    ensures forall t :: Matches(q, t) <==> ListingSelects(user, args, t)
  {
    var filterBy := args.filter.GetOr("all");
    var priority := args.priority.GetOr("all");
    var category := args.category.GetOr("all");
    var tag := args.tag.GetOr("all");
    q := OwnerQuery(user);
    if filterBy == "completed" {
      q := q.(completed := Some(true));
    } else if filterBy == "pending" {
      q := q.(completed := Some(false));
    }
    if priority != "all" {
      q := q.(priority := Some(priority));
    }
    if category != "all" {
      if category == "general" {
        q := q.(category := GeneralOrMissing);
      } else {
        q := q.(category := CategoryIs(category));
      }
    }
    if tag != "all" {
      q := q.(tag := Some(tag));
    }
  }

  /** The listing's sort specification for the `sort` argument. */
  function SortOrder(sortBy: string, nullsLow: bool): seq<SortKey> {
    if sortBy == "oldest" then [SortKey(CreatedAt, true)]
    else if sortBy == "alphabetical" then [SortKey(Title, true)]
    else if sortBy == "due_date" then [SortKey(DueDate(nullsLow), true), SortKey(CreatedAt, false)]
    else [SortKey(CreatedAt, false)]
  }

  /** 'oldest': a task comes strictly first exactly when it was created earlier. */
  lemma OldestOrder(a: Task, b: Task, nullsLow: bool)
    ensures Compare(SortOrder("oldest", nullsLow), a, b) < 0 <==> a.createdAt < b.createdAt
    ensures Compare(SortOrder("oldest", nullsLow), a, b) == 0 <==> a.createdAt == b.createdAt
  {
  }

  /** Any other value, 'newest' included: a task comes strictly first exactly when it was created later. */
  lemma NewestOrder(sortBy: string, a: Task, b: Task, nullsLow: bool)
    requires sortBy != "oldest" && sortBy != "alphabetical" && sortBy != "due_date"
    ensures Compare(SortOrder(sortBy, nullsLow), a, b) < 0 <==> a.createdAt > b.createdAt
    ensures Compare(SortOrder(sortBy, nullsLow), a, b) == 0 <==> a.createdAt == b.createdAt
  {
  }

  /** 'alphabetical': the titles' lexicographic order. */
  lemma AlphabeticalOrder(a: Task, b: Task, nullsLow: bool)
    ensures Compare(SortOrder("alphabetical", nullsLow), a, b) < 0 <==> LexLess(a.title, b.title)
    ensures Compare(SortOrder("alphabetical", nullsLow), a, b) == 0 <==> a.title == b.title
  {
    CmpStrMeaning(a.title, b.title);
  }

  /** `x` is an earlier due date than `y`, with missing dates placed by `nullsLow`. */
  predicate DueBefore(x: Option<Date>, y: Option<Date>, nullsLow: bool) {
    || (x.Some? && y.Some? && x.value < y.value)
    || (nullsLow && x.None? && y.Some?)
    || (!nullsLow && x.Some? && y.None?)
  }

  /** 'due_date': the earlier due date first; on equal due dates, the newer task first. */
  lemma DueDateOrder(a: Task, b: Task, nullsLow: bool)
    ensures Compare(SortOrder("due_date", nullsLow), a, b) < 0
            <==> DueBefore(a.dueDate, b.dueDate, nullsLow)
                 || (a.dueDate == b.dueDate && a.createdAt > b.createdAt)
  {
    var keys := SortOrder("due_date", nullsLow);
    var tail := [SortKey(CreatedAt, false)];
    assert keys[1..] == tail;
    assert Compare(tail, a, b) == CmpInt(b.createdAt, a.createdAt) by {
      assert tail[1..] == [];
    }
    var c := CmpDue(a.dueDate, b.dueDate, nullsLow);
    assert Compare(keys, a, b) == if c != 0 then c else Compare(tail, a, b);
    assert c == 0 <==> a.dueDate == b.dueDate;
    assert c < 0 <==> DueBefore(a.dueDate, b.dueDate, nullsLow);
  }

  /** In a list sorted by due date, where tasks without a due date stand
      relative to dated ones is fixed by the null placement alone. */
  lemma {:induction false} MissingDueDatePlacement(s: seq<Task>, nullsLow: bool, i: nat, j: nat)
    requires SortedBy(SortOrder("due_date", nullsLow), s)
    requires i < |s| && j < |s| && s[i].dueDate.Some? && s[j].dueDate.None?
    ensures nullsLow ==> j < i
    ensures !nullsLow ==> i < j
  {
    var keys := SortOrder("due_date", nullsLow);
    if i < j {
      assert Compare(keys, s[i], s[j]) <= 0;
      DueDateOrder(s[i], s[j], nullsLow);
      CompareAntisym(keys, s[i], s[j]);
      DueDateOrder(s[j], s[i], nullsLow);
    } else if j < i {
      assert Compare(keys, s[j], s[i]) <= 0;
      DueDateOrder(s[j], s[i], nullsLow);
      CompareAntisym(keys, s[j], s[i]);
      DueDateOrder(s[i], s[j], nullsLow);
    }
  }
}
