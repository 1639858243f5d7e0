# Task manager: query engine, task lifecycle and order backfill

A Dafny model of a small Flask task-management application backed by
MongoDB, and of its one-off migration script that numbers each user's
tasks.

The two collections, `users` and `tasks`, are modelled as an in-memory
store: a class `Db` holding sequences of user and task documents, in the
store's natural order. The optional fields of legacy task documents are
explicit `Option`s: `category`, `completed` and `order` may be missing, and
`due_date` may be null.

Modules (by file):

- `records.dfy` (`Records`): the user and task documents, identifiers, and
  the completion flag as the toggle route reads it.
- `tags.dfy` (`Tags`): tag parsing, `[tag.strip() for tag in input.split(',') if tag.strip()]`.
  This covers Python's `str.strip()` with the full `str.isspace()` set,
  `str.split(',')` and the filtering comprehension. The lemmas show that the
  parse yields exactly one trimmed tag per non-blank piece, in input order,
  and that joining tags and parsing them again gives the same tags.
- `sorting.dfy` (`Sorting`): the lexicographic comparator over a list of sort
  keys (`created_at`, `title`, `due_date`, each ascending or descending), with
  proofs that it is a total preorder. It also holds a stable insertion sort,
  which stands for `find(...).sort(...)`.
- `queries.dfy` (`Queries`): query documents, MongoDB's matching of a
  document against them, and `find`. It models the listing route's query
  construction (`tasks()`) and its sort-key selection, plus the
  case-insensitive title match of the search route.
- `task_manager.dfy` (`TaskManager`): the class `Db` and the route handlers:
  - registration with its duplicate check, and login;
  - the listing, with the user's distinct tags, and the search;
  - creating, viewing, editing, toggling and deleting a task, each scoped to
    the signed-in user, who is passed explicitly.
- `add_order_field.dfy` (`AddOrderField`): the migration, as the nested loop
  the script runs. It is proved to produce `Backfilled(old tasks, users)`,
  a task-by-task specification. The lemmas about `Backfilled` state its
  positions, idempotence, distinctness, creation order and density. They
  also show that a filled-in order can repeat an existing one.

Where the code does less than its comments or names suggest, the model
follows the code:

- The migration numbers each user's tasks by creation time
  (add_order_field.py:19-26), but it counts every task of the owner, including
  those that already have an `order`, and it never rewrites an existing value.
  So a filled-in value can equal an existing one
  (`AddOrderField.BackfillCanRepeatExistingOrder`). Filled-in values are
  distinct from each other (`AddOrderField.BackfillDistinct`), so all of a
  user's orders are unique when none of the user's tasks had `order` before;
  they are then exactly 1..N (`AddOrderField.BackfillOnto`).
- The comment at app.py:147 says the due-date sort puts missing dates last.
  The code passes only `[('due_date', 1), ('created_at', -1)]` (app.py:149) and
  leaves the placement of missing dates to the store. In the model, that
  placement is a parameter (`nullsLow`) of the comparator.
- The create route writes no `order` (app.py:207-220), so a new task has none
  until the migration runs again (`TaskManager.CreatedFacts`).
- The routes take the title as sent (app.py:183, 247) and do not check that it
  is non-empty; the model does not either.

## Model

| member | source | states |
|---|---|---|
| Records.IsCompleted | app.py:310 | `task.get('completed', False)`: a missing flag reads as false (its properties are TaskManager.Toggled and ToggleTwice) |
| Tags.Strip | app.py:205 | the stripped text neither starts nor ends with white space |
| Tags.StripSlice | app.py:189 | the stripped text is the input with a blank prefix and a blank suffix cut off |
| Tags.StripEmpty | app.py:189 | stripping leaves nothing exactly when the piece is blank, which is the comprehension's `if tag.strip()` test |
| Tags.StripInside | app.py:189 | stripping introduces no character, so a comma-free piece strips to a comma-free tag |
| Tags.StripTrimmed | app.py:189 | a string without surrounding white space strips to itself, so stripping is idempotent |
| Tags.StripSpaceCons | app.py:189 | a leading white-space character does not change the stripped form |
| Tags.Split | app.py:189 | splitting always yields at least one piece |
| Tags.SplitPieces | app.py:189 | no piece contains the separator |
| Tags.JoinSplit | app.py:189 | rejoining the pieces with ',' gives back the input, so no character is lost |
| Tags.SplitNoComma | app.py:189 | comma-free input is a single piece |
| Tags.SplitComma | app.py:189 | a leading comma yields an empty first piece |
| Tags.SplitConcat | app.py:189 | the pieces of `a + "," + b` are the pieces of `a` followed by those of `b` |
| Tags.SplitCons | app.py:189 | a non-comma character extends the first piece |
| Tags.ParseTags | app.py:189 | every tag returned is non-empty, trimmed and comma-free |
| Tags.KeepNonBlank | app.py:189 | the comprehension's `tag.strip()` for each piece, kept when `if tag.strip()` holds, in piece order (its properties are KeepNonBlankTags and KeepNonBlankConcat) |
| Tags.KeepNonBlankTags | app.py:189 | the pieces the comprehension keeps are valid tags |
| Tags.KeepNonBlankConcat | app.py:189 | filtering is done piece by piece, in order |
| Tags.ParseTagsConcat | app.py:189 | the tags of `a + "," + b` are those of `a` followed by those of `b` |
| Tags.ParseTagsPiece | app.py:189 | one comma-free piece gives no tag if blank and its stripped form otherwise; with ParseTagsConcat this is one tag per non-blank piece, in input order |
| Tags.ParseTagsBlank | app.py:189 | blank input gives no tags |
| Tags.ParseTagsSpaceCons | app.py:189 | one leading white-space character does not change the tags |
| Tags.ParseTagsBlankPrefix | app.py:189 | white space in front of the input does not change the tags |
| Tags.ParseJoinRoundTrip | app.py:254 | valid tags joined by ',' (with any white space after each comma) parse back to the same tags |
| Tags.ParseTagsStable | app.py:254 | re-parsing the comma-joined tags of any input gives the same tags |
| Sorting.CmpInt | app.py:144 | the sign of the comparison is the order of the two integers |
| Sorting.CmpStr | app.py:146 | the string comparison yields -1, 0 or 1 |
| Sorting.CmpStrMeaning | app.py:146 | the string comparison is negative exactly for lexicographically smaller titles and zero exactly for equal ones |
| Sorting.LexLessTail | app.py:146 | lexicographic order of strings with the same first character is that of their tails |
| Sorting.CmpStrAntisym | app.py:146 | swapping the titles negates the comparison |
| Sorting.CmpStrTrans | app.py:146 | title order is transitive |
| Sorting.CmpDue | app.py:149 | two due dates compare by date; two missing dates are equal; a missing date goes before or after a present one depending on `nullsLow` |
| Sorting.CmpField | app.py:149 | a single field comparison yields -1, 0 or 1 |
| Sorting.CmpFieldAntisym | app.py:149 | swapping the documents negates a field comparison |
| Sorting.CmpFieldTrans | app.py:149 | a field comparison is transitive |
| Sorting.CmpKeyTrans | app.py:149 | a key comparison, ascending or descending, is transitive, both strictly and for ties |
| Sorting.CmpKey | app.py:144-151 | a sort key with direction `1` compares the field ascending and `-1` compares it with the two tasks swapped (its properties are CmpKeyTrans and, through Compare, CompareAntisym) |
| Sorting.Compare | app.py:154 | the lexicographic comparison over a key list yields -1, 0 or 1 |
| Sorting.CompareAntisym | app.py:154 | swapping the documents negates the comparison over any key list |
| Sorting.CompareTrans | app.py:154 | the comparison over any key list is transitive, so every sort order is a total preorder |
| Sorting.Insert | app.py:154 | inserting into a sorted list keeps it sorted and adds exactly the one document |
| Sorting.Sort | app.py:154 | the result is in key order and is a permutation of the input |
| Queries.OwnerQuery | app.py:175 | the query `{'user_id': uid}` matches exactly the tasks owned by `uid` |
| Queries.EmptyPatternMatches | app.py:173-175 | the empty pattern matches every title |
| Queries.PatternCaseIrrelevant | app.py:171 | folding the search pattern to lower case changes neither whether nor where it matches a title, so the letter case of the pattern does not matter |
| Queries.Find | app.py:154 | `find(query).sort(keys)`: the matching documents, sorted by the keys (its properties follow from Select and Sorting.Sort) |
| Queries.SortOrder | app.py:142-151 | the key list for the `sort` argument: `[created_at asc]` for 'oldest', `[title asc]` for 'alphabetical', `[due_date asc, created_at desc]` for 'due_date', `[created_at desc]` otherwise (stated as orders by OldestOrder, AlphabeticalOrder, DueDateOrder and NewestOrder) |
| Queries.ContainsIgnoreCase | app.py:171 | the `$regex` match with option `'i'`: the pattern occurs somewhere in the title, letters compared after ASCII case folding (its properties are EmptyPatternMatches and PatternCaseIrrelevant) |
| Queries.MatchesCategory | app.py:128-136 | the category condition: none, `{'category': name}`, or the `$or` of category 'general' and a missing `category` field (app.py:131-134) |
| Queries.Matches | app.py:115-140 | MongoDB's matching of a task against the query document: every present key must hold (owner, `completed`, priority, category, tag membership in the `tags` array, title pattern); a task with no `completed` field equals neither true nor false, so neither the completed nor the pending filter selects it (app.py:117-120); its properties are OwnerQuery, Select and BuildListingQuery |
| Queries.Select | app.py:154 | `find` keeps every matching document with its multiplicity and nothing else |
| Queries.BuildListingQuery | app.py:115-140 | the query keeps the user scope; a task matches it exactly when it passes every filter that is not 'all' (conditions AND-combined, the 'general' category matching a missing category too, a tag being list membership) |
| Queries.OldestOrder | app.py:143-144 | under 'oldest' a task comes strictly first exactly when it was created earlier, and ties exactly on equal creation times |
| Queries.NewestOrder | app.py:150-151 | under any value other than the three named ones, a task comes strictly first exactly when it was created later |
| Queries.AlphabeticalOrder | app.py:145-146 | under 'alphabetical' a task comes strictly first exactly when its title is lexicographically smaller |
| Queries.DueDateOrder | app.py:147-149 | under 'due_date' a task comes strictly first exactly when its due date is earlier, or the due dates are equal and it is newer |
| Queries.MissingDueDatePlacement | app.py:147-149 | in a due-date-sorted listing, undated tasks stand before every dated one when `nullsLow` holds and after every dated one otherwise |
| TaskManager.Toggled | app.py:310-313 | the completion flag as read (a missing one as false) is flipped and stored, `updated_at` is set, and nothing else changes |
| TaskManager.ToggleTwice | app.py:310-313 | toggling twice restores the completion state as read; besides `updated_at`, a missing `completed` field becomes an explicit false, which the pending filter then matches |
| TaskManager.ToggleTwiceMakesPending | app.py:117-120 | a task with no `completed` field is not shown by `filter=pending`, but after two toggles it is |
| TaskManager.Edited | app.py:247-286 | an edit keeps the identifier, the owner, `created_at` and `order`, and stores only valid tags |
| TaskManager.ReadDueDate | app.py:192-199 | an empty or absent due date is no date; otherwise the date parser decides, and a string it rejects is the error case (CreatedFacts, NewTask and EditTask state the consequences) |
| TaskManager.Created | app.py:207-220 | the `task_data` document inserted by the create route (its properties are CreatedFacts) |
| TaskManager.CreatedFacts | app.py:183-220 | a new task is the caller's, has the form's title and date, starts incomplete and not under review, has priority 'medium' and category 'general' unless the form gives them, has no `order`, has clean tags and trimmed notes, and carries the two clock readings as `created_at` and `updated_at` |
| TaskManager.UserTagsStep | app.py:157 | the user's tag set grows task by task along the store |
| TaskManager.RemoveKeepsUnique | app.py:297 | deleting one task keeps task identifiers unique |
| TaskManager.AppendKeepsUnique | app.py:222 | inserting a task with a fresh identifier keeps task identifiers unique |
| TaskManager.UpdateKeepsUnique | app.py:288 | an update that keeps the identifier keeps task identifiers unique |
| TaskManager.Db.FindUser | app.py:54 | `find_one` by username or email returns the first such user, and nothing exactly when there is none |
| TaskManager.Db.FindTask | app.py:231 | `find_one` by identifier, optionally with owner, returns the first match, and nothing exactly when there is none |
| TaskManager.Db.Register | app.py:72-85 | registration fails exactly when the username or the email is taken, and then leaves the users unchanged; otherwise one user with a fresh identifier is appended; usernames and emails stay unique |
| TaskManager.Db.Login | app.py:54-60 | login succeeds exactly when a user with that username passes the password check, returns that user, and otherwise reports one undifferentiated error |
| TaskManager.Db.ListTasks | app.py:106-157 | the listing holds exactly the user's tasks that pass every filter, each as often as stored, sorted by the chosen order; the tag list is the user's distinct tags without repetition |
| TaskManager.Db.DistinctTags | app.py:157 | the result lists each tag of the user's tasks exactly once and no other |
| TaskManager.Db.SearchTasks | app.py:164-177 | the result holds exactly the user's tasks whose title contains the pattern ignoring case (all of them for an empty pattern), newest first |
| TaskManager.Db.ViewTask | app.py:231-236 | a task is returned exactly when the caller owns one with that identifier, and it is that task |
| TaskManager.Db.Insert | app.py:222 | `insert_one` appends the document and keeps the store valid |
| TaskManager.Db.SetOrder | add_order_field.py:26 | `update_one` by identifier sets `order` on the task with that identifier and changes nothing else |
| TaskManager.Db.NewTask | app.py:181-224 | an unparseable due date fails and stores nothing; otherwise exactly one task with a fresh identifier is appended, with the form's values and the defaults; clean tags and registered owners are preserved |
| TaskManager.Db.EditTask | app.py:240-290 | a task the caller does not own is not found; an unparseable due date fails; either failure leaves the store unchanged; the edit succeeds exactly when the caller owns the task and the date parses, and then only the task with that identifier is rewritten with the form's fields |
| TaskManager.Db.ToggleTask | app.py:307-316 | the caller's task with that identifier is toggled and every other task is unchanged; a foreign or missing identifier changes nothing |
| TaskManager.Db.DeleteTask | app.py:296-303 | deletion succeeds exactly when the caller owns a task with that identifier, and then removes exactly that one task; otherwise the store is unchanged |
| AddOrderField.OwnerTasksByAge | add_order_field.py:22 | one user's tasks by ascending creation time (its properties are OwnList, OwnListUnique and OwnerListOf) |
| AddOrderField.Position | add_order_field.py:24 | the 1-based index `enumerate(tasks, start=1)` gives a task in its owner's list (stated by BackfillPosition) |
| AddOrderField.IndexOfId | add_order_field.py:24 | the index of the first task with the identifier, or the length of the list when there is none |
| AddOrderField.Backfill | add_order_field.py:24-26 | only `order` is ever written; a task that has an `order`, or whose owner is not a user, is left as it is; a registered user's task ends with an `order` |
| AddOrderField.Backfilled | add_order_field.py:20-26 | the migrated store has the same length and is the per-task migration of the original at every index |
| AddOrderField.OwnList | add_order_field.py:22 | the owner's list holds exactly the owner's stored tasks |
| AddOrderField.OwnListUnique | add_order_field.py:22 | the owner's list inherits unique identifiers from the store |
| AddOrderField.OwnerListOf | add_order_field.py:22 | the owner's list is creation-ordered, has unique identifiers and holds exactly the owner's tasks |
| AddOrderField.SortedPositions | add_order_field.py:22 | in a creation-ordered list, a task created strictly earlier sits strictly earlier |
| AddOrderField.OldestFirst | add_order_field.py:22 | an owner's strictly oldest task heads the owner's list |
| AddOrderField.SelectAgree | add_order_field.py:22 | two stores of equal length, with the same owner at every index and the same task wherever that owner is `uid`, give `uid` the same list |
| AddOrderField.PartialOwnList | add_order_field.py:22 | the list the loop reads for the next user is that user's list in the original store, since earlier users' updates do not touch it |
| AddOrderField.StageStep | add_order_field.py:24-26 | one iteration of the inner loop writes `j + 1` exactly into the `j`-th listed task, and only when it lacks `order` |
| AddOrderField.AddOrderField | add_order_field.py:20-26 | after the nested loop the task store is `Backfilled` of the original store, and the users are unchanged |
| AddOrderField.NumberUserTasks | add_order_field.py:21-26 | the inner loop over one user's enumerated list completes that user's part of the migration |
| AddOrderField.NumberTask | add_order_field.py:25-26 | one round of the inner loop advances the migration by one listed task |
| AddOrderField.BackfillPosition | add_order_field.py:22-26 | a registered user's task that lacked `order` receives its 1-based position `n` in the owner's creation-ordered list, the list counting every task of the owner |
| AddOrderField.BackfillIdempotent | add_order_field.py:25 | running the migration a second time changes nothing |
| AddOrderField.BackfillDistinct | add_order_field.py:22-26 | two different tasks of one registered owner that both lacked `order` receive different orders |
| AddOrderField.BackfillIncreasing | add_order_field.py:22-26 | of two such tasks, the one created earlier receives the smaller order |
| AddOrderField.BackfillOnto | add_order_field.py:22-26 | when none of a user's N tasks had `order`, every value from 1 to N is given to one of them, so their orders are exactly 1..N |
| AddOrderField.BackfillCanRepeatExistingOrder | add_order_field.py:24-26 | an owner's oldest task, lacking `order`, receives 1 even when a newer task of the owner already has 1, so orders need not be unique |

## Left out

- Flask routing, templates, `flash`, redirects, the session and the login manager are not modelled; the signed-in user is a parameter. The GET branches that only render a form are left out too.
- The database connection, TLS and environment lookup are I/O and are not modelled, nor is the connectivity check script.
- bcrypt is a foreign library: the stored hash is an opaque value, and the password check is a parameter of `Login`. Registration takes the hash as an argument.
- The clock (`datetime.utcnow()`) is a parameter for each reading: the create route reads it twice, so `NewTask` takes two values (`created`, `updated`), while the edit, toggle and registration read it once (`now`). Date parsing (`strptime(s, '%Y-%m-%d')`) is a parameter `parseDate` returning an optional date.
- Queries.ContainsIgnoreCase: the search pattern is a regular expression in the code; the model treats it as a literal substring with ASCII case folding, which is exact only for patterns without metacharacters or Unicode case.
- Sorting.CmpDue: where missing due dates sort is left to the store by the code, so the model takes it as the parameter `nullsLow` and proves no fixed placement.
- Sorting.Sort: the order of tasks with equal sort keys is store-defined; the model keeps them in store order. TaskManager.Db.ListTasks and TaskManager.Db.SearchTasks promise only key order and exact contents, which is all the code fixes. AddOrderField.Backfilled and AddOrderField.BackfillPosition inherit this tie-break: tasks of one owner with equal `created_at` get their exact `order` values in store order, which the store does not promise; BackfillDistinct, BackfillIncreasing, BackfillOnto and BackfillIdempotent hold whatever the tie order.
- The pending filter matches only tasks whose `completed` field is present and false, while the toggle reads a missing flag as false; the model keeps both behaviours as written. So two toggles of a task without `completed` make it pending (`TaskManager.ToggleTwiceMakesPending`).
- TaskManager.Db.NewTask requires the caller to be a registered user, which the login requirement of the route guarantees in the application.
- A malformed task identifier makes `ObjectId(task_id)` raise; identifiers are naturals in the model, so that error path is not modelled.
- `update_one({'_id': ...})` updates the first matching document; with unique identifiers (an invariant of `Db`) this is the only one, and the model's updates are stated for every task carrying that identifier.
- Concurrency between the migration and live requests is not modelled; the migration runs alone over a fixed store.
- Requests are modelled one at a time. TaskManager.Db.Register checks for an existing username or email and then inserts (app.py:72-80) without atomicity, so two concurrent registrations can both pass the check; the uniqueness of usernames and emails in `Db.Valid()`, which Login relies on, holds only for requests handled one after another.
- The migration's cursor over `users` and each sorted task list are computed values in the model, not lazy cursors over a changing store.
