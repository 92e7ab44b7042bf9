# Task tracker: counters, ranking and friendship

A model of the core of a small task-tracking web application (`app.py`,
Flask over SQLite). Users sign up and create tasks that have a priority
(High, Medium, Low) and a deadline. Completing a task deletes it and counts
it in a daily and a weekly completion counter, which roll over at JST
midnight and on Mondays. Users send friend requests; an approved request in
either direction makes two users friends, and the personal page shows each
friend's top task.

Modules (one per component of `app.py`):

- `Wrappers`: the `Option` type.
- `Dates`: instants as UTC seconds, JST calendar days as day numbers, the
  Python weekday (Monday = 0) and the Monday of a week.
- `Counters`: the counter triple, the pure reset policy `Reset`, the
  completion step `AfterCompletion`, and the `User` class whose methods
  update the counters in place.
- `Ranking`: task rows, the priority-then-deadline order, the per-user
  filter, the ranked list (an insertion sort), the top task, and row removal.
- `Friendship`: request rows, the approved-requester and approved-target
  lists, the friend set, and the approve/deny decision.
- `Store`: the `Database` class, which holds the three tables, with one
  method per route (`signup`, `create`, `delete`, `complete`,
  `send_request`, `handle_request`, `index`) and the `friend_tasks` view as a
  function.

The clock, the timezone conversion and deadline parsing are parameters.
`today` is the JST date of the call and `now` is the instant stored as the
new reset time. `reset_counters` reads the clock twice, so these are two
separate inputs. The idempotence lemmas assume `JstDate(now) == today`.

The model follows what the code does, including these points:

- A request decided once can be decided again. Approve and deny overwrite
  any status.
- `send_request` also refuses an unknown target username.
- `reset_counters` also does nothing when the stored reset date is *later*
  than today, not only when it equals today.
- `complete` and `delete` do not check who owns the task. `complete` counts
  the completion for the acting user, whoever owns the task.

## Model

| member | source | states |
|---|---|---|
| `Dates.JstDate` | app.py:56 | the JST date of an instant is the day whose 86400-second span holds the instant shifted by +9 hours |
| `Dates.Weekday` | app.py:60 | `weekday()` lies in 0..6 and is the day number plus the epoch's weekday, modulo 7 |
| `Dates.WeekStart` | app.py:60 | `today - timedelta(days=today.weekday())` is a Monday, is no later than today, and is less than seven days before it |
| `Dates.WeekStartUnique` | app.py:60 | any Monday at most six days before a day is that day's week start |
| `Counters.Reset` | app.py:51-67 | the pure reset policy; its properties are stated by `ResetDaily`, `ResetWeekly`, `DailyResetWithinWeek`, `ResetIdempotent` and `ResetKeepsNonNegative` |
| `Counters.AfterCompletion` | app.py:314-317 | the counter step of a completion; its properties are stated by `CompletionCounts`, `SameDayCompletionsAccumulate` and `FirstCompletionOfWeek` |
| `Counters.ResetDaily` | app.py:56-67 | a missing or earlier last reset date zeroes today's counter and sets the reset time to now; otherwise nothing changes |
| `Counters.WeeklyStaleImpliesDailyStale` | app.py:56-64 | a last reset before this week's Monday is also before today, so the nested weekly test is reached whenever it holds |
| `Counters.ResetWeekly` | app.py:60-64 | the weekly counter becomes 0 exactly when the last reset is missing or before this week's Monday, and is kept otherwise |
| `Counters.DailyResetWithinWeek` | app.py:56-67 | a last reset earlier this week zeroes only the daily counter |
| `Counters.ResetIdempotent` | app.py:51-67 | once the reset time lies on today, another reset on the same day changes nothing |
| `Counters.ResetKeepsNonNegative` | app.py:56-64 | resetting keeps both counters non-negative |
| `Counters.CompletionCounts` | app.py:314-317 | completion adds exactly one to both counters after the reset, keeps them non-negative, and leaves today's count at least 1 |
| `Counters.SameDayCompletionsAccumulate` | app.py:314-317 | a second completion on the same day adds one more to both counters and does not reset them |
| `Counters.FirstCompletionOfWeek` | app.py:314-317 | the first completion after a week boundary leaves both counters at 1 |
| `Counters.FridayThenMonday` | app.py:56-67 | a reset on Friday 2025-05-30, evaluated on Monday 2025-06-02, zeroes both counters |
| `Counters.MondayThenWednesday` | app.py:56-67 | a reset on Monday 2025-06-02, evaluated on Wednesday 2025-06-04, zeroes only the daily counter |
| `Counters.User.constructor` | app.py:47-49 | a new user row starts with both counters at 0 and the last reset at the insertion instant |
| `Counters.User.ResetCounters` | app.py:51-67 | the in-place reset leaves the counter columns equal to `Reset` of the old ones and keeps them non-negative |
| `Counters.User.CountCompletion` | app.py:314-317 | the in-place reset plus increments leave the counters equal to `AfterCompletion` of the old ones, with today's count at least 1 |
| `Ranking.PriorityRank` | app.py:112-116 | the `case` mapping High to 1, Medium to 2 and Low to 3; the order it induces is stated by `SortedRespectsKeys` and `HighBeforeLow` |
| `Ranking.Precedes` | app.py:121 | the two-key listing order, rank then deadline; `PrecedesIsTotalPreorder` shows it is a total preorder |
| `Ranking.PrecedesIsTotalPreorder` | app.py:121 | ordering by rank then deadline is reflexive, total and transitive |
| `Ranking.TasksOf` | app.py:121 | `filter_by(user_id=uid)` holds each row owned by `uid` exactly as often as the table does, and no other row |
| `Ranking.Sort` | app.py:112-121 | the ordering yields a list sorted by rank then deadline that is a permutation of its input |
| `Ranking.Ranked` | app.py:112-121 | a user's ranked list is sorted by rank then deadline and is a permutation of exactly that user's tasks |
| `Ranking.SortedRespectsKeys` | app.py:112-121 | in a ranked list a smaller rank always comes first whatever the deadlines, and within one rank an earlier deadline comes first |
| `Ranking.HighBeforeLow` | app.py:112-121 | a High task precedes a Low task in every ranked list |
| `Ranking.HighFirstDespiteLaterDeadline` | app.py:112-121 | a Low task due earlier and a High task due later are ranked High first |
| `Ranking.Top` | app.py:140 | `.first()` of the ranked query exists exactly when the user has a task; it is one of the user's tasks and precedes all of them |
| `Ranking.Without` | app.py:319 | deleting a row by id keeps exactly the rows with a different id |
| `Ranking.WithoutCounts` | app.py:319 | every row with a different id survives exactly as often as the table holds it, and no row with that id survives |
| `Ranking.WithoutAbsent` | app.py:303 | removing an id no row has leaves the table as it was |
| `Ranking.WithoutUnique` | app.py:319 | removal keeps task ids unique |
| `Ranking.WithoutPresent` | app.py:319 | removing a present id removes exactly one row |
| `Ranking.NewTaskId` | app.py:32 | a new task's id is one more than the largest id in the table, or 1 when it is empty, so it differs from every existing id |
| `Ranking.DeletedHighestIdReused` | app.py:32 | after tasks 1 and 2 exist and task 2 is deleted, the next task again gets id 2 |
| `Ranking.RemovedTaskNotRanked` | app.py:319 | a deleted or completed task is in nobody's ranked list afterwards |
| `Ranking.RemovalKeepsOtherTasks` | app.py:319 | every other task stays in its owner's ranked list |
| `Friendship.ApprovedRequesters` | app.py:124-125 | a name is listed exactly when an approved request from that name targets the user |
| `Friendship.ApprovedTargets` | app.py:127-128 | a name is listed exactly when the user sent an approved request to that name |
| `Friendship.Friends` | app.py:131 | the deduplicated union of both lists; `FriendsExactly` and `FriendsSymmetric` state what it holds |
| `Friendship.Decide` | app.py:371-376 | the status an action sets; `DecideNeverReopens` and `Store.Database.HandleRequest` state its effect |
| `Friendship.FriendsExactly` | app.py:124-131 | the deduplicated union holds exactly the names joined to the user by an approved request, in either direction |
| `Friendship.FriendsSymmetric` | app.py:124-131 | B is a friend of A exactly when A is a friend of B |
| `Friendship.DecideNeverReopens` | app.py:371-376 | no action makes a request pending; only approve and deny change the status |
| `Friendship.PendingKeepsFriends` | app.py:339-341 | appending a pending request changes nobody's friend set |
| `Friendship.ApprovalJoins` | app.py:371-372 | approving a request makes its requester and target friends of each other |
| `Friendship.StatusChangeIsLocal` | app.py:365-377 | changing one record's status leaves the friend set of every user outside that pair unchanged |
| `Store.FindUserByName` | app.py:332 | the username lookup finds a user exactly when one has that name, and the user it finds has that name |
| `Store.FindUniqueUser` | app.py:44 | with unique usernames the lookup returns the one user carrying the name |
| `Store.LookupIsSelf` | app.py:336-346 | the target found by name is the acting user exactly when the name is the acting user's own |
| `Store.SignupCheck` | app.py:180-194 | sign-up reports a short username, then a short password, then a mismatch, then a taken name, and accepts exactly when none applies |
| `Store.FriendTop` | app.py:136-143 | a friend's top task exists exactly when the friend exists and owns a task; it is theirs and precedes all their tasks |
| `Store.UserTaskList` | app.py:153-169 | the friend page exists exactly for an existing username and lists exactly that user's tasks, ranked |
| `Store.FindRequest` | app.py:366 | the id lookup finds a record with that id, or reports that none has it |
| `Store.Database.Signup` | app.py:174-200 | a refused sign-up writes nothing; an accepted one appends one fresh user with the given name, zero counters and now as last reset |
| `Store.Database.CreateTask` | app.py:240-263 | an unparsable deadline writes nothing; otherwise one task owned by the acting user is appended, with the id SQLite assigns (`NewTaskId`) |
| `Store.Database.DeleteTask` | app.py:298-305 | the task with that id, if any, is removed and nothing else changes |
| `Store.Database.Complete` | app.py:307-321 | with the task present, the acting user's counters become `AfterCompletion` of the old ones and exactly that task is removed; with it absent, nothing changes; other users' counters never change |
| `Store.Database.SendRequest` | app.py:326-349 | an unknown target or a self-request writes nothing; otherwise exactly one pending record from the actor to the target is appended |
| `Store.Database.HandleRequest` | app.py:358-378 | the record with that id gets status approved or denied by the action, or keeps it for any other action; a missing id and all other records are left alone |
| `Store.Database.MyPage` | app.py:108-146 | the page shows the actor's ranked tasks, the friend set, and a map whose keys are exactly the friends with a top task, each mapped to that task |

## Left out

- The web layer: routing, templates, `flash`, redirects and login sessions.
  The acting user is passed in as a row of the user table.
- The ORM and SQLite. The tables are sequences. A new task gets SQLite's
  rowid, one more than the largest id present, so the id of a deleted
  highest task is reused. Users and requests are never deleted, so for them
  a per-table counter gives the same ids. SQLite's random rowid once the
  largest id reaches 2^63 - 1 is not modelled.
- Password hashing and the login route. These are opaque library calls. The
  stored password is not modelled.
- Reading the clock, the `pytz` conversion and `strptime`. JST is a fixed
  +9 hour offset. A deadline that fails to parse is `None`.
- Timestamps lose their timezone when they are stored in SQLite and read
  back. The model assumes the stored reset instant keeps its meaning.
- Priority values other than High, Medium and Low. The ordering has no ELSE
  branch, so such values would sort by SQLite's NULL rules, which the source
  does not show.
- `Ranking.Sort`: rows that tie on both priority and deadline come out in an
  order SQL leaves unspecified. The model keeps their table order, which is
  one of the allowed answers.
- Missing form fields. These raise or produce `None` before any write. A
  request id that is not an integer behaves like an id that no record has.
- Column length limits (`String(18)`, `String(12)`). SQLite does not enforce
  them.
- The `update` and `nickname` routes, the unused `complete_task` method, the
  GET listing of all requests, and the `friend_user` value handed to the
  page template.
- Two `complete` requests can race on the same counters. Concurrency is not
  modelled.
