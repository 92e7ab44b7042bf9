/**
 * Task rows and the order in which they are listed: by priority rank
 * (High = 1, Medium = 2, Low = 3), then by deadline, earliest first.
 *
 * The database sorts with `ORDER BY <rank>, deadline ASC`; here the order is
 * a total preorder on tasks and the listing is an insertion sort under it.
 * Rows that tie on both keys may come out in any order in the database; the
 * sort here keeps their table order, which is one of the allowed answers.
 */
module Ranking {
  import opened Wrappers
  import opened Dates

  datatype Priority = High | Medium | Low

  /** A task row. `userId` is the owner; `body` may be absent. */
  datatype Task = Task(
    id: int,
    name: string,
    body: Option<string>,
    deadline: Instant,
    priority: Priority,
    progress: int,
    userId: int)

  /** The `case(...)` expression of the ordering. */
  function PriorityRank(p: Priority): int
  {
    match p
    case High => 1
    case Medium => 2
    case Low => 3
  }

  /** `a` may be listed before `b`: smaller rank, or equal rank and no later deadline. */
  predicate Precedes(a: Task, b: Task)
  {
    PriorityRank(a.priority) < PriorityRank(b.priority)
    || (PriorityRank(a.priority) == PriorityRank(b.priority) && a.deadline <= b.deadline)
  }

  /** The listing order is a total preorder: reflexive, total and transitive. */
  lemma PrecedesIsTotalPreorder(a: Task, b: Task, c: Task)
    ensures Precedes(a, a)
    ensures Precedes(a, b) || Precedes(b, a)
    ensures Precedes(a, b) && Precedes(b, c) ==> Precedes(a, c)
  {
  }

  predicate Sorted(s: seq<Task>)
  {
    forall i, j :: 0 <= i < j < |s| ==> Precedes(s[i], s[j])
  }

  /** Task ids are a primary key. */
  predicate UniqueTaskIds(s: seq<Task>)
  {
    forall i, j :: 0 <= i < j < |s| ==> s[i].id != s[j].id
  }

  predicate HasTaskId(s: seq<Task>, id: int)
  {
    exists i :: 0 <= i < |s| && s[i].id == id
  }

  /** `filter_by(user_id=uid)`: the rows owned by `uid`, in table order. */
  function TasksOf(s: seq<Task>, uid: int): (r: seq<Task>)
    ensures forall t :: t in r <==> t in s && t.userId == uid
    ensures forall t :: multiset(r)[t] == if t.userId == uid then multiset(s)[t] else 0
  {
    if s == [] then []
    else
      var rest := TasksOf(s[1..], uid);
      assert s == [s[0]] + s[1..];
      if s[0].userId == uid then [s[0]] + rest else rest
  }

  /** A task that may precede every task of a sorted list may head it. */
  lemma SortedCons(x: Task, s: seq<Task>)
    requires Sorted(s)
    requires forall y :: y in s ==> Precedes(x, y)
    ensures Sorted([x] + s)
  {
    var r := [x] + s;
    forall i, j | 0 <= i < j < |r| ensures Precedes(r[i], r[j]) {
      if i > 0 {
        assert r[i] == s[i - 1] && r[j] == s[j - 1];
      } else {
        assert r[j] == s[j - 1];
      }
    }
  }

  /** Insert one task in front of the first task it may precede. */
  function Insert(t: Task, s: seq<Task>): (r: seq<Task>)
    requires Sorted(s)
    ensures Sorted(r)
    ensures multiset(r) == multiset(s) + multiset{t}
  {
    if s == [] then [t]
    else if Precedes(t, s[0]) then
      SortedCons(t, s);
      [t] + s
    else
      var head, tail := s[0], s[1..];
      assert s == [head] + tail;
      var rest := Insert(t, tail);
      forall y | y in rest ensures Precedes(head, y) {
        assert y in multiset(rest);
        if y != t {
          assert y in multiset(tail);
          var k :| 0 <= k < |tail| && tail[k] == y;
          assert s[k + 1] == y;
        }
      }
      SortedCons(head, rest);
      [head] + rest
  }

  /** Insertion sort under `Precedes`. */
  function Sort(s: seq<Task>): (r: seq<Task>)
    ensures Sorted(r)
    ensures multiset(r) == multiset(s)
  {
    if s == [] then []
    else
      assert s == [s[0]] + s[1..];
      Insert(s[0], Sort(s[1..]))
  }

  /**
   * The ranked task list of user `uid`: a sorted permutation of exactly the
   * tasks owned by `uid`.
   */
  function Ranked(s: seq<Task>, uid: int): (r: seq<Task>)
    ensures Sorted(r)
    ensures multiset(r) == multiset(TasksOf(s, uid))
    ensures forall t :: t in r <==> t in s && t.userId == uid
  {
    var owned := TasksOf(s, uid);
    var r := Sort(owned);
    assert forall t :: t in r <==> t in owned by {
      forall t ensures t in r <==> t in owned {
        assert t in r <==> t in multiset(r);
        assert t in owned <==> t in multiset(owned);
      }
    }
    r
  }

  /**
   * In a sorted list a task of smaller rank is always listed first, whatever
   * the deadlines; within one rank an earlier deadline is listed first.
   */
  lemma {:induction false} SortedRespectsKeys(s: seq<Task>, i: int, j: int)
    requires Sorted(s)
    requires 0 <= i < |s| && 0 <= j < |s|
    ensures PriorityRank(s[i].priority) < PriorityRank(s[j].priority) ==> i < j
    ensures PriorityRank(s[i].priority) == PriorityRank(s[j].priority) && s[i].deadline < s[j].deadline ==> i < j
  {
    if j < i {
      assert Precedes(s[j], s[i]);
    }
  }

  /** A High task comes before a Low task in every ranked list. */
  lemma HighBeforeLow(s: seq<Task>, uid: int)
    ensures var r := Ranked(s, uid);
      forall i, j :: 0 <= i < |r| && 0 <= j < |r| && r[i].priority == High && r[j].priority == Low ==> i < j
  {
    var r := Ranked(s, uid);
    forall i, j | 0 <= i < |r| && 0 <= j < |r| && r[i].priority == High && r[j].priority == Low
      ensures i < j
    {
      SortedRespectsKeys(r, i, j);
    }
  }

  /**
   * A High task created after a Low one, with a later deadline, is still
   * listed first.
   */
  lemma HighFirstDespiteLaterDeadline(low: Task, high: Task)
    requires low.priority == Low && high.priority == High
    requires low.userId == high.userId
    requires low.deadline < high.deadline
    ensures Ranked([low, high], high.userId) == [high, low]
  {
    assert [low, high][1..] == [high];
    assert TasksOf([low, high], high.userId) == [low, high];
  }

  /**
   * The "top" task of a user: the first of the ranked list (`.first()`), or
   * nothing when the user has no task. It is one of the user's tasks and
   * precedes every other one.
   */
  function Top(s: seq<Task>, uid: int): (r: Option<Task>)
    ensures r.Some? <==> exists t :: t in s && t.userId == uid
    ensures r.Some? ==> r.value in s && r.value.userId == uid
    ensures r.Some? ==> forall t :: t in s && t.userId == uid ==> Precedes(r.value, t)
  {
    var ranked := Ranked(s, uid);
    if ranked == [] then None
    else
      assert ranked[0] in ranked;
      assert forall t :: t in ranked ==> Precedes(ranked[0], t) by {
        forall t | t in ranked ensures Precedes(ranked[0], t) {
          var k :| 0 <= k < |ranked| && ranked[k] == t;
          if k == 0 {
            assert Precedes(t, t);
          }
        }
      }
      Some(ranked[0])
  }

  /** The rows other than the one with id `id`, in table order (`db.session.delete`). */
  function Without(s: seq<Task>, id: int): (r: seq<Task>)
    ensures forall t :: t in r <==> t in s && t.id != id
  {
    if s == [] then []
    else
      assert s == [s[0]] + s[1..];
      var rest := Without(s[1..], id);
      if s[0].id == id then rest else [s[0]] + rest
  }

  /** An id occurs in a non-empty table when it heads it or occurs in the rest. */
  lemma HasTaskIdCons(s: seq<Task>, id: int)
    requires s != []
    ensures HasTaskId(s, id) <==> s[0].id == id || HasTaskId(s[1..], id)
  {
    if HasTaskId(s[1..], id) {
      var k :| 0 <= k < |s[1..]| && s[1..][k].id == id;
      assert s[k + 1].id == id;
    }
    if HasTaskId(s, id) && s[0].id != id {
      var k :| 0 <= k < |s| && s[k].id == id;
      assert s[1..][k - 1].id == id;
    }
  }

  /** Unique ids stay unique in the rest of the table, and the head's id is not in it. */
  lemma UniqueTaskIdsCons(s: seq<Task>)
    requires s != [] && UniqueTaskIds(s)
    ensures UniqueTaskIds(s[1..])
    ensures !HasTaskId(s[1..], s[0].id)
    ensures forall t :: t in s[1..] ==> t.id != s[0].id
  {
    var tail := s[1..];
    forall i, j | 0 <= i < j < |tail| ensures tail[i].id != tail[j].id {
      assert tail[i] == s[i + 1] && tail[j] == s[j + 1];
    }
    forall k | 0 <= k < |tail| ensures tail[k].id != s[0].id {
      assert tail[k] == s[k + 1];
    }
  }

  /** Removal keeps every row with another id exactly as often as the table holds it. */
  lemma {:induction false} WithoutCounts(s: seq<Task>, id: int)
    ensures forall t :: multiset(Without(s, id))[t] == if t.id != id then multiset(s)[t] else 0
  {
    if s != [] {
      assert s == [s[0]] + s[1..];
      WithoutCounts(s[1..], id);
    }
  }

  /** Removing an id that no row has changes nothing. */
  lemma {:induction false} WithoutAbsent(s: seq<Task>, id: int)
    requires !HasTaskId(s, id)
    ensures Without(s, id) == s
  {
    if s != [] {
      assert s == [s[0]] + s[1..];
      HasTaskIdCons(s, id);
      WithoutAbsent(s[1..], id);
    }
  }

  /** Removing an id keeps ids unique. */
  lemma {:induction false} WithoutUnique(s: seq<Task>, id: int)
    requires UniqueTaskIds(s)
    ensures UniqueTaskIds(Without(s, id))
  {
    if s != [] {
      UniqueTaskIdsCons(s);
      WithoutUnique(s[1..], id);
      var rest := Without(s[1..], id);
      if s[0].id != id {
        var r := [s[0]] + rest;
        assert Without(s, id) == r;
        assert forall x :: x in rest ==> x.id != s[0].id;
        forall i, j | 0 <= i < j < |r| ensures r[i].id != r[j].id {
          if i == 0 {
            assert r[j] == rest[j - 1];
            assert r[j] in rest;
          } else {
            assert r[i] == rest[i - 1] && r[j] == rest[j - 1];
          }
        }
      }
    }
  }

  /** Removing a present id from a table with unique ids removes exactly one row. */
  lemma {:induction false} WithoutPresent(s: seq<Task>, id: int)
    requires UniqueTaskIds(s) && HasTaskId(s, id)
    ensures |Without(s, id)| == |s| - 1
  {
    UniqueTaskIdsCons(s);
    HasTaskIdCons(s, id);
    if s[0].id == id {
      WithoutAbsent(s[1..], id);
    } else {
      WithoutPresent(s[1..], id);
    }
  }

  /**
   * The id SQLite gives a new task row (an INTEGER PRIMARY KEY without
   * AUTOINCREMENT): one more than the largest id in the table, or 1 when the
   * table is empty. The id of a deleted highest row is therefore reused.
   */
  function NewTaskId(s: seq<Task>): (r: int)
    ensures forall t :: t in s ==> t.id < r
    ensures s == [] ==> r == 1
    ensures s != [] ==> exists t :: t in s && t.id == r - 1
  {
    if s == [] then 1
    else
      assert s == [s[0]] + s[1..];
      var rest := NewTaskId(s[1..]);
      if s[1..] == [] || rest <= s[0].id + 1 then s[0].id + 1 else rest
  }

  /**
   * Tasks 1 and 2 exist and task 2 is deleted: the next task created is
   * given id 2 again.
   */
  lemma DeletedHighestIdReused(a: Task, b: Task)
    requires a.id == 1 && b.id == 2
    ensures Without([a, b], 2) == [a]
    ensures NewTaskId([a, b]) == 3 && NewTaskId(Without([a, b], 2)) == 2
  {
    assert [a, b][1..] == [b];
    assert [b][1..] == [];
    assert [a][1..] == [];
    assert Without([b], 2) == [];
  }

  /** After a task is completed or deleted it is in nobody's ranked list. */
  lemma RemovedTaskNotRanked(s: seq<Task>, id: int, uid: int)
    ensures forall t :: t in Ranked(Without(s, id), uid) ==> t.id != id
  {
  }

  /** Removing a task leaves every other task of every user in that user's ranked list. */
  lemma RemovalKeepsOtherTasks(s: seq<Task>, id: int, uid: int)
    ensures forall t :: t in Ranked(s, uid) && t.id != id ==> t in Ranked(Without(s, id), uid)
  {
  }
}
