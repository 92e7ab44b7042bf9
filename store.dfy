/**
 * The three tables (users, tasks, friend requests) and the operations the
 * routes perform on them: sign-up, task creation, deletion and completion,
 * sending and deciding friend requests, and the two read-only pages that
 * list ranked tasks.
 *
 * The acting user is the logged-in user, so every operation that acts for a
 * user is given that user's row. Clocks and parsing are parameters.
 */
module Store {
  import opened Wrappers
  import opened Dates
  import opened Counters
  import opened Ranking
  import opened Friendship

  /** Why sign-up refused, in the order the checks are made. */
  datatype SignupError = UsernameTooShort | PasswordTooShort | PasswordMismatch | UsernameTaken

  /** The three ends of `send_request`. */
  datatype SendOutcome = Sent | SelfRequest | UserNotFound

  /** Minimum length of a username and of a password at sign-up. */
  const MinCredentialLength: int := 8

  /** User ids and usernames are both unique. */
  predicate UniqueUsers(us: seq<User>)
  {
    forall i, j :: 0 <= i < j < |us| ==> us[i].id != us[j].id && us[i].username != us[j].username
  }

  /** `User.query.filter_by(username=name).first()`. */
  function FindUserByName(us: seq<User>, name: string): (r: Option<User>)
    ensures r.Some? <==> exists i :: 0 <= i < |us| && us[i].username == name
    ensures r.Some? ==> r.value in us && r.value.username == name
  {
    if us == [] then None
    else if us[0].username == name then Some(us[0])
    else
      var r := FindUserByName(us[1..], name);
      assert forall i :: 0 < i < |us| ==> us[i] == us[1..][i - 1];
      r
  }

  /**
   * With unique usernames and ids, looking a name up yields the acting user
   * exactly when the name is the acting user's own.
   */
  lemma LookupIsSelf(us: seq<User>, actor: User, name: string)
    requires UniqueUsers(us) && actor in us
    ensures FindUserByName(us, name).Some? && FindUserByName(us, name).value.id == actor.id
        <==> name == actor.username
  {
    var r := FindUserByName(us, name);
    var a :| 0 <= a < |us| && us[a] == actor;
    if name == actor.username {
      assert r.Some?;
      var k :| 0 <= k < |us| && us[k] == r.value;
      assert k == a;
    }
    if r.Some? && r.value.id == actor.id {
      var k :| 0 <= k < |us| && us[k] == r.value;
      assert k == a;
    }
  }

  /** With unique usernames, the lookup finds the one user with that name. */
  lemma {:induction false} FindUniqueUser(us: seq<User>, name: string)
    requires UniqueUsers(us)
    ensures forall u :: u in us && u.username == name ==> FindUserByName(us, name) == Some(u)
  {
    if us != [] && us[0].username != name {
      var tail := us[1..];
      assert UniqueUsers(tail) by {
        forall i, j | 0 <= i < j < |tail| ensures tail[i].id != tail[j].id && tail[i].username != tail[j].username {
          assert tail[i] == us[i + 1] && tail[j] == us[j + 1];
        }
      }
      FindUniqueUser(tail, name);
      forall u | u in us && u.username == name ensures u in tail {
        var k :| 0 <= k < |us| && us[k] == u;
        assert k != 0;
        assert tail[k - 1] == u;
      }
    } else if us != [] {
      forall u | u in us && u.username == name ensures u == us[0] {
        var k :| 0 <= k < |us| && us[k] == u;
        assert k == 0;
      }
    }
  }

  /** The validation sequence of `signup`: the first check that fails is reported. */
  function SignupCheck(us: seq<User>, username: string, password: string, passwordCheck: string)
    : (r: Option<SignupError>)
    ensures r == Some(UsernameTooShort) <==> |username| < MinCredentialLength
    ensures r == Some(PasswordTooShort) <==>
      |username| >= MinCredentialLength && |password| < MinCredentialLength
    ensures r == Some(PasswordMismatch) <==>
      |username| >= MinCredentialLength && |password| >= MinCredentialLength && password != passwordCheck
    ensures r.None? <==>
      |username| >= MinCredentialLength && |password| >= MinCredentialLength && password == passwordCheck
      && forall u :: u in us ==> u.username != username
  {
    if |username| < MinCredentialLength then Some(UsernameTooShort)
    else if |password| < MinCredentialLength then Some(PasswordTooShort)
    else if password != passwordCheck then Some(PasswordMismatch)
    else if FindUserByName(us, username).Some? then Some(UsernameTaken)
    else None
  }

  /**
   * The top task shown for a friend on the personal page: the friend must
   * exist and own at least one task, and then it is the first of their
   * ranked list.
   */
  function FriendTop(us: seq<User>, ts: seq<Task>, name: string): (r: Option<Task>)
    requires UniqueUsers(us)
    ensures r.Some? <==> exists u, t :: u in us && u.username == name && t in ts && t.userId == u.id
    ensures r.Some? ==> exists u :: u in us && u.username == name && r.value in ts && r.value.userId == u.id
                          && forall t :: t in ts && t.userId == u.id ==> Precedes(r.value, t)
  {
    match FindUserByName(us, name)
    case None => None
    case Some(u) =>
      FindUniqueUser(us, name);
      Top(ts, u.id)
  }

  /** The `friend_tasks` page: every task of the named user, ranked, or nothing if no such user. */
  function UserTaskList(us: seq<User>, ts: seq<Task>, name: string): (r: Option<seq<Task>>)
    ensures r.Some? <==> exists u :: u in us && u.username == name
    ensures r.Some? ==> exists u :: u in us && u.username == name && Sorted(r.value)
                          && multiset(r.value) == multiset(TasksOf(ts, u.id))
                          && forall t :: t in r.value <==> t in ts && t.userId == u.id
  {
    match FindUserByName(us, name)
    case None => None
    case Some(u) => Some(Ranked(ts, u.id))
  }

  /** `Request.query.get(id)`: the position of the request with that id, if any. */
  function FindRequest(s: seq<FriendRequest>, id: int): (r: Option<nat>)
    ensures r.Some? ==> r.value < |s| && s[r.value].id == id
    ensures r.None? <==> forall k :: 0 <= k < |s| ==> s[k].id != id
  {
    if s == [] then None
    else if s[0].id == id then Some(0)
    else
      match FindRequest(s[1..], id)
      case None =>
        assert forall k :: 0 < k < |s| ==> s[k] == s[1..][k - 1];
        None
      case Some(k) => Some(k + 1)
  }

  class Database {
    var users: seq<User>
    var tasks: seq<Task>
    var requests: seq<FriendRequest>
    var nextUserId: int
    var nextRequestId: int

    /** Keys are unique, new keys are fresh, and every user's counters are non-negative. */
    ghost predicate Valid()
      reads this, users
    {
      && UniqueUsers(users)
      && (forall u :: u in users ==> u.Valid() && u.id < nextUserId)
      && UniqueTaskIds(tasks)
      && UniqueRequestIds(requests)
      && (forall r :: r in requests ==> r.id < nextRequestId)
    }

    constructor ()
      ensures Valid()
      ensures users == [] && tasks == [] && requests == []
    {
      users, tasks, requests := [], [], [];
      nextUserId, nextRequestId := 1, 1;
    }

    /**
     * `signup`: validate, then insert a new user whose counters start at 0
     * and whose last reset is the insertion instant.
     */
    method Signup(username: string, password: string, passwordCheck: string, nickname: string, now: Instant)
      returns (err: Option<SignupError>)
      requires Valid()
      modifies this
      ensures Valid()
      ensures err == SignupCheck(old(users), username, password, passwordCheck)
      ensures err.Some? ==> users == old(users) && nextUserId == old(nextUserId)
      ensures err.None? ==>
        && |users| == |old(users)| + 1
        && users[..|old(users)|] == old(users)
        && fresh(users[|old(users)|])
        && users[|old(users)|].id == old(nextUserId)
        && users[|old(users)|].username == username
        && users[|old(users)|].nickname == nickname
        && users[|old(users)|].State() == CounterState(0, 0, Some(now))
      ensures tasks == old(tasks) && requests == old(requests)
    {
      err := SignupCheck(users, username, password, passwordCheck);
      if err.None? {
        var u := new User(nextUserId, username, nickname, now);
        users := users + [u];
        nextUserId := nextUserId + 1;
        assert users[..|users| - 1] == old(users);
      }
    }

    /**
     * `create`: insert a task for the acting user. A deadline that did not
     * parse (`None`) writes nothing.
     */
    method CreateTask(actor: User, name: string, body: Option<string>, deadline: Option<Instant>,
                      progress: int, priority: Priority)
      returns (ok: bool)
      requires Valid() && actor in users
      modifies this
      ensures Valid()
      ensures ok <==> deadline.Some?
      ensures ok ==> tasks == old(tasks) + [Task(NewTaskId(old(tasks)), name, body, deadline.value, priority, progress, actor.id)]
      ensures !ok ==> tasks == old(tasks)
      ensures users == old(users) && requests == old(requests)
    {
      ok := deadline.Some?;
      if ok {
        var newTask := Task(NewTaskId(tasks), name, body, deadline.value, priority, progress, actor.id);
        assert UniqueTaskIds(tasks + [newTask]) by {
          forall i, j | 0 <= i < j < |tasks| + 1 ensures (tasks + [newTask])[i].id != (tasks + [newTask])[j].id {
            if j == |tasks| {
              assert tasks[i] in tasks;
            }
          }
        }
        tasks := tasks + [newTask];
      }
    }

    /** `delete`: remove the task with that id; a missing id writes nothing. */
    method DeleteTask(id: int) returns (ok: bool)
      requires Valid()
      modifies this
      ensures Valid()
      ensures ok <==> HasTaskId(old(tasks), id)
      ensures ok ==> tasks == Without(old(tasks), id) && |tasks| == |old(tasks)| - 1
      ensures !ok ==> tasks == old(tasks)
      ensures users == old(users) && requests == old(requests)
    {
      ok := HasTaskId(tasks, id);
      if ok {
        WithoutUnique(tasks, id);
        WithoutPresent(tasks, id);
        tasks := Without(tasks, id);
      }
    }

    /**
     * `complete`: reset the acting user's counters, add one to each, and
     * delete the task. The task need not belong to the acting user. A
     * missing id makes the source raise before its commit, so nothing is
     * written.
     */
    method Complete(actor: User, id: int, today: Day, now: Instant) returns (ok: bool)
      requires Valid() && actor in users
      modifies this, actor
      ensures Valid()
      ensures ok <==> HasTaskId(old(tasks), id)
      ensures ok ==> tasks == Without(old(tasks), id)
      ensures ok ==> actor.State() == AfterCompletion(old(actor.State()), today, now)
      ensures ok ==> actor.tasksCompletedToday >= 1
      ensures !ok ==> tasks == old(tasks) && actor.State() == old(actor.State())
      ensures forall u :: u in old(users) && u != actor ==> u.State() == old(u.State())
      ensures users == old(users) && requests == old(requests)
    {
      ok := HasTaskId(tasks, id);
      if ok {
        actor.CountCompletion(today, now);
        WithoutUnique(tasks, id);
        tasks := Without(tasks, id);
      }
    }

    /**
     * `send_request`: an unknown target or the acting user themself writes
     * nothing; otherwise one new pending record is appended, whatever
     * records already join the pair.
     */
    method SendRequest(actor: User, targetName: string, now: Instant) returns (outcome: SendOutcome)
      requires Valid() && actor in users
      modifies this
      ensures Valid()
      ensures outcome == UserNotFound <==> forall u :: u in users ==> u.username != targetName
      ensures outcome == SelfRequest <==> targetName == actor.username
      ensures outcome == Sent ==>
        requests == old(requests) + [FriendRequest(old(nextRequestId), actor.username, targetName, Pending, now)]
      ensures outcome != Sent ==> requests == old(requests)
      ensures users == old(users) && tasks == old(tasks)
    {
      LookupIsSelf(users, actor, targetName);
      var target := FindUserByName(users, targetName);
      if target.Some? {
        if target.value.id != actor.id {
          requests := requests + [FriendRequest(nextRequestId, actor.username, target.value.username, Pending, now)];
          nextRequestId := nextRequestId + 1;
          outcome := Sent;
        } else {
          outcome := SelfRequest;
        }
      } else {
        outcome := UserNotFound;
      }
    }

    /**
     * `handle_request`: the record with that id gets the status the action
     * decides; a missing id (404) or any other record is left alone.
     */
    method HandleRequest(requestId: int, action: string) returns (found: bool)
      requires Valid()
      modifies this
      ensures Valid()
      ensures found <==> exists k :: 0 <= k < |old(requests)| && old(requests)[k].id == requestId
      ensures |requests| == |old(requests)|
      ensures forall k :: 0 <= k < |requests| ==>
        requests[k] == if old(requests)[k].id == requestId
                       then old(requests)[k].(status := Decide(old(requests)[k].status, action))
                       else old(requests)[k]
      ensures users == old(users) && tasks == old(tasks)
    {
      var index := FindRequest(requests, requestId);
      found := index.Some?;
      if found {
        var k := index.value;
        requests := requests[k := requests[k].(status := Decide(requests[k].status, action))];
      }
    }

    /**
     * The personal page (`index`): the acting user's ranked tasks, the
     * friend set, and for each friend who exists and has a task, that
     * friend's top task.
     */
    method MyPage(actor: User) returns (own: seq<Task>, friends: set<string>, friendTasks: map<string, Task>)
      requires Valid() && actor in users
      ensures own == Ranked(tasks, actor.id)
      ensures friends == Friends(requests, actor.username)
      ensures forall f :: f in friendTasks <==> f in friends && FriendTop(users, tasks, f).Some?
      ensures forall f :: f in friendTasks ==> FriendTop(users, tasks, f) == Some(friendTasks[f])
    {
      own := Ranked(tasks, actor.id);
      friends := Friends(requests, actor.username);
      friendTasks := map[];
      var remaining := friends;
      while remaining != {}
        invariant remaining <= friends
        invariant forall f :: f in friendTasks <==>
          f in friends && f !in remaining && FriendTop(users, tasks, f).Some?
        invariant forall f :: f in friendTasks ==> FriendTop(users, tasks, f) == Some(friendTasks[f])
        decreases remaining
      {
        var friend :| friend in remaining;
        var friendUser := FindUserByName(users, friend);
        if friendUser.Some? {
          var friendTask := Top(tasks, friendUser.value.id);
          if friendTask.Some? {
            friendTasks := friendTasks[friend := friendTask.value];
          }
        }
        remaining := remaining - {friend};
      }
    }
  }
}
