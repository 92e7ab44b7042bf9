/**
 * Friend requests and the friend set derived from them.
 *
 * A request is a directed record from a requester to a target, both named by
 * username. Its status column holds '保留' (pending), '承認' (approved) or
 * '拒否' (denied). Users are friends when an approved record joins them in
 * either direction; duplicate records are allowed and the friend set is
 * deduplicated by taking a set.
 */
module Friendship {
  import opened Dates

  datatype Status = Pending | Approved | Denied

  /** A request row. `timestamp` is the creation instant. */
  datatype FriendRequest = FriendRequest(
    id: int,
    requester: string,
    target: string,
    status: Status,
    timestamp: Instant)

  /** Request ids are a primary key. */
  predicate UniqueRequestIds(s: seq<FriendRequest>)
  {
    forall i, j :: 0 <= i < j < |s| ==> s[i].id != s[j].id
  }

  /** An approved record joins `a` and `b`, in one direction or the other. */
  predicate Joins(r: FriendRequest, a: string, b: string)
  {
    r.status == Approved
    && ((r.requester == a && r.target == b) || (r.requester == b && r.target == a))
  }

  /**
   * Requesters of approved requests aimed at `me`, in table order, with
   * repetitions.
   */
  function ApprovedRequesters(s: seq<FriendRequest>, me: string): (r: seq<string>)
    ensures forall f :: f in r <==>
      exists i :: 0 <= i < |s| && s[i].status == Approved && s[i].target == me && s[i].requester == f
  {
    if s == [] then []
    else
      var rest := ApprovedRequesters(s[1..], me);
      assert forall i :: 0 < i < |s| ==> s[i] == s[1..][i - 1];
      if s[0].status == Approved && s[0].target == me then [s[0].requester] + rest else rest
  }

  /** Targets of approved requests sent by `me`, in table order, with repetitions. */
  function ApprovedTargets(s: seq<FriendRequest>, me: string): (r: seq<string>)
    ensures forall f :: f in r <==>
      exists i :: 0 <= i < |s| && s[i].status == Approved && s[i].requester == me && s[i].target == f
  {
    if s == [] then []
    else
      var rest := ApprovedTargets(s[1..], me);
      assert forall i :: 0 < i < |s| ==> s[i] == s[1..][i - 1];
      if s[0].status == Approved && s[0].requester == me then [s[0].target] + rest else rest
  }

  /** `set(approved_by_me_friends + approved_for_me_friends)`. */
  function Friends(s: seq<FriendRequest>, me: string): set<string>
  {
    set f | f in ApprovedRequesters(s, me) + ApprovedTargets(s, me)
  }

  /** `f` is a friend of `me` exactly when some approved record joins the two. */
  lemma FriendsExactly(s: seq<FriendRequest>, me: string, f: string)
    ensures f in Friends(s, me) <==> exists i :: 0 <= i < |s| && Joins(s[i], me, f)
  {
    var all := ApprovedRequesters(s, me) + ApprovedTargets(s, me);
    assert f in all <==> f in ApprovedRequesters(s, me) || f in ApprovedTargets(s, me);
  }

  /** Friendship is symmetric. */
  lemma FriendsSymmetric(s: seq<FriendRequest>, a: string, b: string)
    ensures b in Friends(s, a) <==> a in Friends(s, b)
  {
    FriendsExactly(s, a, b);
    FriendsExactly(s, b, a);
    forall i | 0 <= i < |s| ensures Joins(s[i], a, b) <==> Joins(s[i], b, a) {
    }
  }

  /**
   * `handle_request`'s decision: 'approve' and 'deny' overwrite the status,
   * whatever it was; any other action leaves it as it is.
   */
  function Decide(status: Status, action: string): Status
  {
    if action == "approve" then Approved
    else if action == "deny" then Denied
    else status
  }

  /** No decision ever makes a request pending again. */
  lemma DecideNeverReopens(status: Status, action: string)
    ensures Decide(status, action) == Pending ==> status == Pending
    ensures Decide(status, action) == status || action == "approve" || action == "deny"
  {
  }

  /** A new pending record changes nobody's friend set. */
  lemma PendingKeepsFriends(s: seq<FriendRequest>, r: FriendRequest, x: string)
    requires r.status == Pending
    ensures Friends(s + [r], x) == Friends(s, x)
  {
    var t := s + [r];
    forall f ensures f in Friends(t, x) <==> f in Friends(s, x) {
      FriendsExactly(t, x, f);
      FriendsExactly(s, x, f);
      if f in Friends(t, x) {
        var i :| 0 <= i < |t| && Joins(t[i], x, f);
        assert i < |s| && s[i] == t[i];
      }
      if f in Friends(s, x) {
        var i :| 0 <= i < |s| && Joins(s[i], x, f);
        assert t[i] == s[i];
      }
    }
  }

  /** Approving a request makes its two ends friends of each other. */
  lemma ApprovalJoins(s: seq<FriendRequest>, i: int)
    requires 0 <= i < |s|
    ensures s[i].target in Friends(s[i := s[i].(status := Approved)], s[i].requester)
    ensures s[i].requester in Friends(s[i := s[i].(status := Approved)], s[i].target)
  {
    var t := s[i := s[i].(status := Approved)];
    assert Joins(t[i], s[i].requester, s[i].target);
    assert Joins(t[i], s[i].target, s[i].requester);
    FriendsExactly(t, s[i].requester, s[i].target);
    FriendsExactly(t, s[i].target, s[i].requester);
  }

  /**
   * Changing the status of one record changes only the friend sets of that
   * record's two ends.
   */
  lemma StatusChangeIsLocal(s: seq<FriendRequest>, i: int, st: Status, x: string)
    requires 0 <= i < |s|
    requires x != s[i].requester && x != s[i].target
    ensures Friends(s[i := s[i].(status := st)], x) == Friends(s, x)
  {
    var t := s[i := s[i].(status := st)];
    forall f ensures f in Friends(t, x) <==> f in Friends(s, x) {
      FriendsExactly(t, x, f);
      FriendsExactly(s, x, f);
      forall k | 0 <= k < |s| ensures Joins(t[k], x, f) <==> Joins(s[k], x, f) {
      }
    }
  }
}
