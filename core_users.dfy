/** Community detection: a user whose close friends (users whose strength of
    connection to it exceeds a threshold) are numerous enough is a core user,
    and its community's topics are the hashtags of the user and of every close
    friend, gathered into one sorted list without duplicates. `tags[u]` is user
    `u`'s hashtags in input order. */
module CoreUsers {
  import opened Lexicographic
  import opened TagLists
  import Strength

  /** The users `i < k` whose strength of connection from `z` is strictly above
      `ths`, in ascending order. */
  function CloseFriendsOf(strength: array2<real>, z: nat, k: nat, ths: real): (cf: seq<nat>)
    reads strength
    requires z < strength.Length0 && k <= strength.Length1
    ensures |cf| <= k
  {
    if k == 0 then []
    else CloseFriendsOf(strength, z, k - 1, ths) + (if strength[z, k - 1] > ths then [k - 1] else [])
  }

  /** The close friends are strictly ascending and are exactly the users `i < k`
      whose strength from `z` is strictly above `ths`. */
  lemma {:induction false} CloseFriendsSpec(strength: array2<real>, z: nat, k: nat, ths: real)
    requires z < strength.Length0 && k <= strength.Length1
    ensures forall j :: 0 <= j < |CloseFriendsOf(strength, z, k, ths)| ==>
              CloseFriendsOf(strength, z, k, ths)[j] < k
    ensures forall i :: 0 <= i < k ==> (i in CloseFriendsOf(strength, z, k, ths) <==> strength[z, i] > ths)
    ensures forall j1, j2 :: 0 <= j1 < j2 < |CloseFriendsOf(strength, z, k, ths)| ==>
              CloseFriendsOf(strength, z, k, ths)[j1] < CloseFriendsOf(strength, z, k, ths)[j2]
  {
    if k > 0 {
      CloseFriendsSpec(strength, z, k - 1, ths);
    }
  }

  /** The users `z < k` with strictly more than `core` close friends among the
      first `n` users, in ascending order. */
  function CoreUsersOf(strength: array2<real>, k: nat, n: nat, ths: real, core: int): (us: seq<nat>)
    reads strength
    requires k <= strength.Length0 && n <= strength.Length1
  {
    if k == 0 then []
    else
      CoreUsersOf(strength, k - 1, n, ths, core)
      + (if |CloseFriendsOf(strength, k - 1, n, ths)| > core then [k - 1] else [])
  }

  /** The core users are listed in ascending order, and `z` is one exactly when
      its close-friend count strictly exceeds `core`. */
  lemma {:induction false} CoreUsersSpec(strength: array2<real>, k: nat, n: nat, ths: real, core: int)
    requires k <= strength.Length0 && n <= strength.Length1
    ensures forall j :: 0 <= j < |CoreUsersOf(strength, k, n, ths, core)| ==> CoreUsersOf(strength, k, n, ths, core)[j] < k
    ensures forall z :: 0 <= z < k ==>
              (z in CoreUsersOf(strength, k, n, ths, core) <==> |CloseFriendsOf(strength, z, n, ths)| > core)
    ensures forall j1, j2 :: 0 <= j1 < j2 < |CoreUsersOf(strength, k, n, ths, core)| ==>
              CoreUsersOf(strength, k, n, ths, core)[j1] < CoreUsersOf(strength, k, n, ths, core)[j2]
  {
    if k > 0 {
      CoreUsersSpec(strength, k - 1, n, ths, core);
    }
  }

  /** Raising the strength threshold never adds a close friend. */
  lemma {:induction false} CloseFriendsMonotone(strength: array2<real>, z: nat, k: nat, ths1: real, ths2: real)
    requires z < strength.Length0 && k <= strength.Length1
    requires ths1 <= ths2
    ensures |CloseFriendsOf(strength, z, k, ths2)| <= |CloseFriendsOf(strength, z, k, ths1)|
  {
    if k > 0 {
      CloseFriendsMonotone(strength, z, k - 1, ths1, ths2);
    }
  }

  /** Raising either threshold never adds a core user. */
  lemma {:induction false} CoreUsersMonotone(
    strength: array2<real>, k: nat, n: nat, ths1: real, ths2: real, core1: int, core2: int)
    requires k <= strength.Length0 && n <= strength.Length1
    requires ths1 <= ths2 && core1 <= core2
    ensures |CoreUsersOf(strength, k, n, ths2, core2)| <= |CoreUsersOf(strength, k, n, ths1, core1)|
  {
    if k > 0 {
      CoreUsersMonotone(strength, k - 1, n, ths1, ths2, core1, core2);
      CloseFriendsMonotone(strength, k - 1, n, ths1, ths2);
    }
  }

  /** With the strengths of `compute_arrays` and a threshold that is not
      negative, every close friend is a friend; in particular a user without a
      self-loop is never its own close friend. */
  lemma CloseFriendsAreFriends(friend: seq<seq<int>>, n: nat, strength: array2<real>, z: nat, ths: real)
    requires Strength.Covers(friend, n) && Strength.Binary(friend, n)
    requires n <= strength.Length0 && n <= strength.Length1 && z < n
    requires forall y, i :: 0 <= y < n && 0 <= i < n ==> strength[y, i] == Strength.StrengthOf(friend, n, y, i)
    requires 0.0 <= ths
    ensures forall i :: 0 <= i < n && i in CloseFriendsOf(strength, z, n, ths) ==> friend[z][i] == 1
  {
    CloseFriendsSpec(strength, z, n, ths);
  }

  predicate ValidIds(tags: seq<seq<string>>, ids: seq<nat>) {
    forall j :: 0 <= j < |ids| ==> ids[j] < |tags|
  }

  /** Every hashtag of every user in `ids`. */
  ghost function Gathered(tags: seq<seq<string>>, ids: seq<nat>): set<string>
    requires ValidIds(tags, ids)
  {
    if ids == [] then {}
    else Gathered(tags, ids[..|ids| - 1]) + Elems(tags[ids[|ids| - 1]])
  }

  /** The inner loops of `get_hashtags`: inserts one user's hashtags, in input
      order, into the list. */
  method InsertEach(list: TagList, hashtags: seq<string>)
    requires list.Valid()
    modifies list
    ensures list.Valid()
    ensures Elems(list.items) == Elems(old(list.items)) + Elems(hashtags)
  {
    for i := 0 to |hashtags|
      invariant list.Valid()
      invariant Elems(list.items) == Elems(old(list.items)) + Elems(hashtags[..i])
    {
      assert hashtags[..i + 1] == hashtags[..i] + [hashtags[i]];
      list.InsertUniqueInOrder(hashtags[i]);
    }
    assert hashtags[..|hashtags|] == hashtags;
  }

  /** `get_hashtags`: inserts the core user's hashtags, then those of each close
      friend in turn, into the list. */
  method GetHashtags(user: nat, closeFriend: array<nat>, coreCount: nat, tags: seq<seq<string>>, list: TagList)
    requires user < |tags| && coreCount <= closeFriend.Length
    requires forall j :: 0 <= j < coreCount ==> closeFriend[j] < |tags|
    requires list.Valid()
    modifies list
    ensures list.Valid()
    ensures Elems(list.items) == Elems(old(list.items)) + Gathered(tags, [user] + closeFriend[..coreCount])
  {
    InsertEach(list, tags[user]);
    assert ([user] + closeFriend[..0])[..0] == [];
    for z := 0 to coreCount
      invariant list.Valid()
      invariant Elems(list.items) == Elems(old(list.items)) + Gathered(tags, [user] + closeFriend[..z])
    {
      InsertEach(list, tags[closeFriend[z]]);
      assert ([user] + closeFriend[..z + 1])[..z + 1] == [user] + closeFriend[..z];
    }
  }

  /** What `check_core_user` reports for one core user: the user, its close
      friends in ascending order, and the hashtag list that it prints. */
  datatype CoreReport = CoreReport(user: nat, closeFriends: seq<nat>, hashtags: seq<string>)

  function Users(reports: seq<CoreReport>): seq<nat> {
    if reports == [] then [] else Users(reports[..|reports| - 1]) + [reports[|reports| - 1].user]
  }

  /** `r` is the report for a core user among the first `n`: its close friends
      at threshold `ths`, and every hashtag of the user and of those friends,
      strictly ascending. */
  ghost predicate ReportFor(strength: array2<real>, n: nat, ths: real, tags: seq<seq<string>>, r: CoreReport)
    reads strength
    requires n <= strength.Length0 && n <= strength.Length1 && n <= |tags|
  {
    && r.user < n
    && r.closeFriends == CloseFriendsOf(strength, r.user, n, ths)
    && StrictlyAscending(r.hashtags)
    && ValidIds(tags, [r.user] + r.closeFriends)
    && Elems(r.hashtags) == Gathered(tags, [r.user] + r.closeFriends)
  }

  lemma UsersAppend(reports: seq<CoreReport>, r: CoreReport)
    ensures Users(reports + [r]) == Users(reports) + [r.user]
  {
    assert (reports + [r])[..|reports|] == reports;
  }

  /** The inner loop of `check_core_user`: writes the close friends of `z` to
      the front of `closeFriend` and returns how many there are. */
  method CollectCloseFriends(strength: array2<real>, n: nat, z: nat, ths: real, closeFriend: array<nat>)
    returns (coreCount: nat)
    requires z < strength.Length0 && n <= strength.Length1 && n <= closeFriend.Length
    modifies closeFriend
    ensures coreCount <= n
    ensures closeFriend[..coreCount] == CloseFriendsOf(strength, z, n, ths)
  {
    coreCount := 0;
    for i := 0 to n
      invariant coreCount <= i
      invariant closeFriend[..coreCount] == CloseFriendsOf(strength, z, i, ths)
    {
      if strength[z, i] > ths {
        closeFriend[coreCount] := i;
        coreCount := coreCount + 1;
      }
    }
  }

  /** The report step of `check_core_user` for a core user `z` whose close friends
      fill the front of `closeFriend`: gathers the hashtags into the empty
      `list` and returns what is printed. */
  method ReportCoreUser(
    strength: array2<real>, n: nat, ths: real, tags: seq<seq<string>>,
    z: nat, closeFriend: array<nat>, coreCount: nat, list: TagList)
    returns (report: CoreReport)
    requires n <= strength.Length0 && n <= strength.Length1 && n <= |tags| && z < n
    requires coreCount <= closeFriend.Length
    requires closeFriend[..coreCount] == CloseFriendsOf(strength, z, n, ths)
    requires list.Valid() && list.items == []
    modifies list
    ensures report.user == z && ReportFor(strength, n, ths, tags, report)
  {
    CloseFriendsSpec(strength, z, n, ths);
    GetHashtags(z, closeFriend, coreCount, tags, list);
    report := CoreReport(z, closeFriend[..coreCount], list.items);
  }

  /** `check_core_user`, with the two thresholds as parameters: for each user in
      ascending order collects its close friends, and for a core user gathers
      the hashtags into a fresh list and reports it. */
  method CheckCoreUser(strength: array2<real>, n: nat, ths: real, core: int, tags: seq<seq<string>>)
    returns (reports: seq<CoreReport>)
    requires n <= strength.Length0 && n <= strength.Length1 && n <= |tags|
    ensures Users(reports) == CoreUsersOf(strength, n, n, ths, core)
    ensures forall r :: r in reports ==> ReportFor(strength, n, ths, tags, r)
  {
    var closeFriend := new nat[n];
    reports := [];
    for z := 0 to n
      invariant Users(reports) == CoreUsersOf(strength, z, n, ths, core)
      invariant forall r :: r in reports ==> ReportFor(strength, n, ths, tags, r)
    {
      var coreCount := CollectCloseFriends(strength, n, z, ths, closeFriend);
      if coreCount > core {
        var list := new TagList();
        var report := ReportCoreUser(strength, n, ths, tags, z, closeFriend, coreCount, list);
        UsersAppend(reports, report);
        reports := reports + [report];
      }
    }
  }
}
