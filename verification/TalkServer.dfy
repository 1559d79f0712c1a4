/** The user table of the shared-memory talk server: users are kept without gaps, and a table
    over the process numbers says where each is. */
module TalkServer {
  const USER_LIMIT: nat := 5
  const PROCESS_LIMIT: nat := 65536

  datatype User = User(connfd: int, pid: nat, pipefd: int)

  /** The table finds every user by the number of its process. */
  ghost predicate Indexed(users: seq<User>, table: seq<int>) {
    forall i :: 0 <= i < |users| ==> users[i].pid < |table| && table[users[i].pid] == i
  }

  ghost predicate HasPid(users: seq<User>, pid: nat) {
    exists i :: 0 <= i < |users| && users[i].pid == pid
  }

  /** The table after user i has gone and the last user has moved into the gap. */
  function TableWithout(users: seq<User>, table: seq<int>, i: nat): seq<int>
    requires i < |users| && users[i].pid < |table| && users[|users| - 1].pid < |table|
  {
    table[users[i].pid := -1][users[|users| - 1].pid := i]
  }

  function SwapRemoved<T>(s: seq<T>, i: nat): seq<T>
    requires i < |s|
  {
    s[i := s[|s| - 1]][..|s| - 1]
  }

  /** Moving the last user into the gap keeps all indices of the others. */
  lemma StaysIndexed(users: seq<User>, table: seq<int>, i: nat)
    requires Indexed(users, table) && i < |users|
    ensures Indexed(SwapRemoved(users, i), TableWithout(users, table, i))
    ensures !HasPid(SwapRemoved(users, i), users[i].pid)
  {
  }

  lemma SwapRemovedItems<T>(s: seq<T>, i: nat)
    requires i < |s|
    ensures multiset(s) == multiset(SwapRemoved(s, i)) + multiset{s[i]}
  {
    var n := |s| - 1;
    assert s == s[..n] + [s[n]];
    if i < n {
      assert s[i := s[n]][..n] == s[..n][i := s[n]];
      assert multiset(s[..n][i := s[n]]) == multiset(s[..n]) - multiset{s[i]} + multiset{s[n]};
    } else {
      assert s[i := s[n]][..n] == s[..n];
    }
  }

  class Server {
    const users: array<User>
    const subProcess: array<int>
    var userCount: nat

    ghost predicate Valid()
      reads this, users, subProcess
    {
      && users.Length == USER_LIMIT + 1 && subProcess.Length == PROCESS_LIMIT && userCount <= USER_LIMIT
      && Indexed(users[..userCount], subProcess[..])
    }

    /** The users that have not left. */
    ghost function Live(): multiset<User>
      requires Valid()
      reads this, users, subProcess
    {
      multiset(users[..userCount])
    }

    ghost predicate IsLive(pid: nat)
      requires Valid()
      reads this, users, subProcess
    {
      HasPid(users[..userCount], pid)
    }

    constructor ()
      ensures Valid() && fresh(users) && fresh(subProcess) && Live() == multiset{}
    {
      users := new User[USER_LIMIT + 1](_ => User(-1, 0, -1));
      subProcess := new int[PROCESS_LIMIT](_ => -1);
      userCount := 0;
    }

    /** The index of a live process finds its user. */
    lemma IndexOfLive(pid: nat)
      requires Valid() && IsLive(pid)
      ensures pid < PROCESS_LIMIT && 0 <= subProcess[pid] < userCount && users[subProcess[pid]].pid == pid
    {
      var i :| 0 <= i < userCount && users[..userCount][i].pid == pid;
    }

    /** A new connection, whose child gets number pid; a full table turns it away. */
    method Accept(user: User) returns (accepted: bool)
      requires Valid() && user.pid < PROCESS_LIMIT && !IsLive(user.pid)
      modifies this, users, subProcess
      ensures Valid() && (accepted <==> old(userCount) < USER_LIMIT)
      ensures Live() == old(Live()) + if accepted then multiset{user} else multiset{}
    {
      if userCount >= USER_LIMIT {
        return false;
      }
      ghost var before := users[..userCount];
      users[userCount] := user;
      subProcess[user.pid] := userCount;
      userCount := userCount + 1;
      assert users[..userCount] == before + [user];
      return true;
    }

    /** The child with number pid has ended: the last user moves into the gap.  The entry of
        the dead process is cleared exactly when it was not the last one. */
    method Reap(pid: nat) returns (ghost user: User)
      requires Valid() && IsLive(pid)
      modifies this, users, subProcess
      ensures Valid() && user.pid == pid && userCount == old(userCount) - 1
      ensures old(Live()) == Live() + multiset{user} && !IsLive(pid)
      ensures subProcess[pid] == if old(subProcess[pid]) == userCount then userCount else -1
    {
      IndexOfLive(pid);
      ghost var before, table := users[..userCount], subProcess[..];
      var delUser := subProcess[pid];
      user := users[delUser];
      StaysIndexed(before, table, delUser);
      SwapRemovedItems(before, delUser);
      hide Indexed, HasPid;
      subProcess[pid] := -1;
      if delUser < 0 || delUser > USER_LIMIT {
        assert false;
      }
      userCount := userCount - 1;
      users[delUser] := users[userCount];
      subProcess[users[delUser].pid] := delUser;
      assert users[..userCount] == SwapRemoved(before, delUser);
      assert subProcess[..] == TableWithout(before, table, delUser);
    }
  }
}
