/** The user table, whose inserts draw their offsets from the ledger
    (topics/topic_private/topic_user/topic_private_user_definition.cpp). */
module UserTables {
  import opened Numbers
  import opened Sequences
  import opened TopicManagers

  /** The topic that user inserts allocate from. Start-up creates "__users" instead. */
  const USER_TOPIC := "__user"

  datatype User = User(
    offset: uint128,
    timestamp: uint64,
    username: string,
    password: string,
    email: string,
    deleted: bool)

  function HasOffset(offset: uint128): User -> bool {
    (user: User) => user.offset == offset
  }

  function HasNameOrEmail(username: string, email: string): User -> bool {
    (user: User) => user.username == username || user.email == email
  }

  /** The first user with the offset, or -1. */
  function PositionOfOffset(users: seq<User>, offset: uint128): (position: int)
    ensures -1 <= position < |users|
    ensures position == -1 <==> forall k :: 0 <= k < |users| ==> users[k].offset != offset
    ensures position >= 0 ==> users[position].offset == offset
    ensures position >= 0 ==> forall k :: 0 <= k < position ==> users[k].offset != offset
  {
    var k := FindIf(users, HasOffset(offset), 0);
    assert k < |users| ==> HasOffset(offset)(users[k]);
    assert forall j :: 0 <= j < k ==> !HasOffset(offset)(users[j]);
    if k < |users| then k else -1
  }

  function ReplaceUser(users: seq<User>, index: int, user: User): seq<User> {
    if 0 <= index < |users| then users[index := user] else users
  }

  class UserTable {
    const manager: TopicManager
    var users: seq<User>

    constructor (manager: TopicManager)
      ensures this.manager == manager && users == []
    {
      this.manager := manager;
      users := [];
    }

    /** `now` and `createdAt` are the clock readings taken for the user and, when the ledger has
        to create its topic, for the topic's rows. */
    method Insert(username: string, password: string, email: string, now: uint64,
                  partitionCount: int, createdAt: uint64)
      returns (user: User)
      requires |manager.table.rows| <= INT_MAX
      modifies this, manager.table
      ensures (manager.table.rows, user.offset)
           == Allocate(old(manager.table.rows), manager.nodeId, "__user", partitionCount, createdAt)
      ensures user.timestamp == now && user.username == username && user.password == password
      ensures user.email == email && !user.deleted
      ensures users == old(users) + [user]
    {
      var offset := manager.GetNewestOffsetWithRoundRobin(USER_TOPIC, partitionCount, createdAt);
      user := User(offset, now, username, password, email, false);
      users := users + [user];
    }

    method Update(index: int, user: User)
      requires |users| <= INT_MAX
      modifies this
      ensures |users| == old(|users|)
      ensures forall k :: 0 <= k < |users| ==> users[k] == if k == index then user else old(users)[k]
      ensures users == ReplaceUser(old(users), index, user)
    {
      if index >= 0 && index < |users| {
        users := users[index := user];
      }
    }

    method SearchByOffset(offset: uint128) returns (position: int)
      requires |users| <= INT_MAX
      ensures position == PositionOfOffset(users, offset)
    {
      var it := FindIf(users, HasOffset(offset), 0);
      if it != |users| {
        return it;
      }
      return -1;
    }

    /** The first user whose name or whose email matches. */
    method SearchByCriteria(username: string, email: string) returns (position: int)
      requires |users| <= INT_MAX
      ensures -1 <= position < |users|
      ensures position == -1 <==>
              forall k :: 0 <= k < |users| ==> users[k].username != username && users[k].email != email
      ensures position >= 0 ==>
        && (users[position].username == username || users[position].email == email)
        && forall k :: 0 <= k < position ==> users[k].username != username && users[k].email != email
    {
      var p := HasNameOrEmail(username, email);
      var it := FindIf(users, p, 0);
      assert forall k :: 0 <= k < it ==> !p(users[k]);
      if it != |users| {
        return it;
      }
      return -1;
    }

    /** When nothing matches the program returns a default-constructed user, whose timestamp and
        deletion mark are indeterminate. */
    method SearchByCriteriaTypeReturn(username: string, email: string) returns (user: User)
      ensures if exists k :: 0 <= k < |users| && (users[k].username == username || users[k].email == email)
              then exists k :: && 0 <= k < |users| && user == users[k]
                               && (user.username == username || user.email == email)
                               && forall j :: 0 <= j < k ==> users[j].username != username && users[j].email != email
              else user.offset == 0 && user.username == "" && user.password == "" && user.email == ""
    {
      var p := HasNameOrEmail(username, email);
      var it := FindIf(users, p, 0);
      assert forall k :: 0 <= k < it ==> !p(users[k]);
      if it != |users| {
        assert p(users[it]);
        return users[it];
      }
      var anyTimestamp: uint64 := *;
      var anyDeleted: bool := *;
      return User(0, anyTimestamp, "", "", "", anyDeleted);
    }

    method GetAllUsers() returns (all: seq<User>)
      ensures all == users
    {
      return users;
    }
  }
}
