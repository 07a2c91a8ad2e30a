/** Start-up over the ledger and the user table (managers/initialization_manager.cpp), and what
    whole serial runs of the three together keep. */
module Startup {
  import opened Numbers
  import opened OffsetTables
  import opened TopicManagers
  import opened SerialLedger
  import opened LedgerLaws
  import opened UserTables

  /** The topic that start-up creates. */
  const USERS_TOPIC := "__users"

  datatype System = System(rows: seq<OffsetRow>, users: seq<User>)

  /** `Ledger` is a direct allocation or creation. The numbers that come from the configuration
      and the clock are inputs. */
  datatype Action =
    | Ledger(op: Op)
    | AddUser(username: string, password: string, email: string, now: uint64, partitionCount: int, createdAt: uint64)
    | UpdateUser(index: int, user: User)
    | Initialize(partitionCount: int, usersCreatedAt: uint64, adminAt: uint64, userCreatedAt: uint64)

  function InsertUser(s: System, nodeId: string, a: Action): System
    requires a.AddUser?
  {
    var (rows, offset) := Allocate(s.rows, nodeId, USER_TOPIC, a.partitionCount, a.createdAt);
    System(rows, s.users + [User(offset, a.now, a.username, a.password, a.email, false)])
  }

  function AdminInsert(a: Action): Action
    requires a.Initialize?
  {
    AddUser("admin", "admin", "admin@test.com", a.adminAt, a.partitionCount, a.userCreatedAt)
  }

  function Perform(s: System, nodeId: string, a: Action): System {
    match a
    case Ledger(op) => s.(rows := Apply(s.rows, nodeId, op).0)
    case AddUser(_, _, _, _, _, _) => InsertUser(s, nodeId, a)
    case UpdateUser(index, user) => s.(users := ReplaceUser(s.users, index, user))
    case Initialize(partitionCount, usersCreatedAt, _, _) =>
      if View(s.rows, USERS_TOPIC) != [] then s
      else
        var created := s.(rows := s.rows + CreationRows(nodeId, USERS_TOPIC, partitionCount, usersCreatedAt));
        InsertUser(created, nodeId, AdminInsert(a))
  }

  function PerformAll(nodeId: string, actions: seq<Action>): System {
    if actions == [] then System([], [])
    else Perform(PerformAll(nodeId, actions[..|actions| - 1]), nodeId, actions[|actions| - 1])
  }

  class InitializationManager {
    const manager: TopicManager
    const userTable: UserTable

    constructor (userTable: UserTable)
      ensures this.userTable == userTable && manager == userTable.manager
    {
      this.userTable := userTable;
      this.manager := userTable.manager;
    }

    /** The configuration has been loaded: `partitionCount` is the default it gives. */
    method Initialize(partitionCount: int, usersCreatedAt: uint64, adminAt: uint64, userCreatedAt: uint64)
      requires userTable.manager == manager
      requires |manager.table.rows| + 2 <= INT_MAX
      modifies userTable, manager.table
      ensures System(manager.table.rows, userTable.users)
           == Perform(old(System(manager.table.rows, userTable.users)), manager.nodeId,
                      Action.Initialize(partitionCount, usersCreatedAt, adminAt, userCreatedAt))
      ensures if exists k :: 0 <= k < |old(manager.table.rows)| && old(manager.table.rows)[k].topic == "__users"
              then manager.table.rows == old(manager.table.rows) && userTable.users == old(userTable.users)
              else
                && |userTable.users| == |old(userTable.users)| + 1
                && userTable.users[..|old(userTable.users)|] == old(userTable.users)
                && var admin := userTable.users[|old(userTable.users)|];
                && admin.username == "admin" && admin.password == "admin" && admin.email == "admin@test.com"
                && admin.timestamp == adminAt && !admin.deleted
    {
      ViewIsEmptyIffAbsent(manager.table.rows, USERS_TOPIC);
      var known := manager.CheckTopicExists(USERS_TOPIC);
      if !known {
        var _ := manager.CreateTopic(USERS_TOPIC, partitionCount, usersCreatedAt);
        var _ := userTable.Insert("admin", "admin", "admin@test.com", adminAt, partitionCount, userCreatedAt);
      }
    }
  }

  // ---------------------------------------------------------------------------------------
  // The reference: what a run should leave, without looking at the row table
  // ---------------------------------------------------------------------------------------

  predicate Initialized(actions: seq<Action>) {
    exists i :: 0 <= i < |actions| && actions[i].Initialize?
  }

  /** Users in insertion order, each with its position as its offset; the first start-up adds the
      administrator and later ones add nothing. */
  function ExpectedUsers(actions: seq<Action>): seq<User> {
    if actions == [] then []
    else
      var front, last := actions[..|actions| - 1], actions[|actions| - 1];
      var users := ExpectedUsers(front);
      var offset: uint128 := |users| % TWO_TO_THE_128;
      match last
      case Ledger(_) => users
      case AddUser(username, password, email, now, _, _) =>
        users + [User(offset, now, username, password, email, false)]
      case UpdateUser(index, user) => ReplaceUser(users, index, user)
      case Initialize(_, _, adminAt, _) =>
        if Initialized(front) then users
        else users + [User(offset, adminAt, "admin", "admin", "admin@test.com", false)]
  }

  /** The ledger operations that a run performs. */
  function Trace(actions: seq<Action>): seq<Op> {
    if actions == [] then []
    else
      var front, last := actions[..|actions| - 1], actions[|actions| - 1];
      Trace(front) + TraceOf(last, Initialized(front))
  }

  function TraceOf(a: Action, initialized: bool): seq<Op> {
    match a
    case Ledger(op) => [op]
    case AddUser(_, _, _, _, partitionCount, createdAt) => [Allocation(USER_TOPIC, partitionCount, createdAt)]
    case UpdateUser(_, _) => []
    case Initialize(partitionCount, usersCreatedAt, _, userCreatedAt) =>
      if initialized then []
      else [GuardedCreation(USERS_TOPIC, partitionCount, usersCreatedAt),
            Allocation(USER_TOPIC, partitionCount, userCreatedAt)]
  }

  /** Direct ledger operations are guarded and keep off the two user topics, as in the program,
      where only the user table and start-up name them; updates of users keep their offsets. */
  ghost predicate Proper(nodeId: string, actions: seq<Action>) {
    actions != [] ==>
      var front, last := actions[..|actions| - 1], actions[|actions| - 1];
      var users := PerformAll(nodeId, front).users;
      && Proper(nodeId, front)
      && (last.Ledger? ==> !last.op.Creation? && last.op.topic != USER_TOPIC && last.op.topic != USERS_TOPIC)
      && (last.UpdateUser? && 0 <= last.index < |users| ==> last.user.offset == users[last.index].offset)
  }

  // ---------------------------------------------------------------------------------------
  // The system refines the reference
  // ---------------------------------------------------------------------------------------

  /** What the ledger operations of a run say about the two user topics, when the run has drawn
      for `users` users. */
  ghost predicate UserTopics(ops: seq<Op>, users: nat, initialized: bool) {
    && Guarded(ops)
    && (Mentioned(ops, USERS_TOPIC) <==> initialized)
    && Allocations(ops, USERS_TOPIC) == 0
    && Allocations(ops, USER_TOPIC) == users
    && !CreatedExplicitly(ops, USER_TOPIC)
    && (Mentioned(ops, USER_TOPIC) <==> users > 0)
    && (initialized ==> CreatedExplicitly(ops, USERS_TOPIC))
  }

  ghost predicate TraceInvariant(actions: seq<Action>) {
    UserTopics(Trace(actions), |ExpectedUsers(actions)|, Initialized(actions))
  }

  lemma {:induction false} UserTopicsAfter(ops: seq<Op>, users: nat, initialized: bool, op: Op)
    requires UserTopics(ops, users, initialized)
    requires !op.Creation?
    requires op.topic == USER_TOPIC ==> op.Allocation?
    requires op.topic == USERS_TOPIC ==> op.GuardedCreation?
    ensures UserTopics(ops + [op], users + (if op.topic == USER_TOPIC then 1 else 0),
                       initialized || op.topic == USERS_TOPIC)
  {
    assert |USER_TOPIC| != |USERS_TOPIC|;
    AppendOp(ops, op, USER_TOPIC);
    AppendOp(ops, op, USERS_TOPIC);
  }

  lemma {:induction false} AppendOp(ops: seq<Op>, op: Op, topic: string)
    ensures Mentioned(ops + [op], topic) <==> Mentioned(ops, topic) || op.topic == topic
    ensures Allocations(ops + [op], topic)
         == Allocations(ops, topic) + if op.Allocation? && op.topic == topic then 1 else 0
    ensures Mentioned(ops, topic) ==> CreatedExplicitly(ops + [op], topic) == CreatedExplicitly(ops, topic)
    ensures !Mentioned(ops, topic) ==> CreatedExplicitly(ops + [op], topic) == (op.topic == topic && !op.Allocation?)
  {
    var all := ops + [op];
    assert all[..|all| - 1] == ops && all[|all| - 1] == op;
    assert forall i :: 0 <= i < |ops| ==> all[i] == ops[i];
    CreatedExplicitlySnoc(ops, op, topic);
  }

  lemma {:induction false} AppendRun(nodeId: string, ops: seq<Op>, op: Op)
    ensures Run(nodeId, ops + [op]) == Apply(Run(nodeId, ops), nodeId, op).0
  {
    var all := ops + [op];
    assert all[..|all| - 1] == ops && all[|all| - 1] == op;
  }

  lemma {:induction false} InitializedSnoc(actions: seq<Action>)
    requires actions != []
    ensures Initialized(actions) <==> Initialized(actions[..|actions| - 1]) || actions[|actions| - 1].Initialize?
  {
    var front := actions[..|actions| - 1];
    assert forall i :: 0 <= i < |front| ==> front[i] == actions[i];
  }

  /** How many users an action adds. */
  function UsersAdded(a: Action, initialized: bool): nat {
    if a.AddUser? || (a.Initialize? && !initialized) then 1 else 0
  }

  lemma {:induction false} TraceStep(ops: seq<Op>, users: nat, initialized: bool, a: Action)
    requires UserTopics(ops, users, initialized)
    requires a.Ledger? ==> !a.op.Creation? && a.op.topic != USER_TOPIC && a.op.topic != USERS_TOPIC
    ensures UserTopics(ops + TraceOf(a, initialized), users + UsersAdded(a, initialized), initialized || a.Initialize?)
  {
    assert |USER_TOPIC| != |USERS_TOPIC|;
    var more := TraceOf(a, initialized);
    if |more| == 0 {
      assert ops + more == ops;
    } else if |more| == 1 {
      assert more == [more[0]];
      UserTopicsAfter(ops, users, initialized, more[0]);
    } else {
      TraceStartUp(ops, users, more[0], more[1]);
      assert more == [more[0], more[1]];
    }
  }

  lemma {:induction false} TraceStartUp(ops: seq<Op>, users: nat, create: Op, draw: Op)
    requires UserTopics(ops, users, false) && create.GuardedCreation? && draw.Allocation?
    requires create.topic == USERS_TOPIC && draw.topic == USER_TOPIC
    ensures UserTopics(ops + [create, draw], users + 1, true)
  {
    assert |USER_TOPIC| != |USERS_TOPIC|;
    UserTopicsAfter(ops, users, false, create);
    UserTopicsAfter(ops + [create], users, true, draw);
    assert ops + [create, draw] == (ops + [create]) + [draw];
  }

  lemma {:induction false} TraceKeepsInvariant(nodeId: string, actions: seq<Action>)
    requires actions != [] && Proper(nodeId, actions) && TraceInvariant(actions[..|actions| - 1])
    ensures TraceInvariant(actions)
  {
    var front, last := actions[..|actions| - 1], actions[|actions| - 1];
    TraceStep(Trace(front), |ExpectedUsers(front)|, Initialized(front), last);
    InitializedSnoc(actions);
  }

  /** The number a user insert draws after a guarded ledger run is the count of earlier draws. */
  lemma {:induction false} UserDraw(nodeId: string, ops: seq<Op>, partitionCount: int, createdAt: uint64)
    requires Guarded(ops) && !CreatedExplicitly(ops, USER_TOPIC)
    requires Mentioned(ops, USER_TOPIC) <==> Allocations(ops, USER_TOPIC) > 0
    ensures Allocate(Run(nodeId, ops), nodeId, USER_TOPIC, partitionCount, createdAt).1
         == Allocations(ops, USER_TOPIC) % TWO_TO_THE_128
  {
    var op := Allocation(USER_TOPIC, partitionCount, createdAt);
    RunRefines(nodeId, ops);
    StepRefines(Run(nodeId, ops), nodeId, Counters(ops), op, USER_TOPIC);
    CounterClosedForm(ops, USER_TOPIC);
    if Mentioned(ops, USER_TOPIC) {
      NextOfModulus(Allocations(ops, USER_TOPIC) - 1);
    }
  }

  /** Over every proper serial run the table is the one its ledger operations leave, and the
      users are the expected ones: every inserted row in order, its offset its position, one
      administrator from all start-ups together. */
  lemma {:induction false} SystemRefines(nodeId: string, actions: seq<Action>)
    requires Proper(nodeId, actions)
    ensures TraceInvariant(actions)
    ensures PerformAll(nodeId, actions) == System(Run(nodeId, Trace(actions)), ExpectedUsers(actions))
  {
    if actions != [] {
      var front, last := actions[..|actions| - 1], actions[|actions| - 1];
      SystemRefines(nodeId, front);
      TraceKeepsInvariant(nodeId, actions);
      PerformRefines(nodeId, front, last);
    } else {
      assert Trace(actions) == [];
    }
  }

  lemma {:induction false} PerformRefines(nodeId: string, front: seq<Action>, last: Action)
    requires TraceInvariant(front)
    requires last.Ledger? ==> last.op.topic != USERS_TOPIC
    ensures Perform(System(Run(nodeId, Trace(front)), ExpectedUsers(front)), nodeId, last)
         == System(Run(nodeId, Trace(front) + TraceOf(last, Initialized(front))), ExpectedUsers(front + [last]))
  {
    var ops := Trace(front);
    assert (front + [last])[..|front|] == front;
    match last {
      case Ledger(op) =>
        AppendRun(nodeId, ops, op);
      case AddUser(_, _, _, _, partitionCount, createdAt) =>
        AppendRun(nodeId, ops, Allocation(USER_TOPIC, partitionCount, createdAt));
        UserDraw(nodeId, ops, partitionCount, createdAt);
      case UpdateUser(_, _) =>
        assert ops + [] == ops;
      case Initialize(partitionCount, usersCreatedAt, _, userCreatedAt) =>
        PresentIffMentioned(nodeId, ops, USERS_TOPIC);
        if Initialized(front) {
          assert ops + [] == ops;
        } else {
          FirstStartUp(nodeId, ops, last);
        }
    }
  }

  lemma {:induction false} FirstStartUp(nodeId: string, ops: seq<Op>, a: Action)
    requires a.Initialize? && Guarded(ops) && !Mentioned(ops, USERS_TOPIC) && !CreatedExplicitly(ops, USER_TOPIC)
    requires Mentioned(ops, USER_TOPIC) <==> Allocations(ops, USER_TOPIC) > 0
    ensures Allocate(Run(nodeId, ops) + CreationRows(nodeId, USERS_TOPIC, a.partitionCount, a.usersCreatedAt),
                     nodeId, USER_TOPIC, a.partitionCount, a.userCreatedAt)
         == (Run(nodeId, ops + TraceOf(a, false)), Allocations(ops, USER_TOPIC) % TWO_TO_THE_128)
  {
    var create := GuardedCreation(USERS_TOPIC, a.partitionCount, a.usersCreatedAt);
    var draw := Allocation(USER_TOPIC, a.partitionCount, a.userCreatedAt);
    assert |USER_TOPIC| != |USERS_TOPIC|;
    PresentIffMentioned(nodeId, ops, USERS_TOPIC);
    AppendOp(ops, create, USER_TOPIC);
    AppendRun(nodeId, ops, create);
    AppendRun(nodeId, ops + [create], draw);
    assert ops + TraceOf(a, false) == (ops + [create]) + [draw];
    UserDraw(nodeId, ops + [create], a.partitionCount, a.userCreatedAt);
  }

  // ---------------------------------------------------------------------------------------
  // Consequences
  // ---------------------------------------------------------------------------------------

  /** User row i has offset i; the ledger's end row for the user topic holds the user count minus
      one; and the linear search for an offset is direct indexing. */
  lemma {:induction false} UserLogCoupling(nodeId: string, actions: seq<Action>)
    requires Proper(nodeId, actions)
    ensures var s := PerformAll(nodeId, actions);
            && (forall i :: 0 <= i < |s.users| ==> s.users[i].offset == i % TWO_TO_THE_128)
            && (forall o: uint128 :: PositionOfOffset(s.users, o) == if o < |s.users| then o else -1)
            && CountsUsers(View(s.rows, "__user"), |s.users|)
  {
    var s := PerformAll(nodeId, actions);
    SystemRefines(nodeId, actions);
    OffsetsArePositions(nodeId, actions);
    UserTopicRows(nodeId, Trace(actions), |s.users|, Initialized(actions));
    SearchesAreIndexing(s.users);
  }

  lemma {:induction false} SearchesAreIndexing(users: seq<User>)
    requires Positioned(users)
    ensures forall o: uint128 :: PositionOfOffset(users, o) == if o < |users| then o else -1
  {
    forall o: uint128 ensures PositionOfOffset(users, o) == if o < |users| then o else -1 {
      SearchIsIndexing(users, o);
    }
  }

  /** The rows of the user topic when there are `users` users: none at all, or an end row that
      holds the count minus one. */
  ghost predicate CountsUsers(view: seq<OffsetRow>, users: nat) {
    if users == 0 then view == []
    else |view| == 2 && view[1].kind == END && view[1].offset == (users - 1) % TWO_TO_THE_128
  }

  lemma {:induction false} UserTopicRows(nodeId: string, ops: seq<Op>, users: nat, initialized: bool)
    requires UserTopics(ops, users, initialized)
    ensures CountsUsers(View(Run(nodeId, ops), USER_TOPIC), users)
  {
    TopicShape(nodeId, ops, USER_TOPIC);
  }

  ghost predicate Positioned(users: seq<User>) {
    forall i :: 0 <= i < |users| ==> users[i].offset == i % TWO_TO_THE_128
  }

  lemma {:induction false} OffsetsArePositions(nodeId: string, actions: seq<Action>)
    requires Proper(nodeId, actions)
    ensures Positioned(ExpectedUsers(actions))
  {
    if actions != [] {
      var front := actions[..|actions| - 1];
      OffsetsArePositions(nodeId, front);
      SystemRefines(nodeId, front);
      assert front + [actions[|actions| - 1]] == actions;
      StaysPositioned(front, actions[|actions| - 1]);
    }
  }

  lemma {:induction false} StaysPositioned(front: seq<Action>, last: Action)
    requires Positioned(ExpectedUsers(front))
    requires last.UpdateUser? && 0 <= last.index < |ExpectedUsers(front)| ==>
               last.user.offset == ExpectedUsers(front)[last.index].offset
    ensures Positioned(ExpectedUsers(front + [last]))
  {
    assert (front + [last])[..|front|] == front;
  }

  /** An update keeps the coupling of positions and offsets exactly when it keeps the offset of
      the row it replaces. */
  lemma {:induction false} CouplingKeptIffOffsetKept(users: seq<User>, index: int, user: User)
    requires Positioned(users)
    ensures Positioned(ReplaceUser(users, index, user)) <==>
            (0 <= index < |users| ==> user.offset == users[index].offset)
  {
    var after := ReplaceUser(users, index, user);
    if 0 <= index < |users| {
      assert after[index] == user;
    }
  }

  lemma {:induction false} SearchIsIndexing(users: seq<User>, o: uint128)
    requires forall i :: 0 <= i < |users| ==> users[i].offset == i % TWO_TO_THE_128
    ensures PositionOfOffset(users, o) == if o < |users| then o else -1
  {
    forall i | 0 <= i < |users| && i <= o ensures users[i].offset == i {
      RemainderUnique(i, 0, i, TWO_TO_THE_128);
    }
    if o >= |users| {
      assert forall k :: 0 <= k < |users| ==> users[k].offset != o;
    } else {
      assert users[o].offset == o;
    }
  }

  /** A user insert adds one row, and its fields are what was asked for. */
  lemma {:induction false} AddedUserFields(nodeId: string, actions: seq<Action>)
    requires actions != [] && Proper(nodeId, actions) && actions[|actions| - 1].AddUser?
    ensures var before, after := PerformAll(nodeId, actions[..|actions| - 1]).users, PerformAll(nodeId, actions).users;
            var a := actions[|actions| - 1];
            && |after| == |before| + 1 && after[..|before|] == before
            && after[|before|].offset == |before| % TWO_TO_THE_128 && after[|before|].timestamp == a.now
            && after[|before|].username == a.username && after[|before|].password == a.password
            && after[|before|].email == a.email && !after[|before|].deleted
  {
    SystemRefines(nodeId, actions[..|actions| - 1]);
    SystemRefines(nodeId, actions);
  }

  function Inserts(actions: seq<Action>): nat {
    if actions == [] then 0
    else Inserts(actions[..|actions| - 1]) + if actions[|actions| - 1].AddUser? then 1 else 0
  }

  /** Any number of start-ups add exactly one user between them, and the topic they create keeps
      exactly its two rows, both at offset 0. */
  lemma {:induction false} StartUpHappensOnce(nodeId: string, actions: seq<Action>)
    requires Proper(nodeId, actions)
    ensures var s := PerformAll(nodeId, actions);
            && |s.users| == Inserts(actions) + (if Initialized(actions) then 1 else 0)
            && |View(s.rows, "__users")| == (if Initialized(actions) then 2 else 0)
            && forall row :: row in View(s.rows, "__users") ==> row.offset == 0
  {
    SystemRefines(nodeId, actions);
    CountUsers(actions);
    UsersTopicRows(nodeId, Trace(actions), |ExpectedUsers(actions)|, Initialized(actions));
  }

  lemma {:induction false} UsersTopicRows(nodeId: string, ops: seq<Op>, users: nat, initialized: bool)
    requires UserTopics(ops, users, initialized)
    ensures |View(Run(nodeId, ops), USERS_TOPIC)| == (if initialized then 2 else 0)
    ensures forall row :: row in View(Run(nodeId, ops), USERS_TOPIC) ==> row.offset == 0
  {
    TopicShape(nodeId, ops, USERS_TOPIC);
  }

  lemma {:induction false} CountUsers(actions: seq<Action>)
    ensures |ExpectedUsers(actions)| == Inserts(actions) + if Initialized(actions) then 1 else 0
  {
    if actions != [] {
      CountUsers(actions[..|actions| - 1]);
      InitializedSnoc(actions);
    }
  }

  /** The row that the first start-up adds: the administrator, at the position it found. */
  lemma {:induction false} FirstStartUpAddsAdmin(nodeId: string, actions: seq<Action>)
    requires actions != [] && Proper(nodeId, actions) && actions[|actions| - 1].Initialize?
    ensures var before, after := PerformAll(nodeId, actions[..|actions| - 1]).users, PerformAll(nodeId, actions).users;
            if Initialized(actions[..|actions| - 1]) then after == before
            else after == before + [User(|before| % TWO_TO_THE_128, actions[|actions| - 1].adminAt,
                                         "admin", "admin", "admin@test.com", false)]
  {
    SystemRefines(nodeId, actions[..|actions| - 1]);
    SystemRefines(nodeId, actions);
  }

  /** Conservation over the whole system: the end offsets, the auto-created topics and 2^128 for
      every wrap add up to the users and the direct allocations. */
  lemma {:induction false} SystemConservation(nodeId: string, actions: seq<Action>) returns (wraps: nat)
    requires Proper(nodeId, actions)
    ensures SumOfEnds(PerformAll(nodeId, actions).rows) + AutoCreated(Trace(actions)) + wraps * TWO_TO_THE_128
         == |PerformAll(nodeId, actions).users| + DirectAllocations(actions)
    ensures |PerformAll(nodeId, actions).users| + DirectAllocations(actions) < TWO_TO_THE_128 ==> wraps == 0
  {
    SystemRefines(nodeId, actions);
    wraps := Conservation(nodeId, Trace(actions));
    CountAllocations(nodeId, actions);
  }

  function DirectAllocations(actions: seq<Action>): nat {
    if actions == [] then 0
    else
      var last := actions[|actions| - 1];
      DirectAllocations(actions[..|actions| - 1]) + if last.Ledger? && last.op.Allocation? then 1 else 0
  }

  lemma {:induction false} CountAllocations(nodeId: string, actions: seq<Action>)
    requires Proper(nodeId, actions)
    ensures TotalAllocations(Trace(actions)) == |ExpectedUsers(actions)| + DirectAllocations(actions)
  {
    if actions != [] {
      var front, last := actions[..|actions| - 1], actions[|actions| - 1];
      CountAllocations(nodeId, front);
      TotalConcat(Trace(front), TraceOf(last, Initialized(front)));
      CountOfOne(last, Initialized(front));
    }
  }

  lemma {:induction false} CountOfOne(a: Action, initialized: bool)
    ensures TotalAllocations(TraceOf(a, initialized))
         == match a
            case Ledger(op) => if op.Allocation? then 1 else 0
            case AddUser(_, _, _, _, _, _) => 1
            case UpdateUser(_, _) => 0
            case Initialize(_, _, _, _) => if initialized then 0 else 1
  {
    var ops := TraceOf(a, initialized);
    if |ops| == 1 {
      assert ops[..0] == [];
    } else if |ops| == 2 {
      assert ops[..1] == [ops[0]] && ops[..1][..0] == [];
      assert TotalAllocations(ops[..1]) == 0;
    }
  }

  lemma {:induction false} TotalConcat(a: seq<Op>, b: seq<Op>)
    ensures TotalAllocations(a + b) == TotalAllocations(a) + TotalAllocations(b)
    decreases |b|
  {
    if b == [] {
      assert a + b == a;
    } else {
      assert (a + b)[..|a + b| - 1] == a + b[..|b| - 1];
      TotalConcat(a, b[..|b| - 1]);
    }
  }
}
