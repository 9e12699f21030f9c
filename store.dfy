/**
 * The relational store behind both apps: the user table and the three
 * relationship tables, the id counters and an abstract clock, the writes
 * the views issue (create, save, delete, get-or-create), and the signed-in
 * user a request carries.
 */
module Store {
  import opened Wrappers
  import opened Sequences
  import opened UserModels
  import opened FriendModels

  /** A value snapshot of every table and counter. */
  datatype Tables = Tables(
    users: seq<User>,
    requests: seq<FriendRequest>,
    blocks: seq<BlockedUser>,
    friendships: seq<Friendship>,
    nextUserId: nat,
    nextRequestId: nat,
    nextBlockId: nat,
    nextFriendshipId: nat,
    clock: nat)

  /** Every table constraint holds. */
  ghost predicate Consistent(t: Tables)
  {
    && UserTableValid(t.users, t.nextUserId)
    && RequestTableValid(t.requests, t.nextRequestId, t.clock)
    && BlockTableValid(t.blocks, t.nextBlockId, t.clock)
    && FriendshipTableValid(t.friendships, t.nextFriendshipId, t.clock)
  }

  /** A fresh database: no rows, auto-increment ids starting at 1. */
  const Empty: Tables := Tables([], [], [], [], 1, 1, 1, 1, 0)

  lemma EmptyConsistent()
    ensures Consistent(Empty)
  {
  }

  /** Who sent the HTTP request: nobody, or the user id held in the session. */
  datatype Actor = Anonymous | SignedIn(id: nat)

  /**
   * `request.user` as session authentication resolves it: the user row of
   * the session's id, or nobody when the session is anonymous or its user no
   * longer exists.
   */
  function CurrentUser(t: Tables, a: Actor): (r: Option<User>)
    ensures r.Some? ==> a.SignedIn? && r.value in t.users && r.value.id == a.id
    ensures r.None? ==> a.Anonymous? || forall u :: u in t.users ==> u.id != a.id
  {
    if a.Anonymous? then None
    else match UserIndex(t.users, a.id)
      case Some(i) => Some(t.users[i])
      case None => None
  }

  /** The user with the given id, if any (`CustomUser.objects.get(id=...)`); a missing id finds nobody. */
  function LookupUser(t: Tables, id: Option<int>): (r: Option<User>)
    ensures r.Some? ==> id.Some? && r.value in t.users && r.value.id == id.value
    ensures r.None? ==> id.None? || forall u :: u in t.users ==> u.id != id.value
  {
    if id.None? then None
    else match UserIndex(t.users, id.value)
      case Some(i) => Some(t.users[i])
      case None => None
  }

  /** Why the permission layer or a view answers 403. */
  datatype Denial = NotAuthenticated | NotAdmin | BlockedRelation

  /** What a 400 answer complains about. */
  datatype Reason = SelfTarget | AlreadyFriends | AlreadyPending | AlreadyBlocked | InvalidInput

  /**
   * The answer of a view: 200 and 201 with their payload, 400, 401, 403, 404,
   * or 500 for an integrity error the view does not catch.
   */
  datatype Response<+T> =
    | Ok(value: T)
    | Created(value: T)
    | BadRequest(reason: Reason)
    | Unauthorized
    | Forbidden(denial: Denial)
    | NotFound
    | ServerError

  /** A view's answer together with the tables it leaves behind. */
  datatype Step<+T> = Step(response: Response<T>, after: Tables)

  // The writes, on values.

  /** The row `FriendRequest.objects.create` would insert now. */
  function NextRequest(t: Tables, sender: nat, receiver: nat, note: string): FriendRequest
  {
    NewFriendRequest(t.nextRequestId, sender, receiver, note, t.clock)
  }

  /** `FriendRequest.objects.create`: append the next row and tick the clock. */
  function InsertRequest(t: Tables, sender: nat, receiver: nat, note: string): (u: Tables)
    ensures |u.requests| == |t.requests| + 1 && u.requests[..|t.requests|] == t.requests
    ensures var x := u.requests[|t.requests|];
            x.sender == sender && x.receiver == receiver && x.status == Pending && x.createdAt == t.clock
    ensures HasRequest(u.requests, sender, receiver)
    ensures u.clock > t.clock && u.users == t.users && u.blocks == t.blocks && u.friendships == t.friendships
  {
    t.(requests := t.requests + [NextRequest(t, sender, receiver, note)],
       nextRequestId := t.nextRequestId + 1, clock := t.clock + 1)
  }

  /** `save()` of request row `i` with status `s`: `updated_at` is stamped now. */
  function SaveRequest(t: Tables, i: nat, s: Status): (u: Tables)
    requires i < |t.requests|
    ensures |u.requests| == |t.requests| && forall k :: 0 <= k < |t.requests| && k != i ==> u.requests[k] == t.requests[k]
    ensures u.requests[i] == t.requests[i].(status := s, updatedAt := u.requests[i].updatedAt)
    ensures u.requests[i].status == s && u.requests[i].updatedAt == t.clock < u.clock
    ensures u.users == t.users && u.blocks == t.blocks && u.friendships == t.friendships
  {
    t.(requests := t.requests[i := t.requests[i].(status := s, updatedAt := t.clock)], clock := t.clock + 1)
  }

  /** `Friendship.objects.get_or_create(user1=a, user2=b)`: insert the ordered row unless it is stored. */
  function EnsureFriendship(t: Tables, a: nat, b: nat): (u: Tables)
    ensures HasFriendship(u.friendships, a, b)
    ensures forall f :: f in t.friendships ==> f in u.friendships
    ensures forall f :: f in u.friendships && f !in t.friendships ==> f.user1 == a && f.user2 == b
    ensures HasFriendship(t.friendships, a, b) ==> u == t
    ensures u.clock >= t.clock && u.users == t.users && u.blocks == t.blocks && u.requests == t.requests
  {
    if HasFriendship(t.friendships, a, b) then t
    else t.(friendships := t.friendships + [Friendship(t.nextFriendshipId, a, b, t.clock)],
             nextFriendshipId := t.nextFriendshipId + 1, clock := t.clock + 1)
  }

  /** `Friendship.objects.filter(either ordering).delete()`. */
  function DropFriendshipsBetween(t: Tables, a: nat, b: nat): (u: Tables)
    ensures !FriendsBetween(u.friendships, a, b)
    ensures forall f :: f in u.friendships <==> f in t.friendships && !Joins(f, a, b)
    ensures u.clock == t.clock && u.users == t.users && u.blocks == t.blocks && u.requests == t.requests
  {
    t.(friendships := WithoutPair(t.friendships, a, b))
  }

  /** The row `BlockedUser.objects.get_or_create` would insert now. */
  function NextBlock(t: Tables, blocker: nat, blocked: nat): BlockedUser
  {
    BlockedUser(t.nextBlockId, blocker, blocked, t.clock)
  }

  /** The create half of `BlockedUser.objects.get_or_create`. */
  function InsertBlock(t: Tables, blocker: nat, blocked: nat): (u: Tables)
    ensures |u.blocks| == |t.blocks| + 1 && u.blocks[..|t.blocks|] == t.blocks
    ensures u.blocks[|t.blocks|].blocker == blocker && u.blocks[|t.blocks|].blocked == blocked
    ensures HasBlock(u.blocks, blocker, blocked)
    ensures u.clock > t.clock && u.users == t.users && u.requests == t.requests && u.friendships == t.friendships
  {
    t.(blocks := t.blocks + [NextBlock(t, blocker, blocked)], nextBlockId := t.nextBlockId + 1, clock := t.clock + 1)
  }

  /** `delete()` of block row `i`. */
  function DeleteBlock(t: Tables, i: nat): (u: Tables)
    requires i < |t.blocks|
    ensures multiset(u.blocks) + multiset{t.blocks[i]} == multiset(t.blocks)
    ensures u.clock == t.clock && u.users == t.users && u.requests == t.requests && u.friendships == t.friendships
  {
    assert t.blocks == t.blocks[..i] + [t.blocks[i]] + t.blocks[i + 1..];
    t.(blocks := t.blocks[..i] + t.blocks[i + 1..])
  }

  /** `CustomUser.objects.create`: append `u`, which carries the next id. */
  function InsertUser(t: Tables, u: User): (r: Tables)
    ensures |r.users| == |t.users| + 1 && r.users[..|t.users|] == t.users && r.users[|t.users|] == u
    ensures r.clock == t.clock && r.requests == t.requests && r.blocks == t.blocks && r.friendships == t.friendships
  {
    t.(users := t.users + [u], nextUserId := t.nextUserId + 1)
  }

  /** `save()` of user row `i` with the values of `u`. */
  function SaveUser(t: Tables, i: nat, u: User): (r: Tables)
    requires i < |t.users|
    ensures |r.users| == |t.users| && r.users[i] == u
    ensures forall k :: 0 <= k < |t.users| && k != i ==> r.users[k] == t.users[k]
    ensures r.clock == t.clock && r.requests == t.requests && r.blocks == t.blocks && r.friendships == t.friendships
  {
    t.(users := t.users[i := u])
  }

  // Each write keeps the store consistent when its table's constraint allows it.

  lemma InsertRequestConsistent(t: Tables, sender: nat, receiver: nat, note: string)
    requires Consistent(t) && !HasRequest(t.requests, sender, receiver)
    ensures Consistent(InsertRequest(t, sender, receiver, note))
  {
    InsertRequestValid(t.requests, t.nextRequestId, t.clock, NextRequest(t, sender, receiver, note));
    BlocksClockAdvance(t.blocks, t.nextBlockId, t.clock, t.clock + 1);
    FriendshipsClockAdvance(t.friendships, t.nextFriendshipId, t.clock, t.clock + 1);
  }

  lemma SaveRequestConsistent(t: Tables, i: nat, s: Status)
    requires Consistent(t) && i < |t.requests|
    ensures Consistent(SaveRequest(t, i, s))
  {
    SaveRequestValid(t.requests, t.nextRequestId, t.clock, i, s);
    BlocksClockAdvance(t.blocks, t.nextBlockId, t.clock, t.clock + 1);
    FriendshipsClockAdvance(t.friendships, t.nextFriendshipId, t.clock, t.clock + 1);
  }

  /** After get-or-create the ordered row is stored exactly once, and every row stored before still is. */
  lemma EnsureFriendshipConsistent(t: Tables, a: nat, b: nat)
    requires Consistent(t)
    ensures Consistent(EnsureFriendship(t, a, b))
    ensures Count(EnsureFriendship(t, a, b).friendships, FriendshipPair, (a, b)) == 1
  {
    var t' := EnsureFriendship(t, a, b);
    if !HasFriendship(t.friendships, a, b) {
      InsertFriendshipValid(t.friendships, t.nextFriendshipId, t.clock, Friendship(t.nextFriendshipId, a, b, t.clock));
      RequestsClockAdvance(t.requests, t.nextRequestId, t.clock, t.clock + 1);
      BlocksClockAdvance(t.blocks, t.nextBlockId, t.clock, t.clock + 1);
      assert Friendship(t.nextFriendshipId, a, b, t.clock) in t'.friendships;
    }
    FriendshipRowUnique(t'.friendships, t'.nextFriendshipId, t'.clock, a, b);
  }

  lemma DropFriendshipsBetweenConsistent(t: Tables, a: nat, b: nat)
    requires Consistent(t)
    ensures Consistent(DropFriendshipsBetween(t, a, b))
  {
    WithoutPairValid(t.friendships, t.nextFriendshipId, t.clock, a, b);
  }

  lemma InsertBlockConsistent(t: Tables, blocker: nat, blocked: nat)
    requires Consistent(t) && !HasBlock(t.blocks, blocker, blocked)
    ensures Consistent(InsertBlock(t, blocker, blocked))
  {
    InsertBlockValid(t.blocks, t.nextBlockId, t.clock, NextBlock(t, blocker, blocked));
    RequestsClockAdvance(t.requests, t.nextRequestId, t.clock, t.clock + 1);
    FriendshipsClockAdvance(t.friendships, t.nextFriendshipId, t.clock, t.clock + 1);
  }

  lemma DeleteBlockConsistent(t: Tables, i: nat)
    requires Consistent(t) && i < |t.blocks|
    ensures Consistent(DeleteBlock(t, i))
  {
    DeleteBlockValid(t.blocks, t.nextBlockId, t.clock, i);
  }

  lemma InsertUserConsistent(t: Tables, u: User)
    requires Consistent(t)
    requires u.id == t.nextUserId && !HasUsername(t.users, u.username) && u.firebaseUid == None
    requires u.googleId.Some? ==> forall v :: v in t.users ==> v.googleId != u.googleId
    ensures Consistent(InsertUser(t, u))
  {
    InsertUserValid(t.users, t.nextUserId, u);
  }

  lemma SaveUserConsistent(t: Tables, i: nat, u: User)
    requires Consistent(t) && i < |t.users|
    requires u.id == t.users[i].id && u.username == t.users[i].username
    requires u.googleId == t.users[i].googleId && u.firebaseUid == t.users[i].firebaseUid
    ensures Consistent(SaveUser(t, i, u))
  {
    SaveUserValid(t.users, t.nextUserId, i, u);
  }

  /**
   * The database the views run against. Its fields are the tables; each
   * method is one ORM write and leaves exactly the tables that write
   * describes.
   */
  class Database {
    var users: seq<User>
    var requests: seq<FriendRequest>
    var blocks: seq<BlockedUser>
    var friendships: seq<Friendship>
    var nextUserId: nat
    var nextRequestId: nat
    var nextBlockId: nat
    var nextFriendshipId: nat
    var clock: nat

    function Snapshot(): Tables
      reads this
    {
      Tables(users, requests, blocks, friendships, nextUserId, nextRequestId, nextBlockId, nextFriendshipId, clock)
    }

    ghost predicate Valid()
      reads this
    {
      Consistent(Snapshot())
    }

    constructor ()
      ensures Snapshot() == Empty && Valid()
    {
      users, requests, blocks, friendships := [], [], [], [];
      nextUserId, nextRequestId, nextBlockId, nextFriendshipId, clock := 1, 1, 1, 1, 0;
    }

    method CreateRequest(sender: nat, receiver: nat, note: string) returns (x: FriendRequest)
      modifies this
      ensures x == NextRequest(old(Snapshot()), sender, receiver, note)
      ensures Snapshot() == InsertRequest(old(Snapshot()), sender, receiver, note)
    {
      x := NewFriendRequest(nextRequestId, sender, receiver, note, clock);
      requests := requests + [x];
      nextRequestId := nextRequestId + 1;
      clock := clock + 1;
    }

    method SetStatus(i: nat, s: Status) returns (x: FriendRequest)
      requires i < |requests|
      modifies this
      ensures x == old(requests[i]).(status := s, updatedAt := old(clock))
      ensures Snapshot() == SaveRequest(old(Snapshot()), i, s)
    {
      x := requests[i].(status := s, updatedAt := clock);
      requests := requests[i := x];
      clock := clock + 1;
    }

    method GetOrCreateFriendship(a: nat, b: nat) returns (created: bool)
      modifies this
      ensures created == !HasFriendship(old(friendships), a, b)
      ensures Snapshot() == EnsureFriendship(old(Snapshot()), a, b)
    {
      created := !HasFriendship(friendships, a, b);
      if created {
        friendships := friendships + [Friendship(nextFriendshipId, a, b, clock)];
        nextFriendshipId := nextFriendshipId + 1;
        clock := clock + 1;
      }
    }

    method DeleteFriendshipsBetween(a: nat, b: nat)
      modifies this
      ensures Snapshot() == DropFriendshipsBetween(old(Snapshot()), a, b)
    {
      friendships := WithoutPair(friendships, a, b);
    }

    /** `BlockedUser.objects.get_or_create`: the stored row and `false`, or the new row and `true`. */
    method GetOrCreateBlock(blocker: nat, blocked: nat) returns (x: BlockedUser, created: bool)
      modifies this
      ensures created == !HasBlock(old(blocks), blocker, blocked)
      ensures created ==> x == NextBlock(old(Snapshot()), blocker, blocked)
      ensures !created ==> x in blocks && x.blocker == blocker && x.blocked == blocked
      ensures Snapshot() == if created then InsertBlock(old(Snapshot()), blocker, blocked) else old(Snapshot())
    {
      created := !HasBlock(blocks, blocker, blocked);
      if created {
        x := BlockedUser(nextBlockId, blocker, blocked, clock);
        blocks := blocks + [x];
        nextBlockId := nextBlockId + 1;
        clock := clock + 1;
      } else {
        x :| x in blocks && x.blocker == blocker && x.blocked == blocked;
      }
    }

    method RemoveBlock(i: nat)
      requires i < |blocks|
      modifies this
      ensures Snapshot() == DeleteBlock(old(Snapshot()), i)
    {
      blocks := blocks[..i] + blocks[i + 1..];
    }

    method CreateUser(u: User)
      modifies this
      ensures Snapshot() == InsertUser(old(Snapshot()), u)
    {
      users := users + [u];
      nextUserId := nextUserId + 1;
    }

    method UpdateUser(i: nat, u: User)
      requires i < |users|
      modifies this
      ensures Snapshot() == SaveUser(old(Snapshot()), i, u)
    {
      users := users[i := u];
    }
  }
}
