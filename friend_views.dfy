/**
 * The friendship views: sending a request, the admin gate with approve and
 * reject, blocking and unblocking, and the three listings. Each view is
 * given twice: as a function from the tables before to its answer and the
 * tables after (a `Step`), and as a method that performs the same checks and
 * writes one by one on a `Database` and is proved to agree with it.
 */
module FriendViews {
  import opened Wrappers
  import opened Sequences
  import opened UserModels
  import opened FriendModels
  import opened Store

  /** `IsAdminUser.has_permission`: signed in and flagged as an admin. */
  predicate IsAdminUser(t: Tables, actor: Actor)
    ensures IsAdminUser(t, actor) ==> actor.SignedIn? && exists u :: u in t.users && u.id == actor.id && u.isAdminUser
    ensures actor.SignedIn? && UserTableValid(t.users, t.nextUserId) && (exists u :: u in t.users && u.id == actor.id && u.isAdminUser)
            ==> IsAdminUser(t, actor)
  {
    CurrentUser(t, actor).Some? && CurrentUser(t, actor).value.isAdminUser
  }

  /** The 403 the admin gate gives: not signed in at all, or signed in without the flag. */
  function AdminDenial(t: Tables, actor: Actor): Denial
  {
    if CurrentUser(t, actor).None? then NotAuthenticated else NotAdmin
  }

  // ---------------------------------------------------------------- sending

  /**
   * `SendFriendRequestView.post` behind the default sign-in requirement: the
   * receiver must exist and differ from the sender; a block either way
   * forbids; a friendship in either ordering or a pending request for this
   * exact ordered pair is refused; otherwise one pending row is inserted,
   * which the table's pair constraint refuses with an uncaught integrity
   * error when the pair already has a decided row. Only success writes.
   */
  function SendRequestStep(t: Tables, actor: Actor, receiverId: Option<int>, note: Option<string>): (s: Step<FriendRequest>)
    ensures !s.response.Created? ==> s.after == t
    ensures s.response.Created? ==>
              && CurrentUser(t, actor).Some?
              && var x := s.response.value;
              && x.status == Pending && x.sender == actor.id && Some(x.receiver as int) == receiverId
              && x.receiver != x.sender && x.note == note.GetOr("")
              && s.after.requests == t.requests + [x]
              && s.after.blocks == t.blocks && s.after.friendships == t.friendships && s.after.users == t.users
  {
    match CurrentUser(t, actor)
    case None => Step(Forbidden(NotAuthenticated), t)
    case Some(me) =>
      match LookupUser(t, receiverId)
      case None => Step(NotFound, t)
      case Some(receiver) =>
        if receiver.id == me.id then Step(BadRequest(SelfTarget), t)
        else if BlockedBetween(t.blocks, me.id, receiver.id) then Step(Forbidden(BlockedRelation), t)
        else if FriendsBetween(t.friendships, me.id, receiver.id) then Step(BadRequest(AlreadyFriends), t)
        else if HasPending(t.requests, me.id, receiver.id) then Step(BadRequest(AlreadyPending), t)
        else if HasRequest(t.requests, me.id, receiver.id) then Step(ServerError, t)
        else
          var note := note.GetOr("");
          Step(Created(NextRequest(t, me.id, receiver.id, note)), InsertRequest(t, me.id, receiver.id, note))
  }

  method SendFriendRequest(db: Database, actor: Actor, receiverId: Option<int>, note: Option<string>)
    returns (r: Response<FriendRequest>)
    requires db.Valid()
    modifies db
    ensures db.Valid()
    ensures Step(r, db.Snapshot()) == SendRequestStep(old(db.Snapshot()), actor, receiverId, note)
  {
    SendRequestConsistent(db.Snapshot(), actor, receiverId, note);
    var me := CurrentUser(db.Snapshot(), actor);
    if me.None? {
      return Forbidden(NotAuthenticated);
    }
    var receiver := LookupUser(db.Snapshot(), receiverId);
    if receiver.None? {
      return NotFound;
    }
    var sender, target := me.value.id, receiver.value.id;
    if target == sender {
      return BadRequest(SelfTarget);
    }
    if BlockedBetween(db.blocks, sender, target) {
      return Forbidden(BlockedRelation);
    }
    if FriendsBetween(db.friendships, sender, target) {
      return BadRequest(AlreadyFriends);
    }
    if HasPending(db.requests, sender, target) {
      return BadRequest(AlreadyPending);
    }
    if HasRequest(db.requests, sender, target) {
      // the insert violates unique_together (sender, receiver)
      return ServerError;
    }
    var x := db.CreateRequest(sender, target, note.GetOr(""));
    r := Created(x);
  }

  /** Sending writes nothing, or inserts the caller's request to the looked-up receiver, whose ordered pair has no row yet. */
  lemma SendRequestWrites(t: Tables, actor: Actor, receiverId: Option<int>, note: Option<string>)
    ensures var after := SendRequestStep(t, actor, receiverId, note).after;
            || after == t
            || (&& actor.SignedIn? && LookupUser(t, receiverId).Some?
                && !HasRequest(t.requests, actor.id, LookupUser(t, receiverId).value.id)
                && after == InsertRequest(t, actor.id, LookupUser(t, receiverId).value.id, note.GetOr("")))
  {
  }

  lemma SendRequestConsistent(t: Tables, actor: Actor, receiverId: Option<int>, note: Option<string>)
    requires Consistent(t)
    ensures Consistent(SendRequestStep(t, actor, receiverId, note).after)
  {
    SendRequestWrites(t, actor, receiverId, note);
    if actor.SignedIn? && LookupUser(t, receiverId).Some? && !HasRequest(t.requests, actor.id, LookupUser(t, receiverId).value.id) {
      InsertRequestConsistent(t, actor.id, LookupUser(t, receiverId).value.id, note.GetOr(""));
    }
  }

  // ---------------------------------------------------------------- deciding

  /** `ApproveRequestView.post`: admins only; the id must name a pending row, which becomes approved and gets its friendship. */
  function ApproveStep(t: Tables, actor: Actor, pk: nat): (s: Step<FriendRequest>)
    ensures s.response.Forbidden? <==> !IsAdminUser(t, actor)
    ensures s.response.NotFound? <==> IsAdminUser(t, actor) && PendingIndex(t.requests, pk).None?
    ensures !s.response.Ok? ==> s.after == t
    ensures s.response.Ok? ==> && s.response.value.id == pk && s.response.value.status == Approved
                               && s.response.value in s.after.requests
                               && HasFriendship(s.after.friendships, s.response.value.sender, s.response.value.receiver)
    ensures s.after.blocks == t.blocks && s.after.users == t.users
  {
    if !IsAdminUser(t, actor) then Step(Forbidden(AdminDenial(t, actor)), t)
    else match PendingIndex(t.requests, pk)
      case None => Step(NotFound, t)
      case Some(i) =>
        var saved := SaveRequest(t, i, Approved);
        var x := saved.requests[i];
        Step(Ok(x), EnsureFriendship(saved, x.sender, x.receiver))
  }

  /** `RejectRequestView.post`: admins only; the id must name a pending row, which becomes rejected. */
  function RejectStep(t: Tables, actor: Actor, pk: nat): (s: Step<FriendRequest>)
    ensures s.response.Forbidden? <==> !IsAdminUser(t, actor)
    ensures s.response.NotFound? <==> IsAdminUser(t, actor) && PendingIndex(t.requests, pk).None?
    ensures !s.response.Ok? ==> s.after == t
    ensures s.response.Ok? ==> && s.response.value.id == pk && s.response.value.status == Rejected
                               && s.response.value in s.after.requests
    ensures s.after.friendships == t.friendships && s.after.blocks == t.blocks && s.after.users == t.users
  {
    if !IsAdminUser(t, actor) then Step(Forbidden(AdminDenial(t, actor)), t)
    else match PendingIndex(t.requests, pk)
      case None => Step(NotFound, t)
      case Some(i) =>
        var saved := SaveRequest(t, i, Rejected);
        Step(Ok(saved.requests[i]), saved)
  }

  method ApproveRequest(db: Database, actor: Actor, pk: nat) returns (r: Response<FriendRequest>)
    requires db.Valid()
    modifies db
    ensures db.Valid()
    ensures Step(r, db.Snapshot()) == ApproveStep(old(db.Snapshot()), actor, pk)
  {
    ApproveConsistent(db.Snapshot(), actor, pk);
    if !IsAdminUser(db.Snapshot(), actor) {
      return Forbidden(AdminDenial(db.Snapshot(), actor));
    }
    var i := PendingIndex(db.requests, pk);
    if i.None? {
      return NotFound;
    }
    var x := db.SetStatus(i.value, Approved);
    var _ := db.GetOrCreateFriendship(x.sender, x.receiver);
    r := Ok(x);
  }

  method RejectRequest(db: Database, actor: Actor, pk: nat) returns (r: Response<FriendRequest>)
    requires db.Valid()
    modifies db
    ensures db.Valid()
    ensures Step(r, db.Snapshot()) == RejectStep(old(db.Snapshot()), actor, pk)
  {
    RejectConsistent(db.Snapshot(), actor, pk);
    if !IsAdminUser(db.Snapshot(), actor) {
      return Forbidden(AdminDenial(db.Snapshot(), actor));
    }
    var i := PendingIndex(db.requests, pk);
    if i.None? {
      return NotFound;
    }
    var x := db.SetStatus(i.value, Rejected);
    r := Ok(x);
  }

  lemma ApproveConsistent(t: Tables, actor: Actor, pk: nat)
    requires Consistent(t)
    ensures Consistent(ApproveStep(t, actor, pk).after)
  {
    if IsAdminUser(t, actor) && PendingIndex(t.requests, pk).Some? {
      var i := PendingIndex(t.requests, pk).value;
      SaveRequestConsistent(t, i, Approved);
      var saved := SaveRequest(t, i, Approved);
      EnsureFriendshipConsistent(saved, saved.requests[i].sender, saved.requests[i].receiver);
    }
  }

  lemma RejectConsistent(t: Tables, actor: Actor, pk: nat)
    requires Consistent(t)
    ensures Consistent(RejectStep(t, actor, pk).after)
  {
    if IsAdminUser(t, actor) && PendingIndex(t.requests, pk).Some? {
      SaveRequestConsistent(t, PendingIndex(t.requests, pk).value, Rejected);
    }
  }

  // ---------------------------------------------------------------- blocking

  /**
   * `BlockUserView.post`: the target must exist and differ from the caller;
   * every friendship between the two goes, in either ordering; then the
   * ordered block row is got or created, and an existing one answers 400
   * with the friendships already gone.
   */
  function BlockStep(t: Tables, actor: Actor, userId: Option<int>): (s: Step<BlockedUser>)
    ensures s.response.Forbidden? || s.response.NotFound? || s.response == BadRequest(SelfTarget) ==> s.after == t
    ensures s.response.Created? ==> && actor.SignedIn? && s.response.value.blocker == actor.id
                                    && Some(s.response.value.blocked as int) == userId
                                    && s.response.value.blocker != s.response.value.blocked
                                    && s.response.value in s.after.blocks
    ensures s.response.Created? || s.response == BadRequest(AlreadyBlocked) ==>
              && actor.SignedIn? && userId.Some? && userId.value >= 0
              && !FriendsBetween(s.after.friendships, actor.id, userId.value as nat)
              && HasBlock(s.after.blocks, actor.id, userId.value as nat)
    ensures s.after.requests == t.requests && s.after.users == t.users
  {
    match CurrentUser(t, actor)
    case None => Step(Forbidden(NotAuthenticated), t)
    case Some(me) =>
      match LookupUser(t, userId)
      case None => Step(NotFound, t)
      case Some(target) =>
        if target.id == me.id then Step(BadRequest(SelfTarget), t)
        else
          var unfriended := DropFriendshipsBetween(t, me.id, target.id);
          if HasBlock(unfriended.blocks, me.id, target.id) then Step(BadRequest(AlreadyBlocked), unfriended)
          else Step(Created(NextBlock(unfriended, me.id, target.id)), InsertBlock(unfriended, me.id, target.id))
  }

  /** `UnblockUserView.post`: the block must exist and belong to the caller; it is deleted and nothing else changes. */
  function UnblockStep(t: Tables, actor: Actor, pk: nat): (s: Step<()>)
    ensures !s.response.Ok? ==> s.after == t
    ensures s.response.Ok? ==> && actor.SignedIn? && |s.after.blocks| + 1 == |t.blocks|
                               && exists x :: x in t.blocks && x.id == pk && x.blocker == actor.id
    ensures s.after.requests == t.requests && s.after.friendships == t.friendships && s.after.users == t.users
  {
    match CurrentUser(t, actor)
    case None => Step(Forbidden(NotAuthenticated), t)
    case Some(me) =>
      match OwnedBlockIndex(t.blocks, pk, me.id)
      case None => Step(NotFound, t)
      case Some(i) => Step(Ok(()), DeleteBlock(t, i))
  }

  method BlockUser(db: Database, actor: Actor, userId: Option<int>) returns (r: Response<BlockedUser>)
    requires db.Valid()
    modifies db
    ensures db.Valid()
    ensures Step(r, db.Snapshot()) == BlockStep(old(db.Snapshot()), actor, userId)
  {
    BlockConsistent(db.Snapshot(), actor, userId);
    var me := CurrentUser(db.Snapshot(), actor);
    if me.None? {
      return Forbidden(NotAuthenticated);
    }
    var target := LookupUser(db.Snapshot(), userId);
    if target.None? {
      return NotFound;
    }
    if target.value.id == me.value.id {
      return BadRequest(SelfTarget);
    }
    db.DeleteFriendshipsBetween(me.value.id, target.value.id);
    var x, created := db.GetOrCreateBlock(me.value.id, target.value.id);
    if !created {
      return BadRequest(AlreadyBlocked);
    }
    r := Created(x);
  }

  method UnblockUser(db: Database, actor: Actor, pk: nat) returns (r: Response<()>)
    requires db.Valid()
    modifies db
    ensures db.Valid()
    ensures Step(r, db.Snapshot()) == UnblockStep(old(db.Snapshot()), actor, pk)
  {
    UnblockConsistent(db.Snapshot(), actor, pk);
    var me := CurrentUser(db.Snapshot(), actor);
    if me.None? {
      return Forbidden(NotAuthenticated);
    }
    var i := OwnedBlockIndex(db.blocks, pk, me.value.id);
    if i.None? {
      return NotFound;
    }
    db.RemoveBlock(i.value);
    r := Ok(());
  }

  lemma BlockConsistent(t: Tables, actor: Actor, userId: Option<int>)
    requires Consistent(t)
    ensures Consistent(BlockStep(t, actor, userId).after)
  {
    var me := CurrentUser(t, actor);
    var target := LookupUser(t, userId);
    if me.Some? && target.Some? && target.value.id != me.value.id {
      DropFriendshipsBetweenConsistent(t, me.value.id, target.value.id);
      var unfriended := DropFriendshipsBetween(t, me.value.id, target.value.id);
      if !HasBlock(unfriended.blocks, me.value.id, target.value.id) {
        InsertBlockConsistent(unfriended, me.value.id, target.value.id);
      }
    }
  }

  lemma UnblockConsistent(t: Tables, actor: Actor, pk: nat)
    requires Consistent(t)
    ensures Consistent(UnblockStep(t, actor, pk).after)
  {
    var me := CurrentUser(t, actor);
    if me.Some? && OwnedBlockIndex(t.blocks, pk, me.value.id).Some? {
      DeleteBlockConsistent(t, OwnedBlockIndex(t.blocks, pk, me.value.id).value);
    }
  }

  // ---------------------------------------------------------------- listings

  /** `MyFriendsView.get_queryset`: every friendship the caller is part of, on either side, newest first. */
  function MyFriends(t: Tables, actor: Actor): (r: Response<seq<Friendship>>)
    ensures CurrentUser(t, actor).None? <==> r == Forbidden(NotAuthenticated)
    ensures r.Ok? ==> forall f :: f in r.value <==> f in t.friendships && (f.user1 == actor.id || f.user2 == actor.id)
    ensures r.Ok? && Consistent(t) ==> Descending(r.value, FriendshipCreated)
  {
    match CurrentUser(t, actor)
    case None => Forbidden(NotAuthenticated)
    case Some(me) =>
      var p := (f: Friendship) => f.user1 == me.id || f.user2 == me.id;
      var mine := Filter(t.friendships, p);
      NewestFirst(t.friendships, p, FriendshipCreated);
      Ok(Reverse(mine))
  }

  /** `PendingRequestsView.get_queryset` behind the admin gate: every pending request, newest first. */
  function PendingRequests(t: Tables, actor: Actor): (r: Response<seq<FriendRequest>>)
    ensures !IsAdminUser(t, actor) <==> r == Forbidden(AdminDenial(t, actor))
    ensures r.Ok? ==> forall x :: x in r.value <==> x in t.requests && x.status == Pending
    ensures r.Ok? && Consistent(t) ==> Descending(r.value, RequestCreated)
  {
    if !IsAdminUser(t, actor) then Forbidden(AdminDenial(t, actor))
    else
      var p := (x: FriendRequest) => x.status == Pending;
      NewestFirst(t.requests, p, RequestCreated);
      Ok(Reverse(Filter(t.requests, p)))
  }

  /** `BlockedUsersListView.get_queryset`: the blocks the caller made (not those made against the caller), newest first. */
  function BlockedUsersList(t: Tables, actor: Actor): (r: Response<seq<BlockedUser>>)
    ensures CurrentUser(t, actor).None? <==> r == Forbidden(NotAuthenticated)
    ensures r.Ok? ==> forall b :: b in r.value <==> b in t.blocks && b.blocker == actor.id
    ensures r.Ok? && Consistent(t) ==> Descending(r.value, BlockCreated)
  {
    match CurrentUser(t, actor)
    case None => Forbidden(NotAuthenticated)
    case Some(me) =>
      var p := (b: BlockedUser) => b.blocker == me.id;
      NewestFirst(t.blocks, p, BlockCreated);
      Ok(Reverse(Filter(t.blocks, p)))
  }

  // ---------------------------------------------------------------- properties of sending

  /** Sending to oneself is refused before the block and friendship checks, and writes nothing. */
  lemma SendToSelfRefused(t: Tables, actor: Actor, note: Option<string>)
    requires CurrentUser(t, actor).Some?
    ensures SendRequestStep(t, actor, Some(actor.id), note) == Step(BadRequest(SelfTarget), t)
  {
  }

  /** A block in either direction forbids sending in both directions, and nothing is written. */
  lemma SendAcrossBlockForbidden(t: Tables, actor: Actor, receiver: User, note: Option<string>)
    requires CurrentUser(t, actor).Some? && receiver in t.users && receiver.id != actor.id
    requires BlockedBetween(t.blocks, actor.id, receiver.id)
    ensures SendRequestStep(t, actor, Some(receiver.id), note) == Step(Forbidden(BlockedRelation), t)
  {
  }

  /** A friendship stored in either ordering refuses a new request, and nothing is written. */
  lemma SendToFriendRefused(t: Tables, actor: Actor, receiver: User, note: Option<string>)
    requires CurrentUser(t, actor).Some? && receiver in t.users && receiver.id != actor.id
    requires !BlockedBetween(t.blocks, actor.id, receiver.id)
    requires FriendsBetween(t.friendships, actor.id, receiver.id)
    ensures SendRequestStep(t, actor, Some(receiver.id), note) == Step(BadRequest(AlreadyFriends), t)
  {
  }

  /**
   * A request is created exactly when the sender is signed in, the receiver
   * exists and differs, no block lies between them either way, no friendship
   * in either ordering, and no row yet for this ordered pair. Only a pending
   * row for the same ordered pair is answered 400; any other existing row
   * for it makes the insert fail.
   */
  lemma SendCreatedIff(t: Tables, actor: Actor, receiverId: Option<int>, note: Option<string>)
    ensures SendRequestStep(t, actor, receiverId, note).response.Created? <==>
              && CurrentUser(t, actor).Some? && LookupUser(t, receiverId).Some?
              && var b := LookupUser(t, receiverId).value.id;
              && b != actor.id
              && !BlockedBetween(t.blocks, actor.id, b) && !FriendsBetween(t.friendships, actor.id, b)
              && !HasRequest(t.requests, actor.id, b)
    ensures SendRequestStep(t, actor, receiverId, note).response == BadRequest(AlreadyPending) <==>
              && CurrentUser(t, actor).Some? && LookupUser(t, receiverId).Some?
              && var b := LookupUser(t, receiverId).value.id;
              && b != actor.id
              && !BlockedBetween(t.blocks, actor.id, b) && !FriendsBetween(t.friendships, actor.id, b)
              && HasPending(t.requests, actor.id, b)
  {
    if CurrentUser(t, actor).Some? && LookupUser(t, receiverId).Some? {
      var b := LookupUser(t, receiverId).value.id;
      if HasPending(t.requests, actor.id, b) {
        var x :| x in t.requests && x.sender == actor.id && x.receiver == b && x.status == Pending;
        assert HasRequest(t.requests, actor.id, b);
      }
    }
  }

  /** A pending request from B to A does not keep A from sending to B. */
  lemma ReversePendingDoesNotBlock(t: Tables, actor: Actor, receiver: User, note: Option<string>)
    requires Consistent(t)
    requires CurrentUser(t, actor).Some? && receiver in t.users && receiver.id != actor.id
    requires !BlockedBetween(t.blocks, actor.id, receiver.id) && !FriendsBetween(t.friendships, actor.id, receiver.id)
    requires HasPending(t.requests, receiver.id, actor.id) && !HasRequest(t.requests, actor.id, receiver.id)
    ensures SendRequestStep(t, actor, Some(receiver.id), note).response.Created?
    ensures HasPending(SendRequestStep(t, actor, Some(receiver.id), note).after.requests, receiver.id, actor.id)
    ensures HasPending(SendRequestStep(t, actor, Some(receiver.id), note).after.requests, actor.id, receiver.id)
  {
    SendCreatedIff(t, actor, Some(receiver.id), note);
    var s := SendRequestStep(t, actor, Some(receiver.id), note);
    var y :| y in t.requests && y.sender == receiver.id && y.receiver == actor.id && y.status == Pending;
    assert y in s.after.requests;
    assert s.response.value in s.after.requests;
  }

  /** Re-sending after a decision hits the pair constraint: the insert fails and nothing is written. */
  lemma ResendAfterDecisionFails(t: Tables, actor: Actor, receiver: User, note: Option<string>, old_: FriendRequest)
    requires Consistent(t)
    requires CurrentUser(t, actor).Some? && receiver in t.users && receiver.id != actor.id
    requires !BlockedBetween(t.blocks, actor.id, receiver.id) && !FriendsBetween(t.friendships, actor.id, receiver.id)
    requires old_ in t.requests && old_.sender == actor.id && old_.receiver == receiver.id && old_.status != Pending
    ensures SendRequestStep(t, actor, Some(receiver.id), note) == Step(ServerError, t)
  {
    assert HasRequest(t.requests, actor.id, receiver.id);
    forall x | x in t.requests && x.sender == actor.id && x.receiver == receiver.id ensures x.status != Pending {
      RequestPairDetermines(t.requests, t.nextRequestId, t.clock, x, old_);
    }
    var me := CurrentUser(t, actor).value;
    var found := LookupUser(t, Some(receiver.id)).value;
    assert found.id == receiver.id;
  }

  // ---------------------------------------------------------------- properties of deciding

  /** Without the admin gate nothing can be listed, approved or rejected, and nothing is written. */
  lemma AdminGateRequired(t: Tables, actor: Actor, pk: nat)
    requires !IsAdminUser(t, actor)
    ensures PendingRequests(t, actor).Forbidden?
    ensures ApproveStep(t, actor, pk) == Step(Forbidden(AdminDenial(t, actor)), t)
    ensures RejectStep(t, actor, pk) == Step(Forbidden(AdminDenial(t, actor)), t)
  {
  }

  /** Only pending rows can be decided: an id that is missing or already decided is 404 and writes nothing. */
  lemma DecidedIsTerminal(t: Tables, actor: Actor, pk: nat)
    requires IsAdminUser(t, actor)
    requires forall x :: x in t.requests && x.id == pk ==> x.status != Pending
    ensures ApproveStep(t, actor, pk) == Step(NotFound, t)
    ensures RejectStep(t, actor, pk) == Step(NotFound, t)
  {
  }

  /**
   * Approving a pending request changes that row alone, to approved and
   * stamped now, keeps every stored friendship and adds at most the row
   * (sender, receiver), which afterwards is stored exactly once.
   */
  lemma ApproveOutcome(t: Tables, actor: Actor, pk: nat)
    requires Consistent(t) && IsAdminUser(t, actor) && PendingIndex(t.requests, pk).Some?
    ensures var i := PendingIndex(t.requests, pk).value;
            var x := t.requests[i];
            var s := ApproveStep(t, actor, pk);
            && x.id == pk && x.status == Pending
            && s.response == Ok(x.(status := Approved, updatedAt := t.clock))
            && s.after.requests == t.requests[i := x.(status := Approved, updatedAt := t.clock)]
            && Count(s.after.friendships, FriendshipPair, (x.sender, x.receiver)) == 1
            && (forall f :: f in t.friendships ==> f in s.after.friendships)
            && (forall f :: f in s.after.friendships && f !in t.friendships ==> f.user1 == x.sender && f.user2 == x.receiver)
            && s.after.blocks == t.blocks && s.after.users == t.users
  {
    var i := PendingIndex(t.requests, pk).value;
    var saved := SaveRequest(t, i, Approved);
    SaveRequestConsistent(t, i, Approved);
    EnsureFriendshipConsistent(saved, t.requests[i].sender, t.requests[i].receiver);
  }

  /** A friendship stored as (receiver, sender) does not stop approval from storing (sender, receiver) beside it. */
  lemma ReverseFriendshipDoesNotSuppress(t: Tables, actor: Actor, pk: nat)
    requires Consistent(t) && IsAdminUser(t, actor) && PendingIndex(t.requests, pk).Some?
    requires var x := t.requests[PendingIndex(t.requests, pk).value];
             HasFriendship(t.friendships, x.receiver, x.sender) && !HasFriendship(t.friendships, x.sender, x.receiver)
    ensures var x := t.requests[PendingIndex(t.requests, pk).value];
            var after := ApproveStep(t, actor, pk).after;
            HasFriendship(after.friendships, x.sender, x.receiver) && HasFriendship(after.friendships, x.receiver, x.sender)
  {
    var x := t.requests[PendingIndex(t.requests, pk).value];
    var f :| f in t.friendships && f.user1 == x.receiver && f.user2 == x.sender;
    ApproveOutcome(t, actor, pk);
    var after := ApproveStep(t, actor, pk).after;
    assert f in after.friendships;
    assert Count(after.friendships, FriendshipPair, (x.sender, x.receiver)) != 0;
  }

  /** An approved request cannot be approved or rejected again. */
  lemma ApproveTwiceNotFound(t: Tables, actor: Actor, pk: nat)
    requires Consistent(t) && IsAdminUser(t, actor) && PendingIndex(t.requests, pk).Some?
    ensures var after := ApproveStep(t, actor, pk).after;
            ApproveStep(after, actor, pk) == Step(NotFound, after) && RejectStep(after, actor, pk) == Step(NotFound, after)
  {
    var i := PendingIndex(t.requests, pk).value;
    ApproveOutcome(t, actor, pk);
    var after := ApproveStep(t, actor, pk).after;
    assert CurrentUser(after, actor) == CurrentUser(t, actor);
    forall k | 0 <= k < |t.requests| && k != i ensures RequestId(t.requests[k]) != pk {
      assert RequestId(t.requests[i]) == pk;
    }
    forall x | x in after.requests && x.id == pk ensures x.status != Pending {
      var k :| 0 <= k < |after.requests| && after.requests[k] == x;
    }
    DecidedIsTerminal(after, actor, pk);
  }

  /** Rejecting a pending request changes that row's status and stamp alone; no friendship appears or goes. */
  lemma RejectOutcome(t: Tables, actor: Actor, pk: nat)
    requires IsAdminUser(t, actor) && PendingIndex(t.requests, pk).Some?
    ensures var i := PendingIndex(t.requests, pk).value;
            var x := t.requests[i];
            var s := RejectStep(t, actor, pk);
            && x.id == pk && x.status == Pending
            && s.response == Ok(x.(status := Rejected, updatedAt := t.clock))
            && s.after.requests == t.requests[i := x.(status := Rejected, updatedAt := t.clock)]
            && s.after.friendships == t.friendships && s.after.blocks == t.blocks && s.after.users == t.users
  {
  }

  // ---------------------------------------------------------------- properties of blocking

  lemma BlockSelfRefused(t: Tables, actor: Actor)
    requires CurrentUser(t, actor).Some?
    ensures BlockStep(t, actor, Some(actor.id)) == Step(BadRequest(SelfTarget), t)
  {
  }

  /**
   * Blocking another user removes every friendship between the two in either
   * ordering and leaves the ordered block row stored; it is created (201)
   * exactly when it was not already there, and otherwise the answer is 400
   * with the friendships still removed. Requests are never touched.
   */
  lemma BlockOutcome(t: Tables, actor: Actor, target: User)
    requires CurrentUser(t, actor).Some? && target in t.users && target.id != actor.id
    ensures var s := BlockStep(t, actor, Some(target.id));
            && !FriendsBetween(s.after.friendships, actor.id, target.id)
            && (forall f :: f in s.after.friendships <==> f in t.friendships && !Joins(f, actor.id, target.id))
            && HasBlock(s.after.blocks, actor.id, target.id)
            && (s.response.Created? <==> !HasBlock(t.blocks, actor.id, target.id))
            && (s.response.Created? ==> s.after.blocks == t.blocks + [s.response.value]
                                        && s.response.value.blocker == actor.id && s.response.value.blocked == target.id)
            && (!s.response.Created? ==> s.response == BadRequest(AlreadyBlocked) && s.after.blocks == t.blocks)
            && s.after.requests == t.requests && s.after.users == t.users
  {
    var s := BlockStep(t, actor, Some(target.id));
    if s.response.Created? {
      assert s.response.value in s.after.blocks;
    }
  }

  /** After A blocks B, neither of them can send the other a request. */
  lemma BlockedPairCannotSend(t: Tables, actor: Actor, target: User, note: Option<string>)
    requires CurrentUser(t, actor).Some? && target in t.users && target.id != actor.id
    ensures var after := BlockStep(t, actor, Some(target.id)).after;
            && SendRequestStep(after, actor, Some(target.id), note) == Step(Forbidden(BlockedRelation), after)
            && SendRequestStep(after, SignedIn(target.id), Some(actor.id), note) == Step(Forbidden(BlockedRelation), after)
  {
    BlockOutcome(t, actor, target);
    var after := BlockStep(t, actor, Some(target.id)).after;
    var me := CurrentUser(t, actor).value;
    assert me in after.users;
  }

  /** Blocks are directional: A may block B while B's block of A stands. */
  lemma MutualBlocksCoexist(t: Tables, actor: Actor, target: User)
    requires Consistent(t)
    requires CurrentUser(t, actor).Some? && target in t.users && target.id != actor.id
    requires HasBlock(t.blocks, target.id, actor.id) && !HasBlock(t.blocks, actor.id, target.id)
    ensures var s := BlockStep(t, actor, Some(target.id));
            && s.response.Created? && Consistent(s.after)
            && HasBlock(s.after.blocks, actor.id, target.id) && HasBlock(s.after.blocks, target.id, actor.id)
  {
    BlockOutcome(t, actor, target);
    BlockConsistent(t, actor, Some(target.id));
    var b :| b in t.blocks && b.blocker == target.id && b.blocked == actor.id;
    assert b in BlockStep(t, actor, Some(target.id)).after.blocks;
  }

  /**
   * Unblocking deletes the block only when the caller made it: any other id,
   * including a block made against the caller, is 404 and writes nothing.
   */
  lemma UnblockOutcome(t: Tables, actor: Actor, pk: nat)
    requires CurrentUser(t, actor).Some?
    ensures var s := UnblockStep(t, actor, pk);
            && (s.response.Ok? <==> exists b :: b in t.blocks && b.id == pk && b.blocker == actor.id)
            && (!s.response.Ok? ==> s == Step(NotFound, t))
            && (s.response.Ok? ==> exists i :: 0 <= i < |t.blocks| && t.blocks[i].id == pk && t.blocks[i].blocker == actor.id
                                            && s.after.blocks == t.blocks[..i] + t.blocks[i + 1..])
            && s.after.requests == t.requests && s.after.friendships == t.friendships && s.after.users == t.users
  {
    var s := UnblockStep(t, actor, pk);
    var found := OwnedBlockIndex(t.blocks, pk, actor.id);
    if found.Some? {
      assert t.blocks[found.value] in t.blocks;
    } else {
      forall b | b in t.blocks ensures !(b.id == pk && b.blocker == actor.id) {
        var k :| 0 <= k < |t.blocks| && t.blocks[k] == b;
      }
    }
  }
}
