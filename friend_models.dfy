/**
 * The three relations of the friendship app (`FriendRequest`, `BlockedUser`,
 * `Friendship`), their status choices and defaults, and the table
 * constraints: `unique_together` on an ordered pair, ids handed out in
 * increasing order, and the creation stamps that order every listing.
 * Users are referred to by id; time is an abstract counter that grows with
 * every write.
 */
module FriendModels {
  import opened Wrappers
  import opened Sequences

  /** The status choices of a request. The type admits nothing else. */
  datatype Status = Pending | Approved | Rejected

  /** The column default of `status`. */
  const DefaultStatus: Status := Pending

  datatype FriendRequest = FriendRequest(
    id: nat, sender: nat, receiver: nat, note: string, status: Status, createdAt: nat, updatedAt: nat)

  datatype BlockedUser = BlockedUser(id: nat, blocker: nat, blocked: nat, createdAt: nat)

  datatype Friendship = Friendship(id: nat, user1: nat, user2: nat, createdAt: nat)

  /** A request as `objects.create` writes it at time `now`: status takes its default, both stamps are `now`. */
  function NewFriendRequest(id: nat, sender: nat, receiver: nat, note: string, now: nat): (r: FriendRequest)
    ensures r.status == Pending
    ensures r.id == id && r.sender == sender && r.receiver == receiver && r.note == note
    ensures r.createdAt == now && r.updatedAt == now
  {
    FriendRequest(id, sender, receiver, note, DefaultStatus, now, now)
  }

  // Projections, one per key the constraints and orderings use.
  function RequestId(r: FriendRequest): int { r.id }
  function RequestCreated(r: FriendRequest): int { r.createdAt }
  function RequestUpdated(r: FriendRequest): int { r.updatedAt }
  function RequestPair(r: FriendRequest): (nat, nat) { (r.sender, r.receiver) }
  function BlockId(b: BlockedUser): int { b.id }
  function BlockCreated(b: BlockedUser): int { b.createdAt }
  function BlockPair(b: BlockedUser): (nat, nat) { (b.blocker, b.blocked) }
  function FriendshipId(f: Friendship): int { f.id }
  function FriendshipCreated(f: Friendship): int { f.createdAt }
  function FriendshipPair(f: Friendship): (nat, nat) { (f.user1, f.user2) }

  /**
   * The request table: increasing ids below `nextId`, creation stamps
   * increasing in table order, every stamp earlier than `clock`, an update
   * never before creation, and at most one row per ordered (sender, receiver)
   * pair whatever its status.
   */
  ghost predicate RequestTableValid(rs: seq<FriendRequest>, nextId: nat, clock: nat)
  {
    && Ascending(rs, RequestId) && Below(rs, RequestId, nextId)
    && Ascending(rs, RequestCreated) && Below(rs, RequestUpdated, clock)
    && (forall i :: 0 <= i < |rs| ==> rs[i].createdAt <= rs[i].updatedAt)
    && Distinct(rs, RequestPair)
  }

  /** The block table: as above, one row per ordered (blocker, blocked) pair; (A, B) and (B, A) are different pairs. */
  ghost predicate BlockTableValid(bs: seq<BlockedUser>, nextId: nat, clock: nat)
  {
    && Ascending(bs, BlockId) && Below(bs, BlockId, nextId)
    && Ascending(bs, BlockCreated) && Below(bs, BlockCreated, clock)
    && Distinct(bs, BlockPair)
  }

  /** The friendship table: one row per ordered (user1, user2) pair only, so (A, B) and (B, A) may both be stored. */
  ghost predicate FriendshipTableValid(fs: seq<Friendship>, nextId: nat, clock: nat)
  {
    && Ascending(fs, FriendshipId) && Below(fs, FriendshipId, nextId)
    && Ascending(fs, FriendshipCreated) && Below(fs, FriendshipCreated, clock)
    && Distinct(fs, FriendshipPair)
  }

  // The lookups the views run.

  /** Some request row exists for the ordered pair, whatever its status. */
  predicate HasRequest(rs: seq<FriendRequest>, sender: nat, receiver: nat)
  {
    exists r | r in rs :: r.sender == sender && r.receiver == receiver
  }

  /** A pending request exists for exactly this ordered pair. */
  predicate HasPending(rs: seq<FriendRequest>, sender: nat, receiver: nat)
  {
    exists r | r in rs :: r.sender == sender && r.receiver == receiver && r.status == Pending
  }

  /** `blocker` has blocked `blocked`. */
  predicate HasBlock(bs: seq<BlockedUser>, blocker: nat, blocked: nat)
  {
    exists b | b in bs :: b.blocker == blocker && b.blocked == blocked
  }

  /** A block exists between the two users, in either direction. */
  predicate BlockedBetween(bs: seq<BlockedUser>, a: nat, b: nat)
  {
    HasBlock(bs, a, b) || HasBlock(bs, b, a)
  }

  /** A friendship row is stored with exactly this ordering. */
  predicate HasFriendship(fs: seq<Friendship>, user1: nat, user2: nat)
  {
    exists f | f in fs :: f.user1 == user1 && f.user2 == user2
  }

  /** The row joins the two users, in either ordering. */
  predicate Joins(f: Friendship, a: nat, b: nat)
  {
    (f.user1 == a && f.user2 == b) || (f.user1 == b && f.user2 == a)
  }

  /** A friendship is stored between the two users, in either ordering. */
  predicate FriendsBetween(fs: seq<Friendship>, a: nat, b: nat)
  {
    HasFriendship(fs, a, b) || HasFriendship(fs, b, a)
  }

  /** The row a `get(id=pk, status='pending')` finds. */
  function PendingIndex(rs: seq<FriendRequest>, pk: int): Option<nat>
  {
    FirstIndex(rs, (r: FriendRequest) => r.id == pk && r.status == Pending)
  }

  /** The row a `get(id=pk, blocker=user)` finds: the block must belong to `blocker`. */
  function OwnedBlockIndex(bs: seq<BlockedUser>, pk: int, blocker: nat): Option<nat>
  {
    FirstIndex(bs, (b: BlockedUser) => b.id == pk && b.blocker == blocker)
  }

  /** The friendship table after deleting every row that joins `a` and `b`, in either ordering. */
  function WithoutPair(fs: seq<Friendship>, a: nat, b: nat): (r: seq<Friendship>)
    ensures !FriendsBetween(r, a, b)
    ensures forall f :: f in r <==> f in fs && !Joins(f, a, b)
  {
    Filter(fs, (f: Friendship) => !Joins(f, a, b))
  }

  // How each kind of write keeps a table valid.

  // A later clock bounds the stamps of an unchanged table too.

  lemma RequestsClockAdvance(rs: seq<FriendRequest>, nextId: nat, clock: nat, later: nat)
    requires RequestTableValid(rs, nextId, clock) && clock <= later
    ensures RequestTableValid(rs, nextId, later)
  {
    assert forall i :: 0 <= i < |rs| ==> RequestUpdated(rs[i]) < clock;
  }

  lemma BlocksClockAdvance(bs: seq<BlockedUser>, nextId: nat, clock: nat, later: nat)
    requires BlockTableValid(bs, nextId, clock) && clock <= later
    ensures BlockTableValid(bs, nextId, later)
  {
    assert forall i :: 0 <= i < |bs| ==> BlockCreated(bs[i]) < clock;
  }

  lemma FriendshipsClockAdvance(fs: seq<Friendship>, nextId: nat, clock: nat, later: nat)
    requires FriendshipTableValid(fs, nextId, clock) && clock <= later
    ensures FriendshipTableValid(fs, nextId, later)
  {
    assert forall i :: 0 <= i < |fs| ==> FriendshipCreated(fs[i]) < clock;
  }

  /** Inserting a request for a pair with no row yet, with the next id and stamped now. */
  lemma {:induction false} InsertRequestValid(rs: seq<FriendRequest>, nextId: nat, clock: nat, x: FriendRequest)
    requires RequestTableValid(rs, nextId, clock)
    requires !HasRequest(rs, x.sender, x.receiver)
    requires x.id == nextId && x.createdAt == clock && x.updatedAt == clock
    ensures RequestTableValid(rs + [x], nextId + 1, clock + 1)
  {
    var rs' := rs + [x];
    forall i, j | 0 <= i < j < |rs'| ensures RequestPair(rs'[i]) != RequestPair(rs'[j]) {
      if j == |rs| { assert rs[i] in rs; }
    }
    assert forall i :: 0 <= i < |rs| ==> RequestCreated(rs[i]) <= RequestUpdated(rs[i]) < clock;
  }

  /** Saving row `i` with a new status and stamp keeps the table valid. */
  lemma {:induction false} SaveRequestValid(rs: seq<FriendRequest>, nextId: nat, clock: nat, i: nat, s: Status)
    requires RequestTableValid(rs, nextId, clock) && i < |rs|
    ensures RequestTableValid(rs[i := rs[i].(status := s, updatedAt := clock)], nextId, clock + 1)
  {
    var rs' := rs[i := rs[i].(status := s, updatedAt := clock)];
    assert forall k :: 0 <= k < |rs| ==> RequestId(rs'[k]) == RequestId(rs[k]);
    assert forall k :: 0 <= k < |rs| ==> RequestCreated(rs'[k]) == RequestCreated(rs[k]);
    assert forall k :: 0 <= k < |rs| ==> RequestPair(rs'[k]) == RequestPair(rs[k]);
    assert forall k :: 0 <= k < |rs| ==> RequestUpdated(rs[k]) < clock;
    assert forall k :: 0 <= k < |rs| ==> rs[k].createdAt < clock;
  }

  /** Changing only the status of rows, as a bulk `update(status=...)` does, keeps the table valid. */
  lemma RestatusValid(rs: seq<FriendRequest>, rs': seq<FriendRequest>, nextId: nat, clock: nat)
    requires RequestTableValid(rs, nextId, clock)
    requires |rs'| == |rs| && forall k :: 0 <= k < |rs| ==> rs'[k] == rs[k].(status := rs'[k].status)
    ensures RequestTableValid(rs', nextId, clock)
  {
    assert forall k :: 0 <= k < |rs| ==> RequestId(rs'[k]) == RequestId(rs[k]);
    assert forall k :: 0 <= k < |rs| ==> RequestCreated(rs'[k]) == RequestCreated(rs[k]);
    assert forall k :: 0 <= k < |rs| ==> RequestUpdated(rs'[k]) == RequestUpdated(rs[k]);
    assert forall k :: 0 <= k < |rs| ==> RequestPair(rs'[k]) == RequestPair(rs[k]);
  }

  lemma {:induction false} InsertBlockValid(bs: seq<BlockedUser>, nextId: nat, clock: nat, x: BlockedUser)
    requires BlockTableValid(bs, nextId, clock)
    requires !HasBlock(bs, x.blocker, x.blocked)
    requires x.id == nextId && x.createdAt == clock
    ensures BlockTableValid(bs + [x], nextId + 1, clock + 1)
  {
    var bs' := bs + [x];
    forall i, j | 0 <= i < j < |bs'| ensures BlockPair(bs'[i]) != BlockPair(bs'[j]) {
      if j == |bs| { assert bs[i] in bs; }
    }
  }

  lemma {:induction false} InsertFriendshipValid(fs: seq<Friendship>, nextId: nat, clock: nat, x: Friendship)
    requires FriendshipTableValid(fs, nextId, clock)
    requires !HasFriendship(fs, x.user1, x.user2)
    requires x.id == nextId && x.createdAt == clock
    ensures FriendshipTableValid(fs + [x], nextId + 1, clock + 1)
  {
    var fs' := fs + [x];
    forall i, j | 0 <= i < j < |fs'| ensures FriendshipPair(fs'[i]) != FriendshipPair(fs'[j]) {
      if j == |fs| { assert fs[i] in fs; }
    }
  }

  /** Deleting one block row keeps the table valid. */
  lemma {:induction false} DeleteBlockValid(bs: seq<BlockedUser>, nextId: nat, clock: nat, i: nat)
    requires BlockTableValid(bs, nextId, clock) && i < |bs|
    ensures BlockTableValid(bs[..i] + bs[i + 1..], nextId, clock)
  {
    var bs' := bs[..i] + bs[i + 1..];
    assert forall k :: 0 <= k < |bs'| ==> bs'[k] == bs[if k < i then k else k + 1];
  }

  /** Deleting every friendship row between two users keeps the table valid. */
  lemma WithoutPairValid(fs: seq<Friendship>, nextId: nat, clock: nat, a: nat, b: nat)
    requires FriendshipTableValid(fs, nextId, clock)
    ensures FriendshipTableValid(WithoutPair(fs, a, b), nextId, clock)
  {
    var p := (f: Friendship) => !Joins(f, a, b);
    assert WithoutPair(fs, a, b) == Filter(fs, p);
    FilterAscending(fs, p, FriendshipId);
    FilterAscending(fs, p, FriendshipCreated);
    FilterBelow(fs, p, FriendshipId, nextId);
    FilterBelow(fs, p, FriendshipCreated, clock);
    FilterDistinct(fs, p, FriendshipPair);
  }

  /** A stored friendship pair occurs in exactly one row of a valid table. */
  lemma FriendshipRowUnique(fs: seq<Friendship>, nextId: nat, clock: nat, a: nat, b: nat)
    requires FriendshipTableValid(fs, nextId, clock) && HasFriendship(fs, a, b)
    ensures Count(fs, FriendshipPair, (a, b)) == 1
  {
    var f :| f in fs && f.user1 == a && f.user2 == b;
    assert FriendshipPair(f) == (a, b);
    CountDistinct(fs, FriendshipPair, (a, b));
  }

  /** Two request rows for the same ordered pair are the same row. */
  lemma RequestPairDetermines(rs: seq<FriendRequest>, nextId: nat, clock: nat, x: FriendRequest, y: FriendRequest)
    requires RequestTableValid(rs, nextId, clock) && x in rs && y in rs
    requires x.sender == y.sender && x.receiver == y.receiver
    ensures x == y
  {
    var i :| 0 <= i < |rs| && rs[i] == x;
    var j :| 0 <= j < |rs| && rs[j] == y;
    assert RequestPair(rs[i]) == RequestPair(rs[j]);
    assert i == j;
  }

  /** The same for the request of an ordered pair, whatever its status. */
  lemma RequestRowUnique(rs: seq<FriendRequest>, nextId: nat, clock: nat, a: nat, b: nat)
    requires RequestTableValid(rs, nextId, clock) && HasRequest(rs, a, b)
    ensures Count(rs, RequestPair, (a, b)) == 1
  {
    var r :| r in rs && r.sender == a && r.receiver == b;
    assert RequestPair(r) == (a, b);
    CountDistinct(rs, RequestPair, (a, b));
  }

  /** The same for a block of an ordered pair. */
  lemma BlockRowUnique(bs: seq<BlockedUser>, nextId: nat, clock: nat, a: nat, b: nat)
    requires BlockTableValid(bs, nextId, clock) && HasBlock(bs, a, b)
    ensures Count(bs, BlockPair, (a, b)) == 1
  {
    var x :| x in bs && x.blocker == a && x.blocked == b;
    assert BlockPair(x) == (a, b);
    CountDistinct(bs, BlockPair, (a, b));
  }
}
