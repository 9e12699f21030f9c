/**
 * The two bulk actions of the request admin page. An action receives the
 * page's queryset restricted to the ticked rows, so the page's `status`
 * filter narrows it too. "Approve selected" walks the pending rows of that
 * queryset newest first, saving each as approved and getting or creating its
 * friendship; "reject selected" is one bulk update of their status, which
 * leaves `updated_at` as it was. Both then report a fresh count of the
 * queryset, taken after the writes.
 */
module FriendAdmin {
  import opened Wrappers
  import opened Sequences
  import opened FriendModels
  import opened Store

  /**
   * The queryset an admin action receives: the rows whose id was ticked on
   * the change list, narrowed by the page's status filter when one is set.
   */
  datatype Selection = Selection(ids: set<nat>, status: Option<Status>)

  /** The page's status filter admits rows of status `s`. */
  predicate Shows(q: Selection, s: Status)
  {
    q.status.None? || q.status == Some(s)
  }

  /** Row `x`, as it now stands, is in the queryset. */
  predicate Listed(q: Selection, x: FriendRequest)
  {
    x.id in q.ids && Shows(q, x.status)
  }

  /** Row `x` is in `queryset.filter(status='pending')`. */
  predicate Fetched(q: Selection, x: FriendRequest)
  {
    x.status == Pending && x.id in q.ids && Shows(q, Pending)
  }

  function InQueryset(q: Selection): FriendRequest -> bool
  {
    (x: FriendRequest) => Listed(q, x)
  }

  function PendingIn(q: Selection): FriendRequest -> bool
  {
    (x: FriendRequest) => Fetched(q, x)
  }

  /** The rows of the queryset that are already decided. */
  function DecidedIn(q: Selection): FriendRequest -> bool
  {
    (x: FriendRequest) => x.status != Pending && Listed(q, x)
  }

  /** The approved rows among the ticked ones. */
  function ApprovedIn(ids: set<nat>): FriendRequest -> bool
  {
    (x: FriendRequest) => x.status == Approved && x.id in ids
  }

  /** The rejected rows among the ticked ones. */
  function RejectedIn(ids: set<nat>): FriendRequest -> bool
  {
    (x: FriendRequest) => x.status == Rejected && x.id in ids
  }

  /** `queryset.count()`: a fresh COUNT of the rows of `t` the queryset matches. */
  function QuerysetCount(t: Tables, q: Selection): nat
  {
    |Filter(t.requests, InQueryset(q))|
  }

  /**
   * The rows the approve loop fetches, in the page's default order, newest
   * first: exactly the pending rows of the queryset.
   */
  function Batch(t: Tables, q: Selection): (b: seq<FriendRequest>)
    ensures forall x :: x in b <==> x in t.requests && Fetched(q, x)
    ensures Ascending(t.requests, RequestCreated) ==> Descending(b, RequestCreated)
  {
    NewestFirst(t.requests, PendingIn(q), RequestCreated);
    Reverse(Filter(t.requests, PendingIn(q)))
  }

  /** The position of the row with primary key `id`, if any. */
  function RequestIndex(rs: seq<FriendRequest>, id: int): Option<nat>
  {
    FirstIndex(rs, (x: FriendRequest) => x.id == id)
  }

  /** One turn of the approve loop: `obj.save()` with status approved, then get-or-create its friendship. */
  function ApproveOne(t: Tables, x: FriendRequest): (u: Tables)
    ensures |u.requests| == |t.requests| && u.clock >= t.clock
    ensures forall f :: f in t.friendships ==> f in u.friendships
    ensures u.blocks == t.blocks && u.users == t.users
  {
    match RequestIndex(t.requests, x.id)
      case None => t
      case Some(i) => EnsureFriendship(SaveRequest(t, i, Approved), x.sender, x.receiver)
  }

  /** The approve loop run over `b` in order: it keeps every friendship and touches no block and no user. */
  function ApproveEach(t: Tables, b: seq<FriendRequest>): (u: Tables)
    ensures |u.requests| == |t.requests| && u.clock >= t.clock
    ensures forall f :: f in t.friendships ==> f in u.friendships
    ensures u.blocks == t.blocks && u.users == t.users
    decreases |b|
  {
    if b == [] then t else ApproveOne(ApproveEach(t, b[..|b| - 1]), b[|b| - 1])
  }

  /** The tables "approve selected" leaves: the loop over the fetched rows. */
  function ApproveSelection(t: Tables, q: Selection): (u: Tables)
    ensures |u.requests| == |t.requests|
    ensures forall f :: f in t.friendships ==> f in u.friendships
    ensures u.blocks == t.blocks && u.users == t.users
  {
    ApproveEach(t, Batch(t, q))
  }

  /** Row `after` is row `before` saved as approved, stamped no earlier than `since`. */
  predicate SavedApproved(before: FriendRequest, after: FriendRequest, since: nat)
  {
    after == before.(status := Approved, updatedAt := after.updatedAt) && after.updatedAt >= since
  }

  /** The request rows after the loop over `b`: the rows of `b` saved as approved, all others as they were. */
  ghost predicate RowsApproved(t: Tables, b: seq<FriendRequest>, u: Tables)
  {
    && |u.requests| == |t.requests|
    && (forall k :: 0 <= k < |t.requests| && t.requests[k] in b ==> SavedApproved(t.requests[k], u.requests[k], t.clock))
    && (forall k :: 0 <= k < |t.requests| && t.requests[k] !in b ==> u.requests[k] == t.requests[k])
  }

  /** The friendships after the loop over `b`: all old rows kept, one row for each pair of `b`, nothing else new. */
  ghost predicate FriendshipsGrown(t: Tables, b: seq<FriendRequest>, u: Tables)
  {
    && (forall f :: f in t.friendships ==> f in u.friendships)
    && (forall f :: f in u.friendships && f !in t.friendships ==> exists x :: x in b && FriendshipPair(f) == RequestPair(x))
    && (forall x :: x in b ==> HasFriendship(u.friendships, x.sender, x.receiver))
  }

  /** What running the approve loop over a batch `b` of rows of `t` leaves behind. */
  ghost predicate ApprovedBatch(t: Tables, b: seq<FriendRequest>, u: Tables)
  {
    && Consistent(u) && u.clock >= t.clock
    && RowsApproved(t, b, u) && FriendshipsGrown(t, b, u)
    && u.blocks == t.blocks && u.users == t.users
  }

  /** The row the next turn saves is found where it was in `t`, still as it was fetched. */
  lemma ApproveOneLocates(t: Tables, b: seq<FriendRequest>, x: FriendRequest, mid: Tables) returns (i: nat)
    requires Consistent(t) && RowsApproved(t, b, mid)
    requires x in t.requests && x !in b
    ensures i < |t.requests| && t.requests[i] == x && mid.requests[i] == x
    ensures RequestIndex(mid.requests, x.id) == Some(i)
  {
    i :| 0 <= i < |t.requests| && t.requests[i] == x;
    var found := RequestIndex(mid.requests, x.id);
    assert mid.requests[i].id == x.id;
    forall k | 0 <= k < |t.requests| && k != i ensures mid.requests[k].id != x.id {
      assert RequestId(t.requests[k]) != RequestId(t.requests[i]);
      if t.requests[k] in b {
        assert SavedApproved(t.requests[k], mid.requests[k], t.clock);
      }
    }
  }

  lemma RowsStep(t: Tables, b: seq<FriendRequest>, x: FriendRequest, mid: Tables, i: nat, u: Tables)
    requires Consistent(t) && RowsApproved(t, b, mid) && mid.clock >= t.clock
    requires i < |t.requests| && t.requests[i] == x && mid.requests[i] == x
    requires u.requests == mid.requests[i := x.(status := Approved, updatedAt := mid.clock)]
    ensures RowsApproved(t, b + [x], u)
  {
    var b' := b + [x];
    forall k | 0 <= k < |t.requests| && t.requests[k] in b' ensures SavedApproved(t.requests[k], u.requests[k], t.clock) {
      if k != i {
        assert RequestId(t.requests[k]) != RequestId(t.requests[i]);
        assert t.requests[k] in b;
      }
    }
    forall k | 0 <= k < |t.requests| && t.requests[k] !in b' ensures u.requests[k] == t.requests[k] {
      assert t.requests[k] != x;
    }
  }

  lemma FriendshipsStep(t: Tables, b: seq<FriendRequest>, x: FriendRequest, mid: Tables, u: Tables)
    requires FriendshipsGrown(t, b, mid)
    requires forall f :: f in mid.friendships ==> f in u.friendships
    requires forall f :: f in u.friendships && f !in mid.friendships ==> FriendshipPair(f) == RequestPair(x)
    requires HasFriendship(u.friendships, x.sender, x.receiver)
    ensures FriendshipsGrown(t, b + [x], u)
  {
    var b' := b + [x];
    forall f | f in u.friendships && f !in t.friendships ensures exists y :: y in b' && FriendshipPair(f) == RequestPair(y) {
      if f in mid.friendships {
        var y :| y in b && FriendshipPair(f) == RequestPair(y);
        assert y in b';
      } else {
        assert x in b';
      }
    }
    forall y | y in b' ensures HasFriendship(u.friendships, y.sender, y.receiver) {
      if y in b {
        var f :| f in mid.friendships && f.user1 == y.sender && f.user2 == y.receiver;
        assert f in u.friendships;
      }
    }
  }

  /** What get-or-create does to the friendship rows. */
  lemma EnsureFriendshipRows(t: Tables, a: nat, b: nat)
    ensures var u := EnsureFriendship(t, a, b);
            && (forall f :: f in t.friendships ==> f in u.friendships)
            && (forall f :: f in u.friendships && f !in t.friendships ==> FriendshipPair(f) == (a, b))
            && HasFriendship(u.friendships, a, b)
            && u.requests == t.requests && u.blocks == t.blocks && u.users == t.users && u.clock >= t.clock
  {
    if !HasFriendship(t.friendships, a, b) {
      assert Friendship(t.nextFriendshipId, a, b, t.clock) in EnsureFriendship(t, a, b).friendships;
    }
  }

  /** One more turn of the loop, for a row of `t` the batch so far has not touched. */
  lemma ApproveOneStep(t: Tables, b: seq<FriendRequest>, x: FriendRequest, mid: Tables)
    requires Consistent(t) && ApprovedBatch(t, b, mid)
    requires x in t.requests && forall y :: y in b ==> y.id != x.id
    ensures ApprovedBatch(t, b + [x], ApproveOne(mid, x))
  {
    assert x !in b;
    var i := ApproveOneLocates(t, b, x, mid);
    var saved := SaveRequest(mid, i, Approved);
    SaveRequestConsistent(mid, i, Approved);
    EnsureFriendshipConsistent(saved, x.sender, x.receiver);
    EnsureFriendshipRows(saved, x.sender, x.receiver);
    var u := ApproveOne(mid, x);
    assert u == EnsureFriendship(saved, x.sender, x.receiver);
    RowsStep(t, b, x, mid, i, u);
    FriendshipsStep(t, b, x, mid, u);
  }

  /** The loop leaves a consistent store. */
  lemma ApproveEachConsistent(t: Tables, b: seq<FriendRequest>)
    requires Consistent(t)
    requires forall x :: x in b ==> x in t.requests
    requires Distinct(b, RequestId)
    ensures Consistent(ApproveEach(t, b))
  {
    ApproveEachOutcome(t, b);
  }

  /** The loop over a batch of distinct rows of `t` leaves what `ApprovedBatch` describes. */
  lemma {:induction false} ApproveEachOutcome(t: Tables, b: seq<FriendRequest>)
    requires Consistent(t)
    requires forall x :: x in b ==> x in t.requests
    requires Distinct(b, RequestId)
    ensures ApprovedBatch(t, b, ApproveEach(t, b))
    decreases |b|
  {
    if b != [] {
      var front, x := b[..|b| - 1], b[|b| - 1];
      assert b == front + [x];
      assert forall y :: y in front ==> y in b;
      ApproveEachOutcome(t, front);
      forall y | y in front ensures y.id != x.id {
        var j :| 0 <= j < |front| && front[j] == y;
        assert RequestId(b[j]) != RequestId(b[|b| - 1]);
      }
      ApproveOneStep(t, front, x, ApproveEach(t, front));
    }
  }

  /**
   * The approve loop over the pending rows of the queryset, taken in any
   * order without repeats: every such row is saved as approved and its
   * (sender, receiver) friendship is stored exactly once afterwards; every
   * other row is untouched; stored friendships all survive and the only new
   * ones are those of approved rows; blocks and users do not change.
   */
  lemma ApproveBatchOutcome(t: Tables, q: Selection, b: seq<FriendRequest>)
    requires Consistent(t)
    requires forall x :: x in b <==> x in t.requests && Fetched(q, x)
    requires Distinct(b, RequestId)
    ensures var u := ApproveEach(t, b);
            && Consistent(u) && |u.requests| == |t.requests|
            && (forall k :: 0 <= k < |t.requests| && Fetched(q, t.requests[k]) ==>
                  SavedApproved(t.requests[k], u.requests[k], t.clock)
                  && Count(u.friendships, FriendshipPair, RequestPair(t.requests[k])) == 1)
            && (forall k :: 0 <= k < |t.requests| && !Fetched(q, t.requests[k]) ==> u.requests[k] == t.requests[k])
            && (forall f :: f in t.friendships ==> f in u.friendships)
            && (forall f :: f in u.friendships && f !in t.friendships ==>
                  exists x :: x in t.requests && Fetched(q, x) && FriendshipPair(f) == RequestPair(x))
            && u.blocks == t.blocks && u.users == t.users
  {
    ApproveEachOutcome(t, b);
    var u := ApproveEach(t, b);
    forall k | 0 <= k < |t.requests| && Fetched(q, t.requests[k])
      ensures Count(u.friendships, FriendshipPair, RequestPair(t.requests[k])) == 1
    {
      var x := t.requests[k];
      assert x in b;
      FriendshipRowUnique(u.friendships, u.nextFriendshipId, u.clock, x.sender, x.receiver);
    }
  }

  /** "Approve selected" in the page's default order has the outcome `ApproveBatchOutcome` describes. */
  lemma ApproveSelectionOutcome(t: Tables, q: Selection)
    requires Consistent(t)
    ensures var u := ApproveSelection(t, q);
            && Consistent(u) && |u.requests| == |t.requests|
            && (forall k :: 0 <= k < |t.requests| && Fetched(q, t.requests[k]) ==>
                  SavedApproved(t.requests[k], u.requests[k], t.clock)
                  && Count(u.friendships, FriendshipPair, RequestPair(t.requests[k])) == 1)
            && (forall k :: 0 <= k < |t.requests| && !Fetched(q, t.requests[k]) ==> u.requests[k] == t.requests[k])
            && (forall f :: f in t.friendships ==> f in u.friendships)
            && (forall f :: f in u.friendships && f !in t.friendships ==>
                  exists x :: x in t.requests && Fetched(q, x) && FriendshipPair(f) == RequestPair(x))
            && u.blocks == t.blocks && u.users == t.users
  {
    BatchRows(t, q);
    ApproveBatchOutcome(t, q, Batch(t, q));
  }

  /**
   * The count the approve message shows is taken after the loop: with the
   * page filtered to pending rows it is 0, since every fetched row has left
   * the queryset; otherwise it is the queryset's size before the loop.
   */
  lemma ApproveReportedCount(t: Tables, q: Selection)
    requires Consistent(t)
    ensures QuerysetCount(ApproveSelection(t, q), q) == if q.status == Some(Pending) then 0 else QuerysetCount(t, q)
  {
    ApproveSelectionOutcome(t, q);
    var u := ApproveSelection(t, q);
    if q.status == Some(Pending) {
      forall x | x in u.requests ensures !Listed(q, x) {
        var k :| 0 <= k < |u.requests| && u.requests[k] == x;
        if Fetched(q, t.requests[k]) {
          assert SavedApproved(t.requests[k], u.requests[k], t.clock);
        }
      }
      FilterNone(u.requests, InQueryset(q));
    } else {
      forall k | 0 <= k < |t.requests| ensures Listed(q, t.requests[k]) == Listed(q, u.requests[k]) {
        if Fetched(q, t.requests[k]) {
          assert SavedApproved(t.requests[k], u.requests[k], t.clock);
        }
      }
      FilterLengthPointwise(t.requests, u.requests, InQueryset(q), InQueryset(q));
    }
  }

  /** Before the writes the queryset holds the rows the loop handles and its already decided rows. */
  lemma CountIncludesDecided(t: Tables, q: Selection)
    ensures QuerysetCount(t, q) == |Batch(t, q)| + |Filter(t.requests, DecidedIn(q))|
  {
    FilterSplit(t.requests, InQueryset(q), PendingIn(q), DecidedIn(q));
  }

  /** The number of requests "approve selected" approves: the rows it fetches. */
  function ApprovedCount(t: Tables, q: Selection): nat
  {
    |Batch(t, q)|
  }

  function ApprovedOrFetched(q: Selection): FriendRequest -> bool
  {
    (x: FriendRequest) => ApprovedIn(q.ids)(x) || Fetched(q, x)
  }

  /** The approved rows among the ticked ones grow by exactly `ApprovedCount`. */
  lemma ApprovedCountIsApproved(t: Tables, q: Selection)
    requires Consistent(t)
    ensures |Filter(ApproveSelection(t, q).requests, ApprovedIn(q.ids))|
            == |Filter(t.requests, ApprovedIn(q.ids))| + ApprovedCount(t, q)
  {
    ApproveSelectionOutcome(t, q);
    var u := ApproveSelection(t, q);
    forall k | 0 <= k < |t.requests| ensures ApprovedOrFetched(q)(t.requests[k]) == ApprovedIn(q.ids)(u.requests[k]) {
      if Fetched(q, t.requests[k]) {
        assert SavedApproved(t.requests[k], u.requests[k], t.clock);
      }
    }
    FilterLengthPointwise(t.requests, u.requests, ApprovedOrFetched(q), ApprovedIn(q.ids));
    FilterSplit(t.requests, ApprovedOrFetched(q), ApprovedIn(q.ids), PendingIn(q));
  }

  /** With the page filtered to pending rows, approving at least one request reports 0. */
  lemma ApproveFilteredReportsZero(t: Tables, q: Selection, x: FriendRequest)
    requires Consistent(t) && q.status == Some(Pending)
    requires x in t.requests && x.status == Pending && x.id in q.ids
    ensures ApprovedCount(t, q) > 0
    ensures QuerysetCount(ApproveSelection(t, q), q) == 0
  {
    assert x in Batch(t, q);
    ApproveReportedCount(t, q);
  }

  /** One turn of the approve loop on a `Database`: find the fetched row, save it as approved, get or create its friendship. */
  method ApproveFetched(db: Database, x: FriendRequest)
    modifies db
    ensures db.Snapshot() == ApproveOne(old(db.Snapshot()), x)
  {
    var found := RequestIndex(db.requests, x.id);
    if found.Some? {
      var _ := db.SetStatus(found.value, Approved);
      var _ := db.GetOrCreateFriendship(x.sender, x.receiver);
    }
  }

  /** The fetched batch holds distinct rows of the table. */
  lemma BatchRows(t: Tables, q: Selection)
    requires Consistent(t)
    ensures forall y :: y in Batch(t, q) ==> y in t.requests
    ensures Distinct(Batch(t, q), RequestId)
  {
    NewestFirst(t.requests, PendingIn(q), RequestId);
  }

  /** One more turn of the loop over a batch of distinct rows extends the fold and keeps the store consistent. */
  lemma ApproveEachExtend(t: Tables, b: seq<FriendRequest>, k: nat)
    requires Consistent(t) && k < |b|
    requires forall y :: y in b ==> y in t.requests
    requires Distinct(b, RequestId)
    ensures ApproveEach(t, b[..k + 1]) == ApproveOne(ApproveEach(t, b[..k]), b[k])
    ensures Consistent(ApproveEach(t, b[..k + 1]))
  {
    var prefix := b[..k + 1];
    assert prefix[..k] == b[..k];
    assert forall y :: y in prefix ==> y in b;
    ApproveEachConsistent(t, prefix);
  }

  /**
   * Admin action `approve_requests`: the loop over the fetched rows, then the
   * queryset is counted afresh for the message (`count`). `approved` is the
   * number of rows the loop handled, which the message evidently means.
   */
  method ApproveRequests(db: Database, q: Selection) returns (count: nat, approved: nat)
    requires db.Valid()
    modifies db
    ensures db.Valid()
    ensures db.Snapshot() == ApproveSelection(old(db.Snapshot()), q)
    ensures count == QuerysetCount(db.Snapshot(), q)
    ensures approved == ApprovedCount(old(db.Snapshot()), q)
  {
    ghost var t := db.Snapshot();
    var batch := Batch(db.Snapshot(), q);
    BatchRows(t, q);
    var k := 0;
    while k < |batch|
      invariant 0 <= k <= |batch|
      invariant db.Snapshot() == ApproveEach(t, batch[..k])
      invariant db.Valid()
    {
      ApproveEachExtend(t, batch, k);
      ApproveFetched(db, batch[k]);
      k := k + 1;
    }
    assert batch[..k] == batch;
    count := |Filter(db.requests, InQueryset(q))|;
    approved := |batch|;
  }

  // ---------------------------------------------------------------- reject selected

  /** A row as the bulk update leaves it: rejected when the update's filter matches it; `updated_at` is not stamped. */
  function Rejecting(q: Selection, x: FriendRequest): (y: FriendRequest)
    ensures y.id == x.id && y.sender == x.sender && y.receiver == x.receiver && y.note == x.note
    ensures y.createdAt == x.createdAt && y.updatedAt == x.updatedAt
    ensures y.status == if Fetched(q, x) then Rejected else x.status
  {
    if Fetched(q, x) then x.(status := Rejected) else x
  }

  /** `queryset.filter(status='pending').update(status='rejected')` on the request table. */
  function RejectAll(rs: seq<FriendRequest>, q: Selection): (r: seq<FriendRequest>)
    ensures |r| == |rs| && forall k :: 0 <= k < |rs| ==> r[k] == Rejecting(q, rs[k])
  {
    if rs == [] then [] else [Rejecting(q, rs[0])] + RejectAll(rs[1..], q)
  }

  /** The tables "reject selected" leaves: no id counter or clock moves, since nothing is created or stamped. */
  function RejectSelection(t: Tables, q: Selection): (u: Tables)
    ensures |u.requests| == |t.requests|
    ensures forall k :: 0 <= k < |t.requests| ==> RequestPair(u.requests[k]) == RequestPair(t.requests[k])
    ensures u.friendships == t.friendships && u.blocks == t.blocks && u.users == t.users && u.clock == t.clock
  {
    t.(requests := RejectAll(t.requests, q))
  }

  /**
   * "Reject selected": the pending rows of the queryset become rejected with
   * their `updated_at` unchanged, afterwards no row of the queryset is
   * pending, every other row and every other table is untouched, and the
   * store stays consistent. The count, taken after the update, is 0 when the
   * page is filtered to pending rows and the queryset's size otherwise.
   */
  lemma RejectSelectionOutcome(t: Tables, q: Selection)
    requires Consistent(t)
    ensures var u := RejectSelection(t, q);
            && Consistent(u) && |u.requests| == |t.requests|
            && (forall k :: 0 <= k < |t.requests| && Fetched(q, t.requests[k]) ==>
                  u.requests[k] == t.requests[k].(status := Rejected))
            && (forall k :: 0 <= k < |t.requests| && !Fetched(q, t.requests[k]) ==> u.requests[k] == t.requests[k])
            && (forall x :: x in u.requests && Listed(q, x) ==> x.status != Pending)
            && u.friendships == t.friendships && u.blocks == t.blocks && u.users == t.users
            && QuerysetCount(u, q) == if q.status == Some(Pending) then 0 else QuerysetCount(t, q)
  {
    var u := RejectSelection(t, q);
    RestatusValid(t.requests, u.requests, t.nextRequestId, t.clock);
    if q.status == Some(Pending) {
      FilterNone(u.requests, InQueryset(q));
    } else {
      FilterLengthPointwise(t.requests, u.requests, InQueryset(q), InQueryset(q));
    }
  }

  /** The number of requests "reject selected" rejects, which `update()` returns and the action discards. */
  function RejectedCount(t: Tables, q: Selection): nat
  {
    |Filter(t.requests, PendingIn(q))|
  }

  function RejectedOrFetched(q: Selection): FriendRequest -> bool
  {
    (x: FriendRequest) => RejectedIn(q.ids)(x) || Fetched(q, x)
  }

  /** The rejected rows among the ticked ones grow by exactly `RejectedCount`. */
  lemma RejectedCountIsRejected(t: Tables, q: Selection)
    ensures |Filter(RejectSelection(t, q).requests, RejectedIn(q.ids))|
            == |Filter(t.requests, RejectedIn(q.ids))| + RejectedCount(t, q)
  {
    var u := RejectSelection(t, q);
    FilterLengthPointwise(t.requests, u.requests, RejectedOrFetched(q), RejectedIn(q.ids));
    FilterSplit(t.requests, RejectedOrFetched(q), RejectedIn(q.ids), PendingIn(q));
  }

  /** With the page filtered to pending rows, rejecting at least one request reports 0. */
  lemma RejectFilteredReportsZero(t: Tables, q: Selection, x: FriendRequest)
    requires Consistent(t) && q.status == Some(Pending)
    requires x in t.requests && x.status == Pending && x.id in q.ids
    ensures RejectedCount(t, q) > 0
    ensures QuerysetCount(RejectSelection(t, q), q) == 0
  {
    assert x in Filter(t.requests, PendingIn(q));
    RejectSelectionOutcome(t, q);
  }

  /**
   * Admin action `reject_requests`: one bulk update, then the queryset is
   * counted afresh for the message (`count`). `rejected` is the number of rows
   * the update matched, which `update()` returns.
   */
  method RejectRequests(db: Database, q: Selection) returns (count: nat, rejected: nat)
    requires db.Valid()
    modifies db
    ensures db.Valid()
    ensures db.Snapshot() == RejectSelection(old(db.Snapshot()), q)
    ensures count == QuerysetCount(db.Snapshot(), q)
    ensures rejected == RejectedCount(old(db.Snapshot()), q)
  {
    rejected := RejectedCount(db.Snapshot(), q);
    ghost var t := db.Snapshot();
    RejectSelectionOutcome(t, q);
    var k := 0;
    while k < |db.requests|
      invariant 0 <= k <= |db.requests| == |t.requests|
      invariant forall j :: 0 <= j < k ==> db.requests[j] == Rejecting(q, t.requests[j])
      invariant forall j :: k <= j < |t.requests| ==> db.requests[j] == t.requests[j]
      invariant db.Snapshot() == t.(requests := db.requests)
    {
      db.requests := db.requests[k := Rejecting(q, db.requests[k])];
      k := k + 1;
    }
    assert db.requests == RejectAll(t.requests, q);
    count := |Filter(db.requests, InQueryset(q))|;
  }
}
