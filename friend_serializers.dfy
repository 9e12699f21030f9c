/**
 * The serializers of the friendship app: which request fields a client may
 * write, and which user a friendship is shown as. Field sets follow the
 * framework's rule that a declared nested serializer or method field is
 * read-only, a `write_only` field is accepted but never shown, and
 * `read_only_fields` covers the generated model fields.
 */
module FriendSerializers {
  import opened Wrappers
  import opened FriendModels
  import opened Store
  import opened UserSerializers

  /** `FriendRequestSerializer`: nested `sender`/`receiver` are read-only, `receiver_id` is write-only. */
  const FriendRequestSerializerMeta := SerializerMeta(
    ["id", "sender", "receiver", "receiver_id", "note", "status", "status_display", "created_at"],
    {"id", "sender", "receiver", "status", "status_display", "created_at"},
    {"receiver_id"})

  /** `FriendRequestCreateSerializer`: both fields are plain inputs. */
  const FriendRequestCreateSerializerMeta := SerializerMeta(["receiver_id", "note"], {}, {})

  /** `FriendRequestAdminSerializer`. */
  const FriendRequestAdminSerializerMeta := SerializerMeta(
    ["id", "sender", "receiver", "note", "status", "created_at"],
    {"id", "sender", "receiver", "note", "created_at"},
    {})

  /** A client creating a request names the receiver and a note and nothing more: sender, status, id and stamp are the server's. */
  lemma RequestClientCannotSetStatus()
    ensures Writable(FriendRequestSerializerMeta) == {"receiver_id", "note"}
    ensures forall f :: f in {"id", "sender", "status", "created_at"} ==> f !in Writable(FriendRequestSerializerMeta)
    ensures "receiver_id" !in Exposed(FriendRequestSerializerMeta) && "status" in Exposed(FriendRequestSerializerMeta)
    ensures Writable(FriendRequestCreateSerializerMeta) == {"receiver_id", "note"}
  {
  }

  /** Through the admin serializer only the status can be changed. */
  lemma AdminSerializerWritesStatusOnly()
    ensures Writable(FriendRequestAdminSerializerMeta) == {"status"}
    ensures Exposed(FriendRequestAdminSerializerMeta) == {"id", "sender", "receiver", "note", "status", "created_at"}
  {
  }

  /**
   * `FriendshipSerializer.get_friend`: with no request in the context there
   * is nothing to show; otherwise `user2` when the requester is `user1`, and
   * `user1` in every other case (an anonymous requester included, since an
   * anonymous user object is truthy). The user is given by id.
   */
  function GetFriend(f: Friendship, request: Option<Actor>): (r: Option<nat>)
    ensures r.None? <==> request.None?
    ensures r.Some? ==> r.value == f.user1 || r.value == f.user2
    ensures request.Some? && request.value.SignedIn? && (request.value.id == f.user1 || request.value.id == f.user2) ==>
              r.value != request.value.id || f.user1 == f.user2
  {
    match request
      case None => None
      case Some(actor) => if actor == SignedIn(f.user1) then Some(f.user2) else Some(f.user1)
  }

  /** For either party of a friendship the friend shown is a party of it, and not the requester unless it is a self-friendship. */
  lemma FriendIsOtherParty(f: Friendship, me: nat)
    requires f.user1 == me || f.user2 == me
    ensures var r := GetFriend(f, Some(SignedIn(me)));
            && r.Some? && (r.value == f.user1 || r.value == f.user2)
            && (f.user1 != f.user2 ==> r.value != me)
            && (f.user1 == me ==> r.value == f.user2)
  {
  }

  /** The two storage orderings of one friendship show each party the same friend. */
  lemma FriendSymmetric(f: Friendship, me: nat, other: nat)
    requires me != other
    ensures GetFriend(Friendship(f.id, me, other, f.createdAt), Some(SignedIn(me))) == Some(other)
    ensures GetFriend(Friendship(f.id, other, me, f.createdAt), Some(SignedIn(me))) == Some(other)
  {
  }

  /** Without a request in the context, or for a requester who is not `user1`, the result is fixed. */
  lemma FriendWithoutRequester(f: Friendship, actor: Actor)
    ensures GetFriend(f, None) == None
    ensures actor != SignedIn(f.user1) ==> GetFriend(f, Some(actor)) == Some(f.user1)
  {
  }
}
