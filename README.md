# Friend store: a Dafny model of the friendship backend

This project models the core of a small social backend built with Django. Users sign in with Google. A user sends another user a friend request, and an administrator approves or rejects it. An approved request becomes a friendship. Users can block one another, and a block removes any friendship between the two.

The model covers:

- **The three relationship tables**: friend requests, blocks and friendships. Each has a uniqueness constraint on an ordered pair of users, ids handed out in increasing order, and a newest-first ordering.
- **The friendship views**:
  - send a request
  - list my friends
  - list, approve and reject pending requests (administrators only)
  - block a user
  - unblock a user
  - list my blocks
- **The two bulk actions of the request admin page**, on the page's queryset: the ticked rows, narrowed by the page's status filter.
- **The serializers' field rules and the friend shown for a friendship.**
- **The user record**, with its defaults and its two nullable unique identities.
- **The display name and the serializers' `full_name`.**
- **Google sign-in**, which gets or creates a user by Google id.
- **The user search.**

How the model is organised:

- **The database is a `Database` class.** Its fields are the four tables, the id counters and a clock (module `Store`).
- **Each ORM write is a method of `Database`.** Examples are a create, a `save()`, a filtered delete and a get-or-create.
- **Each view is two members.**
  - A function computes its answer and the tables it leaves, as a `Step`, from a snapshot of the tables.
  - A method makes the same checks, issues the writes one by one, and is proved to agree with that function and to keep every table constraint (`Database.Valid`).
- **The properties are lemmas about these functions.** They cover error outcomes, what changes, what does not, and uniqueness afterwards.

Modelling choices:

- **Users are referred to by id.**
- **Time is an abstract counter.** Every request, block or friendship insert and every request `save()` reads it and then advances it, so creation stamps grow along each of those tables. The user writes do not stamp anything the model keeps.
- **The signed-in user is an `Actor`.** A session whose user no longer exists counts as anonymous.
- **Every view requires a signed-in user**, as the project's default permission class does. Sign-in itself is the exception (`backend/core/settings.py:131-133`).
- **Integrity errors become a 500 answer with nothing written.** Such a write breaks a table constraint.
  - Re-sending a request after it was decided hits the request pair constraint, which the view's pending-only check does not guard.
  - Creating a Google user whose default username is taken hits the username constraint.

## Model

| member | source | states |
|---|---|---|
| FriendModels.NewFriendRequest | backend/friends/models.py:28-36 | a created request is pending (the status default), with the given sender, receiver and note, and both stamps set to the creation time |
| FriendModels.InsertRequestValid | backend/friends/models.py:35-42 | appending a request for an ordered pair with no row yet keeps the request table valid: increasing ids and stamps, and one row per ordered (sender, receiver) pair |
| FriendModels.SaveRequestValid | backend/friends/models.py:35-41 | re-saving a row with a fresh `updated_at` keeps the request table valid |
| FriendModels.RestatusValid | backend/friends/models.py:29-41 | changing only statuses, as a bulk update does, keeps the request table valid |
| FriendModels.InsertBlockValid | backend/friends/models.py:65-71 | appending a block for an ordered pair not yet blocked keeps the block table valid |
| FriendModels.InsertFriendshipValid | backend/friends/models.py:94-100 | appending a friendship for an ordered pair not yet stored keeps the friendship table valid |
| FriendModels.DeleteBlockValid | backend/friends/models.py:65-71 | deleting one block row keeps the block table valid |
| FriendModels.WithoutPair | backend/friends/views.py:187-190 | after the delete no friendship joins the two users in either ordering, and a row survives exactly when it does not join them |
| FriendModels.WithoutPairValid | backend/friends/views.py:187-190 | that delete keeps the friendship table valid |
| FriendModels.RequestPairDetermines | backend/friends/models.py:41 | two request rows for the same ordered pair are the same row, whatever their status |
| FriendModels.RequestRowUnique | backend/friends/models.py:41 | a stored ordered request pair occurs in exactly one row |
| FriendModels.BlockRowUnique | backend/friends/models.py:70 | a stored ordered block pair occurs in exactly one row |
| FriendModels.FriendshipRowUnique | backend/friends/models.py:99 | a stored ordered friendship pair occurs in exactly one row |
| Sequences.NewestFirst | backend/friends/models.py:42 | a filtered table listed in `-created_at` order comes out with strictly decreasing creation stamps |
| Store.EmptyConsistent | backend/friends/models.py:38-42 | the empty database satisfies every table constraint |
| Store.CurrentUser | backend/core/settings.py:129-133 | the session's user is a stored user with the session's id; there is none for an anonymous session or a deleted user |
| Store.LookupUser | backend/friends/views.py:31-37 | `get(id=...)` finds a stored user with exactly that id, and finds none when no user has it |
| Store.InsertRequest | backend/friends/views.py:80-84 | `create` appends one pending row for the ordered pair, created now, keeps every earlier row and touches no other table |
| Store.SaveRequest | backend/friends/views.py:127-128 | `save()` changes that row's status and stamps its `updated_at` now; every other row and table is untouched |
| Store.EnsureFriendship | backend/friends/views.py:131-134 | after get-or-create the ordered pair is stored, every old friendship survives, the only possible new row is that pair, and nothing changes when it was already stored |
| Store.DropFriendshipsBetween | backend/friends/views.py:187-190 | after the delete no friendship joins the two users, and exactly the rows that do not join them survive |
| Store.InsertBlock | backend/friends/views.py:193-196 | the create half of get-or-create appends a block for the ordered pair and keeps every earlier row |
| Store.DeleteBlock | backend/friends/views.py:222 | `delete()` removes exactly that one row from the block table |
| Store.InsertUser | backend/users/views.py:43-52 | the create half of `get_or_create` appends that user and keeps every earlier user |
| Store.SaveUser | backend/users/views.py:55-59 | `save()` replaces that user row alone |
| Store.InsertRequestConsistent | backend/friends/views.py:80-84 | inserting a request for an unused ordered pair keeps every table constraint |
| Store.SaveRequestConsistent | backend/friends/views.py:127-128 | `save()` of a request keeps every table constraint |
| Store.EnsureFriendshipConsistent | backend/friends/views.py:131-134 | after get-or-create the ordered friendship is stored exactly once and the tables stay consistent |
| Store.DropFriendshipsBetweenConsistent | backend/friends/views.py:187-190 | deleting the friendships between two users keeps every table constraint |
| Store.InsertBlockConsistent | backend/friends/views.py:193-196 | creating a block for an unblocked ordered pair keeps every table constraint |
| Store.DeleteBlockConsistent | backend/friends/views.py:222 | deleting a block keeps every table constraint |
| Store.InsertUserConsistent | backend/users/views.py:43-52 | creating a user with the next id, a free username and an unused Google id keeps every table constraint |
| Store.SaveUserConsistent | backend/users/views.py:55-59 | re-saving a user with the same identity columns keeps every table constraint |
| Store.Database.constructor | backend/friends/models.py:38-42 | a new database is empty and consistent |
| Store.Database.CreateRequest | backend/friends/views.py:80-84 | `FriendRequest.objects.create` appends the next row and advances the id and the clock |
| Store.Database.SetStatus | backend/friends/views.py:127-128 | `status = ...; save()` writes the new status and a fresh `updated_at` to that row alone |
| Store.Database.GetOrCreateFriendship | backend/friends/views.py:131-134 | `get_or_create` inserts the ordered friendship only when it is not stored, and says whether it did |
| Store.Database.DeleteFriendshipsBetween | backend/friends/views.py:187-190 | the filtered delete removes exactly the rows joining the two users |
| Store.Database.GetOrCreateBlock | backend/friends/views.py:193-196 | `get_or_create` returns the stored block and false, or inserts the next block and returns it with true |
| Store.Database.RemoveBlock | backend/friends/views.py:222 | `delete()` removes that block row alone |
| Store.Database.CreateUser | backend/users/views.py:43-52 | the create half of `get_or_create` appends the user row |
| Store.Database.UpdateUser | backend/users/views.py:55-59 | `save()` overwrites that user row alone |
| FriendViews.SendRequestStep | backend/friends/views.py:26-89 | a refused send writes nothing; a created request is pending, from the caller to a different existing receiver, with the note defaulting to empty, and it is the only change |
| FriendViews.SendFriendRequest | backend/friends/views.py:26-89 | the checks and the create, one by one, agree with `SendRequestStep` and keep the tables consistent |
| FriendViews.SendRequestWrites | backend/friends/views.py:67-84 | a send either writes nothing or inserts exactly the caller's request to the looked-up receiver, and only when that ordered pair has no row |
| FriendViews.SendRequestConsistent | backend/friends/views.py:80-84 | sending never breaks a table constraint, because an insert that would is answered 500 |
| FriendViews.IsAdminUser | backend/friends/views.py:15-18 | granted only to a signed-in caller whose stored user has the admin flag, and, when user ids are unique, to every such caller |
| FriendViews.SendToSelfRefused | backend/friends/views.py:40-44 | a request to oneself is answered 400 with nothing written, even when blocks or friendships exist |
| FriendViews.SendAcrossBlockForbidden | backend/friends/views.py:47-54 | a block in either direction gives 403 with nothing written |
| FriendViews.SendToFriendRefused | backend/friends/views.py:57-64 | when no block stands, a friendship stored in either ordering gives 400 with nothing written |
| FriendViews.SendCreatedIff | backend/friends/views.py:26-89 | a request is created exactly when the caller is signed in, the receiver exists and differs, no block and no friendship stands, and no row exists for the ordered pair; a pending row for the pair gives 400 |
| FriendViews.ReversePendingDoesNotBlock | backend/friends/views.py:67-77 | a pending request B to A does not stop A from sending to B |
| FriendViews.ResendAfterDecisionFails | backend/friends/views.py:67-84 | after the request A to B was decided, sending A to B again passes the pending check, hits the pair constraint and is answered 500 with nothing written |
| FriendViews.ApproveStep | backend/friends/views.py:117-139 | 403 exactly for callers who are not administrators, 404 exactly when no pending row has the id; a refusal writes nothing; a success answers the row with that id, now approved and stored, and its (sender, receiver) friendship is stored; blocks and users are untouched |
| FriendViews.ApproveRequest | backend/friends/views.py:117-139 | the lookup, the save and the get-or-create, one by one, agree with `ApproveStep` and keep the tables consistent |
| FriendViews.ApproveConsistent | backend/friends/views.py:127-134 | approving keeps every table constraint |
| FriendViews.RejectStep | backend/friends/views.py:146-161 | 403 exactly for callers who are not administrators, 404 exactly when no pending row has the id; a refusal writes nothing; a success answers the row with that id, now rejected and stored; friendships, blocks and users are untouched |
| FriendViews.RejectRequest | backend/friends/views.py:146-161 | the lookup and the save agree with `RejectStep` and keep the tables consistent |
| FriendViews.RejectConsistent | backend/friends/views.py:155-156 | rejecting keeps every table constraint |
| FriendViews.BlockStep | backend/friends/views.py:169-207 | a refusal before the delete writes nothing; a 201 answers a block by the caller of the requested other user; after a 201 or an "already blocked" 400 no friendship joins the two and the block is stored; requests and users are untouched |
| FriendViews.BlockUser | backend/friends/views.py:169-207 | the lookup, the delete and the get-or-create agree with `BlockStep` and keep the tables consistent |
| FriendViews.BlockConsistent | backend/friends/views.py:187-196 | blocking keeps every table constraint |
| FriendViews.UnblockStep | backend/friends/views.py:213-223 | a refusal writes nothing; a success removes one block row, and the caller owns a block with that id; requests, friendships and users are untouched |
| FriendViews.UnblockUser | backend/friends/views.py:213-223 | the owned lookup and the delete agree with `UnblockStep` and keep the tables consistent |
| FriendViews.UnblockConsistent | backend/friends/views.py:215-222 | unblocking keeps every table constraint |
| FriendViews.MyFriends | backend/friends/views.py:96-99 | anonymous callers get 403; otherwise the list holds exactly the stored friendships in which the caller is either party, newest first |
| FriendViews.PendingRequests | backend/friends/views.py:104-110 | callers who are not signed-in administrators get 403; otherwise the list holds exactly the pending requests, newest first |
| FriendViews.BlockedUsersList | backend/friends/views.py:230-231 | anonymous callers get 403; otherwise the list holds exactly the blocks the caller made, newest first |
| FriendViews.AdminGateRequired | backend/friends/views.py:15-18 | without a signed-in administrator, listing pending requests, approving and rejecting are all refused with 403 and write nothing |
| FriendViews.DecidedIsTerminal | backend/friends/views.py:119-124 | an id that is missing or already decided gives 404 to approve and reject alike, with nothing written |
| FriendViews.ApproveOutcome | backend/friends/views.py:119-134 | approving changes only that row, to approved and stamped now; it keeps every friendship; it adds at most the (sender, receiver) row, which is then stored exactly once |
| FriendViews.ReverseFriendshipDoesNotSuppress | backend/friends/views.py:131-134 | a stored (receiver, sender) friendship does not stop (sender, receiver) from being created beside it |
| FriendViews.ApproveTwiceNotFound | backend/friends/views.py:119-128 | an approved request can be neither approved nor rejected again |
| FriendViews.RejectOutcome | backend/friends/views.py:148-156 | rejecting changes only that row's status and stamp; friendships, blocks and users are untouched |
| FriendViews.BlockSelfRefused | backend/friends/views.py:180-184 | blocking oneself is answered 400 with nothing written |
| FriendViews.BlockOutcome | backend/friends/views.py:180-202 | blocking another user leaves no friendship between the two in either ordering and the block row stored. The block is created (201) exactly when it was new; otherwise the answer is 400, with the friendships still deleted. Requests and users are untouched |
| FriendViews.BlockedPairCannotSend | backend/friends/views.py:47-54 | after A blocks B, a request from A to B and one from B to A are both refused with 403 |
| FriendViews.MutualBlocksCoexist | backend/friends/models.py:70 | A can block B while B's block of A stands, and both rows are then stored |
| FriendViews.UnblockOutcome | backend/friends/views.py:213-222 | the block is deleted exactly when a block with that id was made by the caller; any other id gives 404 with nothing written |
| FriendAdmin.Batch | backend/friends/admin.py:15 | the rows the loop fetches are exactly the pending rows of the queryset (ticked, and admitted by the page's status filter), newest first |
| FriendAdmin.BatchRows | backend/friends/admin.py:15 | the fetched rows are rows of the table, with no id twice |
| FriendAdmin.ApproveOne | backend/friends/admin.py:16-18 | one turn of the loop keeps the number of request rows and every friendship, and touches no block and no user |
| FriendAdmin.ApproveEach | backend/friends/admin.py:15-18 | the loop over any batch keeps the number of request rows and every friendship, and touches no block and no user |
| FriendAdmin.ApproveSelection | backend/friends/admin.py:14-18 | "approve selected" keeps the number of request rows and every friendship, and touches no block and no user |
| FriendAdmin.ApproveEachOutcome | backend/friends/admin.py:15-18 | the loop over a batch of distinct rows saves each as approved. It leaves every other row as it was, keeps all friendships, stores each batch row's pair and adds no other pair |
| FriendAdmin.ApproveEachConsistent | backend/friends/admin.py:15-18 | the loop keeps every table constraint |
| FriendAdmin.ApproveBatchOutcome | backend/friends/admin.py:15-18 | the loop over the pending rows of the queryset, in any order without repeats, approves exactly those rows, after which each one's (sender, receiver) friendship is stored exactly once. Other rows are unchanged, no friendship is lost, new friendships come only from approved rows, and blocks and users are untouched |
| FriendAdmin.ApproveSelectionOutcome | backend/friends/admin.py:14-18 | the same for the page's default order |
| FriendAdmin.ApproveReportedCount | backend/friends/admin.py:19 | the count in the message, taken after the loop, is 0 when the page is filtered to pending rows, and otherwise the queryset's size before the loop |
| FriendAdmin.CountIncludesDecided | backend/friends/admin.py:15-19 | before the writes the queryset's size is the number of rows the loop handles plus the number of its rows already decided |
| FriendAdmin.ApprovedCountIsApproved | backend/friends/admin.py:15-19 | the number of approved rows among the ticked ones grows by exactly `ApprovedCount`, the number of rows the loop handles |
| FriendAdmin.ApproveFilteredReportsZero | backend/friends/admin.py:8-19 | with the page filtered to pending rows and a pending row ticked, at least one request is approved and the message reports 0 |
| FriendAdmin.ApproveFetched | backend/friends/admin.py:16-18 | one turn of the loop on the database agrees with `ApproveOne`: the fetched row saved as approved, then get-or-create of its friendship |
| FriendAdmin.ApproveRequests | backend/friends/admin.py:14-19 | the loop, one save and one get-or-create per fetched row, agrees with `ApproveSelection`; the message count is the queryset counted after the writes, and the corrected count `approved` is `ApprovedCount` |
| FriendAdmin.Rejecting | backend/friends/admin.py:23 | the bulk update rejects a row exactly when it is a pending row of the queryset, and changes nothing else in it (not `updated_at`) |
| FriendAdmin.RejectAll | backend/friends/admin.py:23 | the update applies that to every row, in place |
| FriendAdmin.RejectSelection | backend/friends/admin.py:23 | "reject selected" keeps the number of request rows and each row's ordered pair, creates nothing, stamps nothing and touches no other table |
| FriendAdmin.RejectSelectionOutcome | backend/friends/admin.py:22-24 | "reject selected" rejects exactly the pending rows of the queryset, after which none of its rows is pending. Other rows are unchanged, friendships, blocks and users are untouched and the store stays consistent. The count, taken after the update, is 0 when the page is filtered to pending rows and otherwise the queryset's size before it |
| FriendAdmin.RejectedCountIsRejected | backend/friends/admin.py:23 | the number of rejected rows among the ticked ones grows by exactly `RejectedCount`, the number of rows the update matches |
| FriendAdmin.RejectFilteredReportsZero | backend/friends/admin.py:8-24 | with the page filtered to pending rows and a pending row ticked, at least one request is rejected and the message reports 0 |
| FriendAdmin.RejectRequests | backend/friends/admin.py:22-24 | the in-place update agrees with `RejectSelection`; the message count is the queryset counted after the update, and the corrected count `rejected`, the number `update()` returns, is `RejectedCount` |
| FriendSerializers.RequestClientCannotSetStatus | backend/friends/serializers.py:8-17 | through the request serializer a client writes only `receiver_id` and `note`, never `id`, `sender`, `status` or `created_at`; `receiver_id` is never shown; the create serializer takes the same two fields |
| FriendSerializers.AdminSerializerWritesStatusOnly | backend/friends/serializers.py:34-40 | through the admin serializer only `status` can be written, and all six fields are shown |
| FriendSerializers.GetFriend | backend/friends/serializers.py:62-69 | nothing is shown exactly when there is no request in the context; what is shown is a party of the friendship, and a party of a friendship between two users is never shown themself |
| FriendSerializers.FriendIsOtherParty | backend/friends/serializers.py:62-68 | for either party of a friendship the friend shown is a party of it, and is not the requester unless the friendship is with oneself; user1 is shown user2 |
| FriendSerializers.FriendSymmetric | backend/friends/serializers.py:66-68 | both storage orderings of a friendship show each party the other one |
| FriendSerializers.FriendWithoutRequester | backend/friends/serializers.py:63-69 | with no request in the context nothing is shown; any requester other than user1 is shown user1 |
| UserModels.NewUser | backend/users/models.py:11-24 | a created user is neither an administrator nor e-mail verified, has no Firebase uid and no uploaded photo |
| UserModels.DisplayName | backend/users/models.py:30-31 | `__str__` is "first last" when there is a first name and the username otherwise |
| UserModels.ProfilePhotoUrl | backend/users/models.py:33-37 | with an uploaded file its URL is returned, otherwise the `profile_photo` column |
| UserModels.InsertUserValid | backend/users/models.py:11-14 | adding a user with the next id, a free username and an unused Google id keeps the user table valid |
| UserModels.SaveUserValid | backend/users/models.py:11-14 | re-saving a user with unchanged id, username and identities keeps the user table valid |
| UserModels.GoogleIdIdentifiesOne | backend/users/models.py:14 | two users with the same non-null Google id are the same row |
| UserModels.NullIdentitiesNeverClash | backend/users/models.py:11-14 | any number of users may have neither a Google id nor a Firebase uid |
| UserSerializers.Lead | backend/users/serializers.py:16 | the count of leading whitespace characters, followed by a non-space character or the end |
| UserSerializers.Trail | backend/users/serializers.py:16 | the count of trailing whitespace characters, preceded by a non-space character or the start |
| UserSerializers.Strip | backend/users/serializers.py:16 | `strip()` is empty exactly for an all-blank string; otherwise it is the slice of the input between its leading and trailing whitespace and has no surrounding whitespace |
| UserSerializers.StripTrimmed | backend/users/serializers.py:16 | a string without surrounding whitespace is its own strip |
| UserSerializers.JoinedBlank | backend/users/serializers.py:16 | "first last" is blank exactly when both parts are |
| UserSerializers.FullName | backend/users/serializers.py:15-16 | `full_name` is the username or a non-empty name without surrounding whitespace, and is empty only for an empty username |
| UserSerializers.FullNameFallback | backend/users/serializers.py:15-16 | `full_name` is the username exactly when both name parts are blank, and otherwise the non-empty stripped "first last" |
| UserSerializers.FullNameOfTidyNames | backend/users/serializers.py:27-28 | with non-empty names without outer whitespace, `full_name` is "first last" and equals `__str__` |
| UserSerializers.DisplayNameKeepsTrailingSpace | backend/users/serializers.py:15-16 | without a last name, `__str__` keeps the trailing space that `full_name` strips |
| UserSerializers.AdminFlagReadOnly | backend/users/serializers.py:11-13 | `is_admin_user` is shown by the user serializer but cannot be written, and exactly the profile fields are writable |
| UserSerializers.SearchHidesPrivateFields | backend/users/serializers.py:25 | search results show neither the e-mail nor the admin flag |
| UserViews.LocalPart | backend/users/views.py:46 | `split('@')[0]` is the longest prefix of the e-mail without `@`, ending at the first `@` |
| UserViews.DefaultUsername | backend/users/views.py:46 | the default username is the e-mail's local part, or `user_` and at most 8 characters of the Google id when the e-mail is empty |
| UserViews.TokenPresent | backend/users/serializers.py:31-33 | the token passes the serializer exactly when it is given and holds a non-whitespace character |
| UserViews.GoogleLoginStep | backend/users/views.py:21-75 | 400 exactly for a missing or blank token, 401 exactly for a rejected one; every refusal writes nothing; a signed-in user carries the token's Google id; the request, block and friendship tables are untouched |
| UserViews.GoogleLogin | backend/users/views.py:21-75 | the checks, the get and the save or create agree with `GoogleLoginStep` and keep the tables consistent |
| UserViews.GoogleLoginConsistent | backend/users/views.py:43-59 | signing in keeps every table constraint |
| UserViews.BadTokenChangesNothing | backend/users/views.py:21-75 | a missing token gives 400 and a rejected one 401, with no user created or changed |
| UserViews.FirstLoginCreates | backend/users/views.py:43-52 | for an unknown Google id exactly one user is created, with that id, the default username, the claimed e-mail and names, and both flags cleared; it is reported as new. Only a taken username makes it fail, with a 500 and nothing written |
| UserViews.ReturningLoginUpdates | backend/users/views.py:55-59 | for a known Google id nobody is created; the one user with that id gets the claimed photo and names (empty for absent claims), keeps everything else, and is reported as not new |
| UserViews.NewUserIffCreated | backend/users/views.py:65-67 | `is_new_user` is true exactly when a row was added; any refusal writes nothing |
| UserViews.LoggedInUserStored | backend/users/views.py:43-59 | the user a successful sign-in answers with is stored and carries the token's Google id |
| UserViews.LoginTwiceIdempotent | backend/users/views.py:43-59 | signing in again with the same claims finds the same user, reports it as not new and changes nothing |
| UserViews.FoldChar | backend/users/views.py:98-101 | ASCII case folding lowers `A`-`Z` and keeps everything else |
| UserViews.FoldCase | backend/users/views.py:98-101 | a folded string folds each character in place |
| UserViews.Occurs | backend/users/views.py:98-101 | substring search holds exactly when the needle occurs at some position of the text |
| UserViews.ContainsFold | backend/users/views.py:98-101 | `icontains` holds exactly when the folded query occurs at some position of the folded field |
| UserViews.FoldCaseIdempotent | backend/users/views.py:98-101 | folding twice is folding once |
| UserViews.SearchUsers | backend/users/views.py:92-102 | at most 20 results, none for a query under two characters, each a stored user other than the requester |
| UserViews.UserSearch | backend/users/views.py:85-102 | answered exactly for a signed-in caller, 403 otherwise, with stored users other than the caller |
| UserViews.SearchResultsSound | backend/users/views.py:94-102 | a query under two characters finds nobody. Every result is a stored user other than the requester whose first name, last name or username contains the query case-insensitively, and there are at most 20 |
| UserViews.SearchComplete | backend/users/views.py:98-102 | with fewer than 20 matches every matching user other than the requester is found |
| UserViews.SearchIgnoresQueryCase | backend/users/views.py:98-101 | a query and its lower-case form find the same users |
| UserViews.SearchNeedsSignIn | backend/core/settings.py:131-133 | anonymous callers are refused with 403, and a signed-in caller never finds themself |

## Left out

- Google token verification is a call into a foreign library. Its outcome (the claims, or a rejection) is an input of `GoogleLoginStep`.
- Session `login` and `logout`, `LogoutView` and `CurrentUserView` are session plumbing with no logic of their own. The `last_login` stamp written by `login` is also left out.
- `FirebaseLoginView` and `FirebaseRegisterView` are imported by `backend/users/urls.py` from `backend/users/views.py`, which does not define them.
- Request parsing, response rendering, URL routing and the Turkish messages are left out. So is any permission dispatch beyond the signed-in check and `IsAdminUser`: the admin site's own staff check before a bulk action is not modelled.
- A `receiver_id` or `user_id` that is not an integer (a 500 from the framework) is left out. Ids are `Option<int>`, with a missing one finding nobody.
- Passwords, `date_joined`, `last_login`, the `AbstractUser` columns other than `username`, `email`, `first_name` and `last_name`, and field length limits are left out.
- FriendViews.SendRequestStep: a JSON body with `"note": null` makes `request.data.get('note', '')` return `None`. Creating the row then breaks the NOT NULL `note` column, which Django answers with a 500. The model has no JSON null: an absent note and a null one are both `None`, and both create the request with an empty note.
- Foreign-key cascades on user deletion are left out, because no modelled operation deletes a user.
- Concurrency: every operation runs alone. The race in `get_or_create` is not modelled.
- Real timestamps are left out: time is a counter that every request, block or friendship insert and every request save advances. Consequence: two rows are never created at the same instant, so the newest-first orderings have no ties.
- `UserSearchView` has no ordering of its own. Which 20 of more than 20 matches are returned is up to the database; the model takes them in table order.
- `UserSerializers.Strip`: whitespace is the ASCII subset of Python's `str.isspace` (tab to carriage return, 0x1C to 0x1F, space). Unicode spaces are not stripped.
- `UserViews.ContainsFold`: `icontains` is modelled with ASCII case folding. Unicode case folding is not modelled.
- `GoogleAuthSerializer`'s blank check on `id_token` uses the same ASCII strip.
- The admin page's list columns, read-only fields and the two other admin pages, and `BlockedUserSerializer`, are left out. They hold no logic.
- The request admin page's `status` filter is modelled, as the `status` of a `Selection`, because an action's queryset carries it. Its `created_at` date filter and its search box only narrow which rows can be ticked. Neither column changes during an action, so both are folded into the ticked ids.
- FriendAdmin.Batch: the loop takes the rows newest first, the page's default order. A column sort on the page changes that order. `FriendAdmin.ApproveBatchOutcome` holds for every order. The order decides only which row gets which `updated_at` stamp and which friendship gets which id and creation stamp, and the model does not follow those under a column sort.
- The admin site's "select all across pages" is a `Selection` whose ids are all the page's rows.
- `StoredFile` stands for an uploaded image as its name and URL. Storage itself is not modelled.

## Findings

| source | as written | input that shows it | evidently intended | confidence | as-written member | corrected member |
|---|---|---|---|---|---|---|
| backend/friends/admin.py:19 | the approve message counts the action's queryset after the loop, and the queryset still carries the page's status filter | page filtered to `status = pending`, one pending request ticked: one request is approved and the message says 0 | the message reports how many requests were approved | medium, not executed | FriendAdmin.ApproveRequests, FriendAdmin.ApproveReportedCount, FriendAdmin.ApproveFilteredReportsZero | FriendAdmin.ApprovedCount, FriendAdmin.ApprovedCountIsApproved |
| backend/friends/admin.py:24 | the reject message counts the action's queryset after the update, and the queryset still carries the page's status filter | page filtered to `status = pending`, one pending request ticked: one request is rejected and the message says 0 | the message reports how many requests were rejected, the number `update()` returns | medium, not executed | FriendAdmin.RejectRequests, FriendAdmin.RejectSelectionOutcome, FriendAdmin.RejectFilteredReportsZero | FriendAdmin.RejectedCount, FriendAdmin.RejectedCountIsRejected |

The admin methods return the message count as the source computes it and, beside it, the corrected count: `ApprovedCount` or `RejectedCount`. The two lemmas prove that these are the numbers of requests each action decides.
