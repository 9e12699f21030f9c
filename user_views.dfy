/**
 * The two user views with logic of their own: signing in with a Google
 * token, which gets or creates the user holding the token's Google id and
 * refreshes its profile fields, and the user search behind the friend
 * finder. Token verification is a foreign call, so its outcome is an input.
 */
module UserViews {
  import opened Wrappers
  import opened Sequences
  import opened UserModels
  import opened UserSerializers
  import opened Store

  // ---------------------------------------------------------------- Google sign-in

  /** The claims of a verified ID token; `sub` is always present, the others may be missing. */
  datatype Claims = Claims(
    sub: string, email: Option<string>, givenName: Option<string>, familyName: Option<string>, picture: Option<string>)

  /** What the token verifier says about the token: its claims, or a `ValueError`. */
  datatype TokenCheck = Verified(claims: Claims) | Invalid

  /** The body of a successful sign-in: the user and `is_new_user`. */
  datatype Login = Login(user: User, isNewUser: bool)

  /** `GoogleAuthSerializer.is_valid`: `id_token` is a required text field, so a missing or blank token fails. */
  predicate TokenPresent(token: Option<string>)
    ensures TokenPresent(token) <==> token.Some? && exists k :: 0 <= k < |token.value| && !IsSpace(token.value[k])
  {
    token.Some? && Strip(token.value) != ""
  }

  /** `email.split('@')[0]`: everything before the first `@`, or all of it. */
  function LocalPart(email: string): (r: string)
    ensures r <= email && '@' !in r
    ensures |r| < |email| ==> email[|r|] == '@'
  {
    if email == [] || email[0] == '@' then [] else [email[0]] + LocalPart(email[1..])
  }

  /** The username a new Google user gets: the e-mail's local part, or `user_` and the first 8 characters of the id. */
  function DefaultUsername(email: string, sub: string): (r: string)
    ensures email != "" ==> r == LocalPart(email)
    ensures email == "" ==> r == "user_" + Take(sub, 8) && |r| <= 13
  {
    if email != "" then LocalPart(email) else "user_" + Take(sub, 8)
  }

  /**
   * `GoogleLoginView.post` with the verifier's answer given: 400 for a
   * missing token, 401 for a rejected one; otherwise get-or-create on the
   * Google id. An existing user gets its photo and names overwritten with the
   * claims (an absent claim gives the empty string) and is saved; a new one
   * is created with the default username, which fails with an integrity error
   * when that username is taken.
   */
  function GoogleLoginStep(t: Tables, token: Option<string>, check: TokenCheck): (s: Step<Login>)
    ensures s.response.BadRequest? <==> !TokenPresent(token)
    ensures s.response.Unauthorized? <==> TokenPresent(token) && check.Invalid?
    ensures !s.response.Ok? ==> s.after == t
    ensures s.response.Ok? ==> check.Verified? && s.response.value.user.googleId == Some(check.claims.sub)
    ensures s.after.requests == t.requests && s.after.blocks == t.blocks && s.after.friendships == t.friendships
  {
    if !TokenPresent(token) then Step(BadRequest(InvalidInput), t)
    else match check
      case Invalid => Step(Unauthorized, t)
      case Verified(c) =>
        var email, first, last, photo := c.email.GetOr(""), c.givenName.GetOr(""), c.familyName.GetOr(""), c.picture.GetOr("");
        match GoogleUserIndex(t.users, c.sub)
          case Some(i) =>
            var u := t.users[i].(profilePhoto := Some(photo), firstName := first, lastName := last);
            Step(Ok(Login(u, false)), SaveUser(t, i, u))
          case None =>
            var name := DefaultUsername(email, c.sub);
            if HasUsername(t.users, name) then Step(ServerError, t)
            else
              var u := NewUser(t.nextUserId, name, email, first, last, Some(c.sub), Some(photo));
              Step(Ok(Login(u, true)), InsertUser(t, u))
  }

  lemma GoogleLoginConsistent(t: Tables, token: Option<string>, check: TokenCheck)
    requires Consistent(t)
    ensures Consistent(GoogleLoginStep(t, token, check).after)
  {
    if TokenPresent(token) && check.Verified? {
      var c := check.claims;
      match GoogleUserIndex(t.users, c.sub)
      case Some(i) =>
        var u := t.users[i].(profilePhoto := Some(c.picture.GetOr("")), firstName := c.givenName.GetOr(""),
                               lastName := c.familyName.GetOr(""));
        SaveUserConsistent(t, i, u);
      case None =>
        var name := DefaultUsername(c.email.GetOr(""), c.sub);
        if !HasUsername(t.users, name) {
          forall v | v in t.users ensures v.googleId != Some(c.sub) {
            var k :| 0 <= k < |t.users| && t.users[k] == v;
          }
          InsertUserConsistent(t, NewUser(t.nextUserId, name, c.email.GetOr(""), c.givenName.GetOr(""),
                                          c.familyName.GetOr(""), Some(c.sub), Some(c.picture.GetOr(""))));
        }
    }
  }

  /** Sign-in on a `Database`: one get, then one save or one create. */
  method GoogleLogin(db: Database, token: Option<string>, check: TokenCheck) returns (r: Response<Login>)
    requires db.Valid()
    modifies db
    ensures db.Valid()
    ensures Step(r, db.Snapshot()) == GoogleLoginStep(old(db.Snapshot()), token, check)
  {
    GoogleLoginConsistent(db.Snapshot(), token, check);
    if !TokenPresent(token) {
      return BadRequest(InvalidInput);
    }
    if check.Invalid? {
      return Unauthorized;
    }
    var c := check.claims;
    var email, first, last, photo := c.email.GetOr(""), c.givenName.GetOr(""), c.familyName.GetOr(""), c.picture.GetOr("");
    var found := GoogleUserIndex(db.users, c.sub);
    if found.Some? {
      var u := db.users[found.value].(profilePhoto := Some(photo), firstName := first, lastName := last);
      db.UpdateUser(found.value, u);
      return Ok(Login(u, false));
    }
    var name := DefaultUsername(email, c.sub);
    if HasUsername(db.users, name) {
      return ServerError;
    }
    var u := NewUser(db.nextUserId, name, email, first, last, Some(c.sub), Some(photo));
    db.CreateUser(u);
    r := Ok(Login(u, true));
  }

  /** A missing token and a token the verifier rejects change nothing. */
  lemma BadTokenChangesNothing(t: Tables, token: Option<string>, check: TokenCheck)
    requires !TokenPresent(token) || check.Invalid?
    ensures var s := GoogleLoginStep(t, token, check);
            s.after == t && (if TokenPresent(token) then s.response == Unauthorized else s.response == BadRequest(InvalidInput))
  {
  }

  /**
   * A verified sign-in for a Google id nobody holds creates exactly one user,
   * carrying that id, the default username, the claimed e-mail and names,
   * the flags cleared, and reports it as new; it fails with nothing written
   * only when the default username is taken.
   */
  lemma FirstLoginCreates(t: Tables, token: Option<string>, c: Claims)
    requires Consistent(t) && TokenPresent(token)
    requires forall u :: u in t.users ==> u.googleId != Some(c.sub)
    ensures var s := GoogleLoginStep(t, token, Verified(c));
            var name := DefaultUsername(c.email.GetOr(""), c.sub);
            && (HasUsername(t.users, name) <==> s.response == ServerError)
            && (HasUsername(t.users, name) ==> s.after == t)
            && (!HasUsername(t.users, name) ==>
                  && s.response.Ok? && s.response.value.isNewUser
                  && s.after.users == t.users + [s.response.value.user]
                  && s.response.value.user.googleId == Some(c.sub)
                  && s.response.value.user.username == name
                  && s.response.value.user.email == c.email.GetOr("")
                  && s.response.value.user.firstName == c.givenName.GetOr("")
                  && s.response.value.user.lastName == c.familyName.GetOr("")
                  && !s.response.value.user.isAdminUser && !s.response.value.user.isEmailVerified
                  && s.after.requests == t.requests && s.after.blocks == t.blocks && s.after.friendships == t.friendships)
  {
    forall k | 0 <= k < |t.users| ensures t.users[k].googleId != Some(c.sub) {
      assert t.users[k] in t.users;
    }
  }

  /**
   * A verified sign-in for a Google id some user holds creates nobody: that
   * user (the only one with the id) gets the claimed photo and names, keeps
   * its username, e-mail and everything else, and is reported as not new.
   */
  lemma ReturningLoginUpdates(t: Tables, token: Option<string>, c: Claims, k: nat)
    requires Consistent(t) && TokenPresent(token)
    requires k < |t.users| && t.users[k].googleId == Some(c.sub)
    ensures var s := GoogleLoginStep(t, token, Verified(c));
            var old_ := t.users[k];
            && s.response.Ok? && !s.response.value.isNewUser
            && s.response.value.user == old_.(profilePhoto := Some(c.picture.GetOr("")),
                                               firstName := c.givenName.GetOr(""), lastName := c.familyName.GetOr(""))
            && s.after.users == t.users[k := s.response.value.user]
            && s.after.requests == t.requests && s.after.blocks == t.blocks && s.after.friendships == t.friendships
  {
    var found := GoogleUserIndex(t.users, c.sub);
    GoogleIdIdentifiesOne(t.users, t.nextUserId, found.value, k);
  }

  /** `is_new_user` is true exactly when a row was added. */
  lemma NewUserIffCreated(t: Tables, token: Option<string>, check: TokenCheck)
    ensures var s := GoogleLoginStep(t, token, check);
            s.response.Ok? ==> (s.response.value.isNewUser <==> |s.after.users| == |t.users| + 1)
    ensures var s := GoogleLoginStep(t, token, check);
            !s.response.Ok? ==> s.after == t
  {
  }

  /** After a successful sign-in the user it answers with is stored, at a position the lemma names. */
  lemma LoggedInUserStored(t: Tables, token: Option<string>, c: Claims) returns (j: nat)
    requires TokenPresent(token)
    ensures var s := GoogleLoginStep(t, token, Verified(c));
            s.response.Ok? ==> j < |s.after.users| && s.after.users[j] == s.response.value.user && s.response.value.user.googleId == Some(c.sub)
  {
    match GoogleUserIndex(t.users, c.sub)
    case Some(i) =>
      j := i;
    case None =>
      j := |t.users|;
  }

  /** Signing in twice with the same claims: the second time finds the same user, reports it as not new and writes nothing new. */
  lemma LoginTwiceIdempotent(t: Tables, token: Option<string>, c: Claims)
    requires Consistent(t) && TokenPresent(token)
    requires GoogleLoginStep(t, token, Verified(c)).response.Ok?
    ensures var first := GoogleLoginStep(t, token, Verified(c));
            var second := GoogleLoginStep(first.after, token, Verified(c));
            && second.response == Ok(Login(first.response.value.user, false))
            && second.after == first.after
  {
    GoogleLoginConsistent(t, token, Verified(c));
    var first := GoogleLoginStep(t, token, Verified(c));
    var u := first.response.value.user;
    var after := first.after;
    var j := LoggedInUserStored(t, token, c);
    var found := GoogleUserIndex(after.users, c.sub);
    assert found.Some?;
    GoogleIdIdentifiesOne(after.users, after.nextUserId, found.value, j);
    assert u.profilePhoto == Some(c.picture.GetOr("")) && u.firstName == c.givenName.GetOr("") && u.lastName == c.familyName.GetOr("");
    assert u.(profilePhoto := Some(c.picture.GetOr("")), firstName := c.givenName.GetOr(""), lastName := c.familyName.GetOr("")) == u;
    assert after.users[j := u] == after.users;
  }

  // ---------------------------------------------------------------- user search

  /** ASCII case folding: `A`-`Z` to `a`-`z`, everything else as it is. */
  function FoldChar(c: char): (d: char)
    ensures 'A' <= c <= 'Z' ==> d as int == c as int + 32
    ensures !('A' <= c <= 'Z') ==> d == c
  {
    if 'A' <= c <= 'Z' then (c as int + 32) as char else c
  }

  function FoldCase(s: string): (r: string)
    ensures |r| == |s| && forall k :: 0 <= k < |s| ==> r[k] == FoldChar(s[k])
  {
    if s == [] then [] else [FoldChar(s[0])] + FoldCase(s[1..])
  }

  /** `needle` occurs in `hay` starting at position `i`. */
  ghost predicate OccursAt(needle: string, hay: string, i: int)
  {
    0 <= i <= |hay| - |needle| && hay[i..i + |needle|] == needle
  }

  /** Occurrences in `hay` after its first character are occurrences in its tail, one position earlier. */
  lemma OccursShift(needle: string, hay: string)
    requires hay != []
    ensures forall i :: OccursAt(needle, hay, i) && i != 0 ==> OccursAt(needle, hay[1..], i - 1)
    ensures forall j :: OccursAt(needle, hay[1..], j) ==> OccursAt(needle, hay, j + 1)
  {
    forall i | OccursAt(needle, hay, i) && i != 0 ensures OccursAt(needle, hay[1..], i - 1) {
      assert hay[1..][i - 1..i - 1 + |needle|] == hay[i..i + |needle|];
    }
    forall j | OccursAt(needle, hay[1..], j) ensures OccursAt(needle, hay, j + 1) {
      assert hay[1..][j..j + |needle|] == hay[j + 1..j + 1 + |needle|];
    }
  }

  /** `needle` occurs in `hay` as a contiguous substring. */
  function Occurs(needle: string, hay: string): (b: bool)
    ensures b <==> exists i :: OccursAt(needle, hay, i)
    decreases |hay|
  {
    if needle <= hay then
      assert OccursAt(needle, hay, 0);
      true
    else if |hay| <= |needle| then
      assert forall i :: OccursAt(needle, hay, i) ==> i == 0;
      false
    else
      OccursShift(needle, hay);
      Occurs(needle, hay[1..])
  }

  /** `field__icontains=query`. */
  predicate ContainsFold(field: string, query: string): (b: bool)
    ensures b <==> exists i :: OccursAt(FoldCase(query), FoldCase(field), i)
  {
    var r := Occurs(FoldCase(query), FoldCase(field));
    assert r ==> exists i :: OccursAt(FoldCase(query), FoldCase(field), i);
    r
  }

  /** The search's row filter: a name or the username contains the query, and the row is not the requester. */
  function Matching(query: string, me: nat): User -> bool
  {
    (u: User) => (ContainsFold(u.firstName, query) || ContainsFold(u.lastName, query) || ContainsFold(u.username, query))
                 && u.id != me
  }

  /** The most results a search returns. */
  const SearchLimit: nat := 20

  /** `UserSearchView.get_queryset` for requester `me`: nothing for a query under two characters, else the first 20 matches. */
  function SearchUsers(users: seq<User>, me: nat, query: string): (r: seq<User>)
    ensures |r| <= SearchLimit && (|query| < 2 ==> r == [])
    ensures forall u :: u in r ==> u in users && u.id != me
  {
    if |query| < 2 then [] else Take(Filter(users, Matching(query, me)), SearchLimit)
  }

  /** The view: the default permission demands a signed-in user; `q` defaults to the empty string. */
  function UserSearch(t: Tables, actor: Actor, q: Option<string>): (r: Response<seq<User>>)
    ensures r.Ok? <==> CurrentUser(t, actor).Some?
    ensures !r.Ok? ==> r == Forbidden(NotAuthenticated)
    ensures r.Ok? ==> forall u :: u in r.value ==> u in t.users && u.id != actor.id
  {
    match CurrentUser(t, actor)
      case None => Forbidden(NotAuthenticated)
      case Some(me) => Ok(SearchUsers(t.users, me.id, q.GetOr("")))
  }

  /**
   * Every result is a stored user other than the requester whose first name,
   * last name or username contains the query case-insensitively, and there
   * are at most 20; a query under two characters finds nobody.
   */
  lemma SearchResultsSound(users: seq<User>, me: nat, query: string)
    ensures var r := SearchUsers(users, me, query);
            && |r| <= SearchLimit
            && (|query| < 2 ==> r == [])
            && forall u :: u in r ==>
                 && u in users && u.id != me
                 && (ContainsFold(u.firstName, query) || ContainsFold(u.lastName, query) || ContainsFold(u.username, query))
  {
    var r := SearchUsers(users, me, query);
    if |query| >= 2 {
      var all := Filter(users, Matching(query, me));
      forall u | u in r ensures u in all {
        var k :| 0 <= k < |r| && r[k] == u;
        assert all[k] == u;
      }
    }
  }

  /** With fewer than 20 matches nobody is left out: every matching user other than the requester is found. */
  lemma SearchComplete(users: seq<User>, me: nat, query: string, u: User)
    requires |query| >= 2 && |Filter(users, Matching(query, me))| < SearchLimit
    requires u in users && u.id != me
    requires ContainsFold(u.firstName, query) || ContainsFold(u.lastName, query) || ContainsFold(u.username, query)
    ensures u in SearchUsers(users, me, query)
  {
    assert Matching(query, me)(u);
  }

  /** Folding a folded string changes nothing. */
  lemma FoldCaseIdempotent(s: string)
    ensures FoldCase(FoldCase(s)) == FoldCase(s)
  {
    var f := FoldCase(s);
    forall k | 0 <= k < |s| ensures FoldCase(f)[k] == f[k] {
      assert 'A' <= f[k] <= 'Z' ==> false by {
        if 'A' <= s[k] <= 'Z' {
        }
      }
    }
  }

  /** The search ignores the case of the query: an upper-case query finds what its lower-case form finds. */
  lemma SearchIgnoresQueryCase(users: seq<User>, me: nat, query: string)
    ensures SearchUsers(users, me, query) == SearchUsers(users, me, FoldCase(query))
  {
    FoldCaseIdempotent(query);
    FilterAgree(users, Matching(query, me), Matching(FoldCase(query), me));
  }

  /** Anonymous callers are refused; a signed-in caller never finds themself. */
  lemma SearchNeedsSignIn(t: Tables, actor: Actor, q: Option<string>)
    ensures CurrentUser(t, actor).None? ==> UserSearch(t, actor, q) == Forbidden(NotAuthenticated)
    ensures CurrentUser(t, actor).Some? ==> UserSearch(t, actor, q).Ok?
                                            && forall u :: u in UserSearch(t, actor, q).value ==> u.id != actor.id
  {
    if CurrentUser(t, actor).Some? {
      SearchResultsSound(t.users, CurrentUser(t, actor).value.id, q.GetOr(""));
    }
  }
}
