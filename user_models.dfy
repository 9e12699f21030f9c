/**
 * The user record (`CustomUser`): the identity columns, the profile fields,
 * the two flags and their defaults, and the constraints of the user table.
 */
module UserModels {
  import opened Wrappers
  import opened Sequences

  /** An uploaded image: the stored name (empty when the field is cleared) and the URL storage gives it. */
  datatype StoredFile = StoredFile(name: string, url: string)

  datatype User = User(
    id: nat,
    username: string,
    email: string,
    firstName: string,
    lastName: string,
    firebaseUid: Option<string>,         // nullable and unique
    googleId: Option<string>,            // nullable and unique
    profilePhoto: Option<string>,        // a URL, nullable
    profilePhotoFile: Option<StoredFile>,
    isEmailVerified: bool,
    isAdminUser: bool)

  /** A new row as `objects.create` writes it: every column not given takes its declared default. */
  function NewUser(id: nat, username: string, email: string, firstName: string, lastName: string,
                   googleId: Option<string>, profilePhoto: Option<string>): (u: User)
    ensures !u.isAdminUser && !u.isEmailVerified
    ensures u.firebaseUid == None && u.profilePhotoFile == None
    ensures u.id == id && u.username == username && u.email == email && u.googleId == googleId
    ensures u.firstName == firstName && u.lastName == lastName && u.profilePhoto == profilePhoto
  {
    User(id, username, email, firstName, lastName, None, googleId, profilePhoto, None, false, false)
  }

  /** `__str__`: the first and last name joined by a space when there is a first name, else the username. */
  function DisplayName(u: User): (s: string)
    ensures u.firstName != "" ==> s == u.firstName + " " + u.lastName
    ensures u.firstName == "" ==> s == u.username
  {
    if u.firstName != "" then u.firstName + " " + u.lastName else u.username
  }

  /** A file field is truthy when it holds a file with a non-empty name. */
  predicate HasFile(f: Option<StoredFile>)
  {
    f.Some? && f.value.name != ""
  }

  /** `get_profile_photo_url`: the uploaded file wins over the URL column. */
  function ProfilePhotoUrl(u: User): (r: Option<string>)
    ensures HasFile(u.profilePhotoFile) ==> r == Some(u.profilePhotoFile.value.url)
    ensures !HasFile(u.profilePhotoFile) ==> r == u.profilePhoto
  {
    if HasFile(u.profilePhotoFile) then Some(u.profilePhotoFile.value.url) else u.profilePhoto
  }

  /** The row a `get(id=id)` finds. */
  function UserIndex(us: seq<User>, id: int): Option<nat>
  {
    FirstIndex(us, (u: User) => u.id == id)
  }

  /** The row a `get(google_id=sub)` finds. */
  function GoogleUserIndex(us: seq<User>, sub: string): Option<nat>
  {
    FirstIndex(us, (u: User) => u.googleId == Some(sub))
  }

  /** Some row already holds this username. */
  predicate HasUsername(us: seq<User>, name: string)
  {
    exists u | u in us :: u.username == name
  }

  function UserId(u: User): int { u.id }
  function Username(u: User): string { u.username }

  /** A non-null Google id names at most one row; any number of rows may hold null. */
  ghost predicate GoogleIdsUnique(us: seq<User>)
  {
    forall i, j :: 0 <= i < j < |us| && us[i].googleId.Some? ==> us[i].googleId != us[j].googleId
  }

  /** The same for the Firebase uid. */
  ghost predicate FirebaseUidsUnique(us: seq<User>)
  {
    forall i, j :: 0 <= i < j < |us| && us[i].firebaseUid.Some? ==> us[i].firebaseUid != us[j].firebaseUid
  }

  /**
   * The user table: ids are handed out in increasing order below `nextId`,
   * usernames are unique (the inherited `username` column), and so are the
   * non-null external identities.
   */
  ghost predicate UserTableValid(us: seq<User>, nextId: nat)
  {
    && Ascending(us, UserId)
    && Below(us, UserId, nextId)
    && Distinct(us, Username)
    && GoogleIdsUnique(us)
    && FirebaseUidsUnique(us)
  }

  /** Inserting a fresh row with the next id, a free username and a Google id no row holds yet. */
  lemma {:induction false} InsertUserValid(us: seq<User>, nextId: nat, u: User)
    requires UserTableValid(us, nextId)
    requires u.id == nextId && !HasUsername(us, u.username) && u.firebaseUid == None
    requires u.googleId.Some? ==> forall v :: v in us ==> v.googleId != u.googleId
    ensures UserTableValid(us + [u], nextId + 1)
  {
    var us' := us + [u];
    forall i, j | 0 <= i < j < |us'| ensures Username(us'[i]) != Username(us'[j]) {
      if j == |us| { assert us[i] in us; }
    }
    forall i, j | 0 <= i < j < |us'| && us'[i].googleId.Some? ensures us'[i].googleId != us'[j].googleId {
      if j == |us| { assert us[i] in us; }
    }
  }

  /** Saving row `i` with only its profile columns changed keeps the table valid. */
  lemma {:induction false} SaveUserValid(us: seq<User>, nextId: nat, i: nat, u: User)
    requires UserTableValid(us, nextId) && i < |us|
    requires u.id == us[i].id && u.username == us[i].username
    requires u.googleId == us[i].googleId && u.firebaseUid == us[i].firebaseUid
    ensures UserTableValid(us[i := u], nextId)
  {
    var us' := us[i := u];
    assert forall k :: 0 <= k < |us| ==> UserId(us'[k]) == UserId(us[k]) && Username(us'[k]) == Username(us[k]);
  }

  /** Two rows with the same non-null Google id are the same row. */
  lemma GoogleIdIdentifiesOne(us: seq<User>, nextId: nat, i: nat, j: nat)
    requires UserTableValid(us, nextId)
    requires i < |us| && j < |us| && us[i].googleId.Some? && us[i].googleId == us[j].googleId
    ensures i == j
  {
  }

  /** Rows without external identities never clash on them. */
  lemma NullIdentitiesNeverClash(us: seq<User>)
    requires forall u :: u in us ==> u.googleId == None && u.firebaseUid == None
    ensures GoogleIdsUnique(us) && FirebaseUidsUnique(us)
  {
    forall i | 0 <= i < |us| ensures us[i].googleId == None && us[i].firebaseUid == None {
      assert us[i] in us;
    }
  }
}
