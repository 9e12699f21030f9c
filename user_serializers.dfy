/**
 * The user serializers: the computed `full_name` field and which fields each
 * serializer exposes and accepts.
 */
module UserSerializers {
  import opened UserModels

  /** Python's `str.isspace` on the ASCII range: tab to carriage return, the four separators 0x1C-0x1F, space. */
  predicate IsSpace(c: char)
  {
    c == ' ' || 9 <= c as int <= 13 || 28 <= c as int <= 31
  }

  /** Every character of `s` from index `i` up to (not including) `j` is whitespace. */
  ghost predicate SpaceBetween(s: string, i: int, j: int)
  {
    forall k :: i <= k < j && 0 <= k < |s| ==> IsSpace(s[k])
  }

  ghost predicate AllSpace(s: string)
  {
    SpaceBetween(s, 0, |s|)
  }

  /** The number of leading whitespace characters of `s`. */
  function Lead(s: string): (n: nat)
    ensures n <= |s| && SpaceBetween(s, 0, n)
    ensures n < |s| ==> !IsSpace(s[n])
  {
    if s != [] && IsSpace(s[0]) then
      var n := 1 + Lead(s[1..]);
      assert forall k :: 1 <= k < |s| ==> s[k] == s[1..][k - 1];
      n
    else 0
  }

  /** The number of trailing whitespace characters of `s`. */
  function Trail(s: string): (n: nat)
    ensures n <= |s| && SpaceBetween(s, |s| - n, |s|)
    ensures n < |s| ==> !IsSpace(s[|s| - 1 - n])
  {
    if s != [] && IsSpace(s[|s| - 1]) then
      var init := s[..|s| - 1];
      var n := 1 + Trail(init);
      assert forall k :: 0 <= k < |init| ==> s[k] == init[k];
      n
    else 0
  }

  /**
   * `strip()`: the part of `s` between its leading and its trailing
   * whitespace. It is empty exactly when `s` is all whitespace, it is the
   * slice of `s` that starts after the leading whitespace and is followed
   * only by whitespace, and it neither starts nor ends with whitespace.
   */
  function Strip(s: string): (r: string)
    ensures r == "" <==> AllSpace(s)
    ensures Lead(s) + |r| <= |s| && r == s[Lead(s)..Lead(s) + |r|]
    ensures SpaceBetween(s, Lead(s) + |r|, |s|)
    ensures r != "" ==> !IsSpace(r[0]) && !IsSpace(r[|r| - 1])
  {
    var a := Lead(s);
    if a == |s| then
      []
    else
      var b := |s| - Trail(s);
      assert !IsSpace(s[a]);
      s[a..b]
  }

  /**
   * `get_full_name`, shared word for word by `UserSerializer` and
   * `UserSearchSerializer`: the stripped "first last", or the username when
   * that is empty.
   */
  function FullName(u: User): (r: string)
    ensures r == u.username || (r != "" && !IsSpace(r[0]) && !IsSpace(r[|r| - 1]))
    ensures r == "" ==> u.username == ""
  {
    var joined := Strip(u.firstName + " " + u.lastName);
    if joined != "" then joined else u.username
  }

  /** "first last" is blank exactly when both parts are. */
  lemma JoinedBlank(first: string, last: string)
    ensures AllSpace(first + " " + last) <==> AllSpace(first) && AllSpace(last)
  {
    var joined := first + " " + last;
    assert forall k :: 0 <= k < |first| ==> joined[k] == first[k];
    assert forall k :: 0 <= k < |last| ==> joined[|first| + 1 + k] == last[k];
    assert joined[|first|] == ' ';
  }

  /** A string without surrounding whitespace is its own strip. */
  lemma StripTrimmed(s: string)
    requires s != [] && !IsSpace(s[0]) && !IsSpace(s[|s| - 1])
    ensures Strip(s) == s
  {
  }

  /** The fallback: the username is shown exactly when both name parts are blank. */
  lemma FullNameFallback(u: User)
    ensures AllSpace(u.firstName) && AllSpace(u.lastName) ==> FullName(u) == u.username
    ensures !(AllSpace(u.firstName) && AllSpace(u.lastName)) ==>
              FullName(u) == Strip(u.firstName + " " + u.lastName) && FullName(u) != ""
  {
    JoinedBlank(u.firstName, u.lastName);
  }

  /** With tidy, non-empty name parts the full name is exactly "first last" and agrees with `__str__`. */
  lemma FullNameOfTidyNames(u: User)
    requires u.firstName != "" && !IsSpace(u.firstName[0])
    requires u.lastName != "" && !IsSpace(u.lastName[|u.lastName| - 1])
    ensures FullName(u) == u.firstName + " " + u.lastName == DisplayName(u)
  {
    var joined := u.firstName + " " + u.lastName;
    assert joined[0] == u.firstName[0];
    assert joined[|joined| - 1] == u.lastName[|u.lastName| - 1];
    StripTrimmed(joined);
  }

  /** Without a last name, `__str__` keeps the trailing space that `full_name` strips. */
  lemma DisplayNameKeepsTrailingSpace(u: User)
    requires u.firstName != "" && !IsSpace(u.firstName[0]) && !IsSpace(u.firstName[|u.firstName| - 1])
    requires u.lastName == ""
    ensures DisplayName(u) == FullName(u) + " "
  {
    var f := u.firstName;
    var joined := f + " ";
    assert u.firstName + " " + u.lastName == joined;
    assert joined[0] == f[0];
    assert joined[|f| - 1] == f[|f| - 1];
    assert joined[..|f|] == f;
    var r := Strip(joined);
    assert Lead(joined) == 0;
    assert r != "" && r == joined[..|r|];
    assert |r| == |f| by {
      assert |r| >= |f| by { assert !IsSpace(joined[|f| - 1]); }
      assert |r| <= |f| by { assert IsSpace(joined[|f|]); }
    }
  }

  /**
   * The field lists of a model serializer: every declared field, the ones a
   * client may not write (Meta `read_only_fields`, fields declared
   * `read_only=True` and method fields) and the ones never shown
   * (`write_only=True`).
   */
  datatype SerializerMeta = SerializerMeta(fields: seq<string>, readOnly: set<string>, writeOnly: set<string>)

  /** The fields that appear in the serializer's output. */
  function Exposed(m: SerializerMeta): set<string>
  {
    set f | f in m.fields && f !in m.writeOnly
  }

  /** The fields a client can set through the serializer. */
  function Writable(m: SerializerMeta): set<string>
  {
    set f | f in m.fields && f !in m.readOnly
  }

  const UserSerializerMeta := SerializerMeta(
    ["id", "username", "email", "first_name", "last_name", "full_name", "profile_photo", "is_admin_user"],
    {"id", "is_admin_user", "full_name"},
    {})

  const UserSearchSerializerMeta := SerializerMeta(
    ["id", "first_name", "last_name", "full_name", "profile_photo"],
    {"id", "full_name"},
    {})

  /** The admin flag is shown by `UserSerializer` but a client cannot set it. */
  lemma AdminFlagReadOnly()
    ensures "is_admin_user" in Exposed(UserSerializerMeta)
    ensures "is_admin_user" !in Writable(UserSerializerMeta)
    ensures Writable(UserSerializerMeta) == {"username", "email", "first_name", "last_name", "profile_photo"}
  {
  }

  /** Search results carry neither the e-mail address nor the admin flag. */
  lemma SearchHidesPrivateFields()
    ensures "email" !in Exposed(UserSearchSerializerMeta)
    ensures "is_admin_user" !in Exposed(UserSearchSerializerMeta)
    ensures Exposed(UserSearchSerializerMeta) == {"id", "first_name", "last_name", "full_name", "profile_photo"}
  {
  }
}
