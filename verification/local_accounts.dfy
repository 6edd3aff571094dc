/** Accounts kept in the browser: a list of users, sign-in by password or
    by an 8-symbol morse code, and the built-in test account that is let
    in even when no user is stored (backend.ts `login`, `register`,
    `getUserProfile`, `updateUserProfile`). */
module LocalAccounts {
  import opened Wrappers
  import opened Types
  import opened RecordStore
  import AttributeEngine

  const TestEmail: string := "test@chronos.com"
  const TestPassword: string := "123456"
  const TestMorse: string := "........"
  const DefaultName: string := "Chronos Pioneer"
  const IdentityMismatch: string := "IDENTITY_MISMATCH: ACCESS_DENIED"
  const UserExists: string := "SIGNAL_COLLISION: USER_EXISTS"

  /** A partial profile; present fields replace the stored ones. */
  datatype ProfilePatch = ProfilePatch(name: Option<string>, avatarUrl: Option<string>)

  /** `updateUserProfile(patch)`: merges the patch into the stored profile
      and stores the result. */
  function UpdateUserProfile(s: Store, patch: ProfilePatch): (r: (Store, UserProfile))
    ensures Profile(r.0) == r.1
    ensures r.1.name == patch.name.GetOr(Profile(s).name)
    ensures r.1.avatarUrl == (if patch.avatarUrl.Some? then patch.avatarUrl else Profile(s).avatarUrl)
    ensures forall e :: e != UserProfileEndpoint ==> Read(r.0, e) == Read(s, e)
    ensures r.0.users == s.users
  {
    var current := Profile(s);
    var updated := UserProfile(patch.name.GetOr(current.name),
                               if patch.avatarUrl.Some? then patch.avatarUrl else current.avatarUrl);
    ProfileAfterWrite(s, UserProfileEndpoint, ProfileRecord(updated));
    (Write(s, UserProfileEndpoint, ProfileRecord(updated)), updated)
  }

  /** The credential test for one stored user: a non-empty morse code is
      compared with the user's morse code and the password is then
      ignored; otherwise the password must match. */
  predicate Matches(u: LocalUser, email: string, password: Option<string>, morse: Option<string>) {
    u.email == email
    && if morse.Some? && morse.value != "" then u.morseCode == morse else password == Some(u.password)
  }

  /** The first stored user the credentials match (`users.find`). */
  function FindUser(users: seq<LocalUser>, email: string, password: Option<string>, morse: Option<string>)
    : (r: Option<LocalUser>)
    ensures r.Some? ==> r.value in users && Matches(r.value, email, password, morse)
    ensures r.None? <==> forall i :: 0 <= i < |users| ==> !Matches(users[i], email, password, morse)
  {
    if |users| == 0 then None
    else if Matches(users[0], email, password, morse) then Some(users[0])
    else FindUser(users[1..], email, password, morse)
  }

  /** The test account's credentials. */
  predicate IsTestLogin(email: string, password: Option<string>, morse: Option<string>) {
    email == TestEmail && (password == Some(TestPassword) || morse == Some(TestMorse))
  }

  /** `login(email, password, morse)`: a matching stored user, or the test
      account, signs in; the profile name becomes the user's name (the
      default name when there is none or it is empty) and the attributes
      are read once. Anything else is refused. */
  function Login(s: Store, email: string, password: Option<string>, morse: Option<string>, now: int)
    : (r: Result<(Store, string), string>)
    ensures r.Success? <==> FindUser(s.users, email, password, morse).Some? || IsTestLogin(email, password, morse)
    ensures r.Failure? ==> r.error == IdentityMismatch
    ensures r.Success? ==> Profile(r.value.0).name == r.value.1 && r.value.0.lastSync == Some(now)
    ensures r.Success? && FindUser(s.users, email, password, morse).None? ==> r.value.1 == DefaultName
    ensures r.Success? ==> r.value.0.users == s.users
  {
    var user := FindUser(s.users, email, password, morse);
    if user.Some? || IsTestLogin(email, password, morse) then
      var name := if user.Some? && user.value.name != "" then user.value.name else DefaultName;
      var (s1, _) := UpdateUserProfile(s, ProfilePatch(Some(name), None));
      var (s2, _) := AttributeEngine.GetActiveAttributes(s1, now);
      Success((s2, name))
    else Failure(IdentityMismatch)
  }

  predicate EmailTaken(users: seq<LocalUser>, email: string) {
    exists i :: 0 <= i < |users| && users[i].email == email
  }

  /** `register(name, email, password, morse)`: refused when the email is
      taken; otherwise appends the user and sets the profile name. */
  function Register(s: Store, name: string, email: string, password: string, morse: Option<string>)
    : (r: Result<(Store, string), string>)
    ensures r.Failure? <==> EmailTaken(s.users, email)
    ensures r.Failure? ==> r.error == UserExists
    ensures r.Success? ==> r.value.0.users == s.users + [LocalUser(name, email, password, morse)]
                           && Profile(r.value.0).name == name && r.value.1 == name
  {
    if EmailTaken(s.users, email) then Failure(UserExists)
    else
      var s1 := s.(users := s.users + [LocalUser(name, email, password, morse)]);
      var (s2, _) := UpdateUserProfile(s1, ProfilePatch(Some(name), None));
      Success((s2, name))
  }

  /** A new user can sign in at once with the password registered. */
  lemma RegisterThenLogin(s: Store, name: string, email: string, password: string, now: int)
    requires !EmailTaken(s.users, email)
    ensures var s1 := Register(s, name, email, password, None).value.0;
            Login(s1, email, Some(password), None, now).Success?
            && (name != "" ==> Login(s1, email, Some(password), None, now).value.1 == name)
  {
    FindAppended(s.users, LocalUser(name, email, password, None), email, Some(password), None);
  }

  /** A new user can sign in at once with the morse code registered. */
  lemma RegisterThenMorseLogin(s: Store, name: string, email: string, password: string, morse: string, now: int)
    requires !EmailTaken(s.users, email) && morse != ""
    ensures var s1 := Register(s, name, email, password, Some(morse)).value.0;
            Login(s1, email, None, Some(morse), now).Success?
  {
    FindAppended(s.users, LocalUser(name, email, password, Some(morse)), email, None, Some(morse));
  }

  /** When no earlier user has the email, the appended user is the one
      found. */
  lemma {:induction false} FindAppended(users: seq<LocalUser>, u: LocalUser, email: string,
                                        password: Option<string>, morse: Option<string>)
    requires !EmailTaken(users, email)
    requires Matches(u, email, password, morse)
    ensures FindUser(users + [u], email, password, morse) == Some(u)
    decreases |users|
  {
    if |users| > 0 {
      assert (users + [u])[1..] == users[1..] + [u];
      assert !EmailTaken(users[1..], email) by {
        forall i | 0 <= i < |users[1..]| ensures users[1..][i].email != email {
          assert users[1..][i] == users[i + 1];
        }
      }
      FindAppended(users[1..], u, email, password, morse);
    }
  }

  /** A second registration with the same email is refused. */
  lemma RegisterTwiceCollides(s: Store, name: string, email: string, password: string,
                              name2: string, password2: string)
    requires !EmailTaken(s.users, email)
    ensures Register(Register(s, name, email, password, None).value.0, name2, email, password2, None)
            == Failure(UserExists)
  {
    var users := Register(s, name, email, password, None).value.0.users;
    assert users[|users| - 1].email == email;
  }

  /** The test account signs in on a store with no users at all. */
  lemma TestAccountWithoutUsers(s: Store, now: int)
    requires s.users == []
    ensures Login(s, TestEmail, Some(TestPassword), None, now).Success?
    ensures Login(s, TestEmail, Some(TestPassword), None, now).value.1 == DefaultName
  {
  }
}
