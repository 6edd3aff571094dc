/** The server-side account routes: `POST /api/auth/register` and
    `POST /api/auth/login` over three tables (users, user settings, core
    attributes). A request first passes the request schema (failing it is
    a 422), then the route's own checks. The password hash is an input (a
    fresh salt makes it unpredictable) and the hash check is a parameter;
    a transaction is modelled by computing the new tables only when every
    step succeeds. */
module AuthApi {
  import opened Wrappers
  import LocalAccounts
  import Text

  // ---- Tables ----

  /** A user row; the creation time is held as its ISO text. */
  datatype UserRow = UserRow(
    id: nat,
    email: string,
    passwordHash: string,
    name: string,
    morseCode: Option<string>,
    avatarUrl: Option<string>,
    createdAt: Option<string>)

  /** A settings row. The birth date is held as its ISO text (NULL is
      `None`); the birth time is a TIME column, which the driver hands
      over as a duration, held here as its whole seconds. */
  datatype SettingsRow = SettingsRow(
    language: string,
    birthDate: Option<string>,
    birthTime: Option<nat>,
    expectancyPreset: string,
    customExpectancy: int,
    sleepOffset: real,
    todaySleepTime: real,
    todayWorkTime: real,
    workStart: string,
    workEnd: string,
    decimalPrecision: int,
    soundEnabled: bool,
    gravityEnabled: bool)

  datatype AttributesRow = AttributesRow(
    health: real, mind: real, skill: real, social: real, adventure: real, spirit: real,
    lastSyncAt: string)

  /** The tables; `nextId` is the id the next inserted user receives. */
  datatype Database = Database(
    users: seq<UserRow>,
    settings: map<nat, SettingsRow>,
    attributes: map<nat, AttributesRow>,
    nextId: nat)

  /** What a new account starts with. */
  const SeedSettings: SettingsRow := SettingsRow("zh-TW", Some("1990-01-01"), Some(0), "average", 85,
                                                 8.0, 8.0, 8.0, "09:00", "18:00", 6, false, false)

  function SeedAttributes(now: string): AttributesRow {
    AttributesRow(0.5, 0.5, 0.5, 0.5, 0.5, 0.5, now)
  }

  /** An error answer: HTTP status and detail. */
  datatype ApiError = ApiError(status: int, detail: string)

  const InvalidRequest := ApiError(400, "INVALID_REQUEST")
  const Collision := ApiError(409, LocalAccounts.UserExists)
  const RegisterFailed := ApiError(500, "注册失败，请稍后重试")
  const AccessDenied := ApiError(401, LocalAccounts.IdentityMismatch)
  const MissingEmail := ApiError(400, "缺少 email")
  const LoginFailed := ApiError(500, "伺服器內部錯誤，請稍後再試")
  /** The schema's rejection; its field-by-field detail is not modelled. */
  const SchemaRejected := ApiError(422, "")

  /** Every email held by at most one user. */
  predicate UniqueEmails(db: Database) {
    forall i, j :: 0 <= i < j < |db.users| ==> db.users[i].email != db.users[j].email
  }

  /** Every user has a settings row and an attributes row. */
  predicate RowsComplete(db: Database) {
    forall i :: 0 <= i < |db.users| ==> db.users[i].id in db.settings && db.users[i].id in db.attributes
  }

  predicate HasEmail(db: Database, email: string) {
    exists i :: 0 <= i < |db.users| && db.users[i].email == email
  }

  /** `SELECT … WHERE email = %s LIMIT 1`: the first user with the email. */
  function FindUser(users: seq<UserRow>, email: string): (r: Option<UserRow>)
    ensures r.Some? ==> r.value in users && r.value.email == email
    ensures r.None? <==> forall i :: 0 <= i < |users| ==> users[i].email != email
  {
    if |users| == 0 then None
    else if users[0].email == email then Some(users[0])
    else FindUser(users[1..], email)
  }

  /** The schema's email check, reduced to its shape: a non-empty local
      part, an `@`, and a non-empty domain holding no further `@`. */
  predicate LooksLikeEmail(s: string) {
    exists i :: 0 < i < |s| - 1 && s[i] == '@' && '@' !in s[..i] && '@' !in s[i + 1..]
  }

  // ---- Registration ----

  datatype RegisterRequest = RegisterRequest(
    name: string, email: string, password: string, morseCode: Option<string>)

  /** The request schema: a name of 1 to 100 characters, an email, a
      password of at least 6 characters, a morse code of at most 8. */
  predicate RegisterSchemaOk(req: RegisterRequest) {
    1 <= |req.name| <= 100 && LooksLikeEmail(req.email) && |req.password| >= 6
    && (req.morseCode.None? || |req.morseCode.value| <= 8)
  }

  /** The route body. `hash` is the bcrypt hash of the password and `now`
      the insertion time. */
  function RegisterHandler(db: Database, req: RegisterRequest, hash: string, now: string)
    : (r: Result<Database, ApiError>)
    ensures (req.name == [] || req.email == [] || req.password == []) ==> r == Failure(InvalidRequest)
    ensures (|req.name| > 30 || |req.password| > 20) ==> r == Failure(InvalidRequest)
    ensures HasEmail(db, req.email) && r.Failure? ==> r.error == InvalidRequest || r.error == Collision
    ensures HasEmail(db, req.email) ==> r.Failure?
    ensures r.Failure? ==> r.error in {InvalidRequest, Collision, RegisterFailed}
    ensures r.Success? ==> !HasEmail(db, req.email) && db.nextId != 0
    ensures r.Success? ==> r.value.users == db.users + [UserRow(db.nextId, req.email, hash, req.name, req.morseCode, None, Some(now))]
    ensures r.Success? ==> r.value.settings == db.settings[db.nextId := SeedSettings]
    ensures r.Success? ==> r.value.attributes == db.attributes[db.nextId := SeedAttributes(now)]
    ensures r.Success? ==> r.value.nextId == db.nextId + 1
  {
    if req.name == [] || req.email == [] || req.password == [] then Failure(InvalidRequest)
    else if |req.name| > 30 || |req.password| > 20 then Failure(InvalidRequest)
    else if FindUser(db.users, req.email).Some? then Failure(Collision)
    else if db.nextId == 0 then Failure(RegisterFailed)
    else
      var id := db.nextId;
      Success(Database(db.users + [UserRow(id, req.email, hash, req.name, req.morseCode, None, Some(now))],
                       db.settings[id := SeedSettings],
                       db.attributes[id := SeedAttributes(now)],
                       id + 1))
  }

  /** The stored work hours never reach the answer: two databases that
      differ only in one user's work hours answer every sign-in alike. */
  lemma WorkHoursNotReturned(db: Database, req: LoginRequest, id: nat, start: string, end: string,
                             checkpw: (string, string) -> bool)
    requires id in db.settings
    ensures var db' := db.(settings := db.settings[id := db.settings[id].(workStart := start, workEnd := end)]);
            LoginHandler(db', req, checkpw) == LoginHandler(db, req, checkpw)
  {
  }

  /** The route: the schema first, then the body. */
  function Register(db: Database, req: RegisterRequest, hash: string, now: string): (r: Result<Database, ApiError>)
    ensures !RegisterSchemaOk(req) ==> r == Failure(SchemaRejected)
    ensures RegisterSchemaOk(req) ==> r == RegisterHandler(db, req, hash, now)
  {
    if !RegisterSchemaOk(req) then Failure(SchemaRejected) else RegisterHandler(db, req, hash, now)
  }

  /** Behind the schema the empty-field check can never fire: an empty
      field is a 422, and a 400 means a name over 30 or a password over 20
      characters. */
  lemma EmptyFieldsStopAtSchema(db: Database, req: RegisterRequest, hash: string, now: string)
    ensures req.name == [] || req.email == [] || req.password == [] ==> Register(db, req, hash, now) == Failure(SchemaRejected)
    ensures Register(db, req, hash, now) == Failure(InvalidRequest) <==> RegisterSchemaOk(req) && (|req.name| > 30 || |req.password| > 20)
  {
  }

  /** The database invariants — unique emails, a settings and an
      attributes row for every user, ids below the next one — survive a
      registration. */
  predicate Invariant(db: Database) {
    UniqueEmails(db) && RowsComplete(db) && forall i :: 0 <= i < |db.users| ==> db.users[i].id < db.nextId
  }

  lemma RegisterKeepsInvariant(db: Database, req: RegisterRequest, hash: string, now: string)
    requires Invariant(db)
    requires Register(db, req, hash, now).Success?
    ensures Invariant(Register(db, req, hash, now).value)
  {
    var db' := Register(db, req, hash, now).value;
    forall i, j | 0 <= i < j < |db'.users|
      ensures db'.users[i].email != db'.users[j].email
    {
      if j == |db.users| {
        assert db'.users[i] == db.users[i];
      }
    }
  }

  /** A second registration with the same email is refused and changes
      nothing, whatever its other fields. */
  lemma RegisterTwiceCollides(db: Database, req: RegisterRequest, other: RegisterRequest, h1: string, h2: string, t1: string, t2: string)
    requires Register(db, req, h1, t1).Success?
    requires RegisterSchemaOk(other) && other.email == req.email
    requires |other.name| <= 30 && |other.password| <= 20
    ensures Register(Register(db, req, h1, t1).value, other, h2, t2) == Failure(Collision)
  {
    var db' := Register(db, req, h1, t1).value;
    assert db'.users[|db.users|].email == req.email;
  }

  // ---- Login ----

  datatype LoginRequest = LoginRequest(email: string, password: Option<string>, morseCode: Option<string>)

  predicate LoginSchemaOk(req: LoginRequest) {
    LooksLikeEmail(req.email)
  }

  /** Python truthiness of an optional string: present and non-empty. */
  predicate Given(o: Option<string>) {
    o.Some? && o.value != []
  }

  /** The credential test: a given morse code is compared with the stored
      one (which must be present and non-empty) and the password is then
      not looked at; otherwise a given password is checked against the
      stored hash. */
  predicate Authenticated(row: UserRow, req: LoginRequest, checkpw: (string, string) -> bool) {
    if Given(req.morseCode) then Given(row.morseCode) && row.morseCode.value == req.morseCode.value
    else if Given(req.password) then checkpw(req.password.value, row.passwordHash)
    else false
  }

  /** The built-in test account's credentials, honoured only once a row
      with its email has been found. */
  predicate TestOverride(req: LoginRequest) {
    req.email == LocalAccounts.TestEmail
    && (req.password == Some(LocalAccounts.TestPassword) || req.morseCode == Some(LocalAccounts.TestMorse))
  }

  datatype UserInfo = UserInfo(id: nat, name: string, email: string, avatarUrl: Option<string>,
                               createdAt: Option<string>)

  /** The settings part of a sign-in answer: the stored columns (a NULL
      birth date answered as null), the birth time rendered as text, a
      fixed bar style and an empty anniversary list. */
  datatype SettingsReply = SettingsReply(row: SettingsRow, birthTime: string, progressBarStyle: string,
                                         anniversaries: seq<string>)

  const SecondsPerDay: nat := 86400

  /** Hours, minutes and seconds as Python's `str` shows a duration: the
      hours without padding, then two-digit minutes and seconds. */
  function HmsText(h: nat, m: nat, s: nat): (r: string)
    ensures |r| >= 7
  {
    Text.NatToString(h) + ":" + Text.PadTwo(m) + ":" + Text.PadTwo(s)
  }

  /** The text splits at its colons into parts that read back as the
      hours, minutes and seconds it was made from. */
  lemma HmsTextReadsBack(h: nat, m: nat, s: nat)
    requires m < 60 && s < 60
    ensures var p := Text.Split(HmsText(h, m, s), ':');
            |p| == 3 && Text.AllDigits(p[0]) && Text.AllDigits(p[1]) && Text.AllDigits(p[2])
            && |p[1]| == 2 && |p[2]| == 2
            && Text.ParseNat(p[0]) == h && Text.ParseNat(p[1]) == m && Text.ParseNat(p[2]) == s
  {
    var hs := Text.NatToString(h);
    var ms := Text.PadTwo(m);
    var ss := Text.PadTwo(s);
    assert ':' !in hs && ':' !in ms && ':' !in ss;
    assert HmsText(h, m, s) == hs + [':'] + (ms + [':'] + ss);
    Text.SplitAfter(hs, ':', ms + [':'] + ss);
    Text.SplitAfter(ms, ':', ss);
    Text.ParseNatToString(h);
    Text.ParsePadTwo(m);
    Text.ParsePadTwo(s);
  }

  /** A time of day in whole seconds, shown as a duration. */
  function ClockText(secs: nat): (r: string)
    requires secs < SecondsPerDay
    ensures |r| >= 7
  {
    HmsText(secs / 3600, secs % 3600 / 60, secs % 60)
  }

  lemma SecondsParts(secs: nat)
    ensures secs % 3600 / 60 < 60 && secs % 60 < 60
    ensures (secs / 3600) * 3600 + (secs % 3600 / 60) * 60 + secs % 60 == secs
  {
    var r := secs % 3600;
    assert secs == (secs / 3600) * 3600 + r;
    assert r == (r / 60) * 60 + r % 60;
    assert r % 60 == secs % 60 by {
      assert secs == (secs / 3600) * 60 * 60 + r;
    }
  }

  /** The clock text splits at its colons into hours, minutes and seconds
      that read back as the time it shows. */
  lemma ClockTextReadsBack(secs: nat)
    requires secs < SecondsPerDay
    ensures var p := Text.Split(ClockText(secs), ':');
            |p| == 3 && Text.AllDigits(p[0]) && Text.AllDigits(p[1]) && Text.AllDigits(p[2])
            && |p[1]| == 2 && |p[2]| == 2
            && Text.ParseNat(p[0]) * 3600 + Text.ParseNat(p[1]) * 60 + Text.ParseNat(p[2]) == secs
  {
    SecondsParts(secs);
    HmsTextReadsBack(secs / 3600, secs % 3600 / 60, secs % 60);
  }

  /** `str(timedelta)` for a non-negative whole number of seconds: the
      clock text, after a "1 day, " or "<n> days, " prefix from a day on. */
  function DurationText(secs: nat): (r: string)
    ensures secs < SecondsPerDay ==> r == ClockText(secs)
    ensures |r| >= |ClockText(secs % SecondsPerDay)|
    ensures r[|r| - |ClockText(secs % SecondsPerDay)|..] == ClockText(secs % SecondsPerDay)
  {
    var days := secs / SecondsPerDay;
    var clock := ClockText(secs % SecondsPerDay);
    if days == 0 then clock
    else
      var prefix := Text.NatToString(days) + (if days == 1 then " day, " else " days, ");
      assert (prefix + clock)[|prefix + clock| - |clock|..] == clock;
      prefix + clock
  }

  /** The answered birth time: a NULL or zero duration is falsy in Python
      and answers as "00:00:00"; any other goes through `str`. */
  function BirthTimeText(t: Option<nat>): (r: string)
    ensures t.None? || t.value == 0 ==> r == "00:00:00"
    ensures t.Some? && t.value != 0 ==> r == DurationText(t.value)
  {
    if t.None? || t.value == 0 then "00:00:00" else DurationText(t.value)
  }

  /** Midnight answers with two hour digits, but the other early-morning
      times with one: 08:30 stored answers as "8:30:00". */
  lemma BirthTimeHourDigits()
    ensures BirthTimeText(Some(0)) == "00:00:00"
    ensures BirthTimeText(Some(8 * 3600 + 30 * 60)) == "8:30:00"
  {
    assert Text.NatToString(8) == "8";
    assert Text.NatToString(30) == "30";
    assert Text.NatToString(0) == "0";
  }

  const DefaultWorkStart: string := "09:00"
  const DefaultWorkEnd: string := "18:00"
  const ReplyBarStyle: string := "linear"

  /** The sign-in query does not select the work-hour columns, so the
      answer always carries the default work hours, whatever is stored. */
  function ReplySettings(row: SettingsRow): SettingsReply {
    SettingsReply(row.(workStart := DefaultWorkStart, workEnd := DefaultWorkEnd), BirthTimeText(row.birthTime),
                  ReplyBarStyle, [])
  }

  datatype LoginResponse = LoginResponse(user: UserInfo, settings: SettingsReply, attributes: AttributesRow)

  /** The route body. A user without a settings or attributes row reads
      as nulls from the outer joins, which the numeric conversions reject:
      that is a 500. */
  function LoginHandler(db: Database, req: LoginRequest, checkpw: (string, string) -> bool)
    : (r: Result<LoginResponse, ApiError>)
    ensures req.email == [] ==> r == Failure(MissingEmail)
    ensures req.email != [] && FindUser(db.users, req.email).None? ==> r == Failure(AccessDenied)
    ensures r.Success? ==> var row := FindUser(db.users, req.email).value;
            (Authenticated(row, req, checkpw) || TestOverride(req))
            && r.value.user.id == row.id && r.value.user.email == row.email
            && r.value.user.name == (if TestOverride(req) then LocalAccounts.DefaultName else row.name)
            && row.id in db.settings && row.id in db.attributes
            && r.value.attributes == db.attributes[row.id]
            && r.value.settings.row == db.settings[row.id].(workStart := DefaultWorkStart, workEnd := DefaultWorkEnd)
            && r.value.settings.progressBarStyle == ReplyBarStyle && r.value.settings.anniversaries == []
            && r.value.settings.birthTime == BirthTimeText(db.settings[row.id].birthTime)
            && r.value.user.createdAt == row.createdAt
    ensures req.email != [] && FindUser(db.users, req.email).Some?
            ==> var row := FindUser(db.users, req.email).value;
                (r.Success? <==> (Authenticated(row, req, checkpw) || TestOverride(req))
                                 && row.id in db.settings && row.id in db.attributes)
    ensures r.Failure? ==> r.error in {MissingEmail, AccessDenied, LoginFailed}
  {
    if req.email == [] then Failure(MissingEmail)
    else match FindUser(db.users, req.email)
      case None => Failure(AccessDenied)
      case Some(row) =>
        if !(Authenticated(row, req, checkpw) || TestOverride(req)) then Failure(AccessDenied)
        else if row.id !in db.settings || row.id !in db.attributes then Failure(LoginFailed)
        else
          var name := if TestOverride(req) then LocalAccounts.DefaultName else row.name;
          Success(LoginResponse(UserInfo(row.id, name, row.email, row.avatarUrl, row.createdAt),
                                ReplySettings(db.settings[row.id]), db.attributes[row.id]))
  }

  /** The route: the schema first, then the body. */
  function Login(db: Database, req: LoginRequest, checkpw: (string, string) -> bool): (r: Result<LoginResponse, ApiError>)
    ensures !LoginSchemaOk(req) ==> r == Failure(SchemaRejected)
    ensures LoginSchemaOk(req) ==> r == LoginHandler(db, req, checkpw)
  {
    if !LoginSchemaOk(req) then Failure(SchemaRejected) else LoginHandler(db, req, checkpw)
  }

  /** The test credentials open nothing when no user holds the test email. */
  lemma TestAccountNeedsRow(db: Database, req: LoginRequest, checkpw: (string, string) -> bool)
    requires TestOverride(req)
    requires !HasEmail(db, req.email)
    ensures Login(db, req, checkpw).Failure?
  {
  }

  /** A given morse code decides alone: changing the password changes
      nothing, outside the test account. */
  lemma MorseTakesPrecedence(db: Database, req: LoginRequest, password: Option<string>, checkpw: (string, string) -> bool)
    requires Given(req.morseCode) && req.email != LocalAccounts.TestEmail
    ensures Login(db, req.(password := password), checkpw) == Login(db, req, checkpw)
  {
  }

  /** Registering and then signing in with the same password (for a hash
      that the check accepts) succeeds, answers with the registered name
      unless the test override applies, and hands back the seed settings
      and attributes. */
  lemma RegisterThenLogin(db: Database, req: RegisterRequest, hash: string, now: string, checkpw: (string, string) -> bool)
    requires Invariant(db)
    requires Register(db, req, hash, now).Success?
    requires checkpw(req.password, hash)
    ensures var login := LoginRequest(req.email, Some(req.password), None);
            var r := Login(Register(db, req, hash, now).value, login, checkpw);
            r.Success? && r.value.user.id == db.nextId
            && r.value.user.name == (if TestOverride(login) then LocalAccounts.DefaultName else req.name)
            && r.value.settings == SettingsReply(SeedSettings, "00:00:00", ReplyBarStyle, [])
            && r.value.user.createdAt == Some(now)
            && r.value.attributes == SeedAttributes(now)
  {
    var db' := Register(db, req, hash, now).value;
    var row := UserRow(db.nextId, req.email, hash, req.name, req.morseCode, None, Some(now));
    FindAppended(db.users, row);
  }

  /** The user appended under a new email is the one found by it. */
  lemma {:induction false} FindAppended(users: seq<UserRow>, row: UserRow)
    requires forall i :: 0 <= i < |users| ==> users[i].email != row.email
    ensures FindUser(users + [row], row.email) == Some(row)
    decreases |users|
  {
    if |users| > 0 {
      assert (users + [row])[1..] == users[1..] + [row];
      FindAppended(users[1..], row);
    }
  }
}
