/** `AuthenticationManager`: the account directory (accounts keyed by
    lower-cased email) and the per-tab session holding one account's public
    profile. */
module Auth {
  import opened Basics
  import Text
  import PasswordHash

  /** An account without its password hash: what the session holds. */
  datatype Profile = Profile(
    id: int,
    email: string,
    name: string,
    institution: string,
    role: string,
    state: string,
    registrationDate: string,
    verified: bool,
    posts: seq<int>,
    proposals: seq<int>,
    activityScore: int,
    lastActivity: Option<string>)

  /** A stored account: the public profile plus the password hash string. */
  datatype Account = Account(password: string, profile: Profile)

  /** The directory (`this.users`) and the session (`this.currentUser`). */
  datatype Directory = Directory(users: map<string, Account>, session: Option<Profile>)

  /** The messages `register` and `login` throw. */
  datatype AuthError =
    | MissingFields   // 'Please fill in all required fields'
    | EmailTaken      // 'Email already registered. Please login instead.'
    | WeakPassword    // 'Password must be at least 6 characters long'
    | EmailNotFound   // 'Email not found. Please register first.'
    | InvalidPassword // 'Invalid password. Please try again.'

  /** A transition's new directory and what the call returned or threw. */
  datatype Step = Step(dir: Directory, outcome: Result<Profile, AuthError>)

  /** The registration form's fields. */
  datatype RegisterForm = RegisterForm(
    email: string, password: string, name: string, institution: string, role: string, state: string)

  const MinPasswordLength: nat := 6

  /** `!email || !password || !name || !institution`. */
  predicate Missing(form: RegisterForm) {
    form.email == "" || form.password == "" || form.name == "" || form.institution == ""
  }

  /** The account `register` creates: lower-cased email, hashed password,
      unverified, no posts or proposals, no activity. */
  function NewAccount(form: RegisterForm, now: int, isoNow: string): Account {
    Account(PasswordHash.HashPassword(form.password),
            Profile(now, Text.Lower(form.email), form.name, form.institution, form.role, form.state,
                    isoNow, false, [], [], 0, None))
  }

  /** The checks of `register` with the duplicate test on a chosen key. */
  function RegisterChecked(dir: Directory, form: RegisterForm, duplicateKey: string, now: int, isoNow: string): Step {
    if Missing(form) then Step(dir, Err(MissingFields))
    else if duplicateKey in dir.users then Step(dir, Err(EmailTaken))
    else if Text.Length16(form.password) < MinPasswordLength then Step(dir, Err(WeakPassword))
    else
      var account := NewAccount(form, now, isoNow);
      Step(Directory(dir.users[Text.Lower(form.email) := account], Some(account.profile)),
           Ok(account.profile))
  }

  /** `register(userData)` as written: the duplicate test looks up the email
      as typed, while the account is stored under the lower-cased email. */
  function Register(dir: Directory, form: RegisterForm, now: int, isoNow: string): (r: Step)
    ensures r.outcome.Err? ==> r.dir == dir
    ensures r.outcome == Err(MissingFields) <==> Missing(form)
    ensures r.outcome == Err(EmailTaken) <==> !Missing(form) && form.email in dir.users
    ensures r.outcome == Err(WeakPassword)
        <==> !Missing(form) && form.email !in dir.users && Text.Length16(form.password) < MinPasswordLength
    ensures r.outcome.Ok? <==>
        !Missing(form) && form.email !in dir.users && Text.Length16(form.password) >= MinPasswordLength
    ensures r.outcome.Ok? ==>
      var key := Text.Lower(form.email);
      && key in r.dir.users
      && r.dir.users[key].password == PasswordHash.HashPassword(form.password)
      && r.dir.users[key].profile.email == key
      && r.dir.users[key].profile.name == form.name
      && r.dir.users[key].profile.institution == form.institution
      && r.dir.users[key].profile.role == form.role
      && r.dir.users[key].profile.state == form.state
      && !r.dir.users[key].profile.verified
      && r.dir.users[key].profile.activityScore == 0
      && r.dir.users[key].profile.posts == [] && r.dir.users[key].profile.proposals == []
      && r.dir.session == Some(r.dir.users[key].profile)
      && r.outcome.value == r.dir.users[key].profile
      && r.dir.users.Keys == dir.users.Keys + {key}
      && (forall k :: k in dir.users && k != key ==> r.dir.users[k] == dir.users[k])
  {
    RegisterChecked(dir, form, form.email, now, isoNow)
  }

  /** `register` with the duplicate test on the lower-cased email, the key
      the account is stored and looked up under. It never replaces an
      account. */
  function RegisterNormalized(dir: Directory, form: RegisterForm, now: int, isoNow: string): (r: Step)
    ensures r.outcome.Err? ==> r.dir == dir
    ensures r.outcome == Err(EmailTaken) <==> !Missing(form) && Text.Lower(form.email) in dir.users
    ensures r.outcome.Ok? ==> Text.Lower(form.email) !in dir.users
    ensures r.outcome.Ok? ==> r.dir.users.Keys == dir.users.Keys + {Text.Lower(form.email)}
    ensures forall k :: k in dir.users ==> k in r.dir.users && r.dir.users[k] == dir.users[k]
  {
    RegisterChecked(dir, form, Text.Lower(form.email), now, isoNow)
  }

  /** `login(email, password)`. */
  function Login(dir: Directory, email: string, password: string): (r: Step)
    ensures r.dir.users == dir.users
    ensures r.outcome.Err? ==> r.dir == dir
    ensures r.outcome == Err(EmailNotFound) <==> Text.Lower(email) !in dir.users
    ensures r.outcome == Err(InvalidPassword)
        <==> Text.Lower(email) in dir.users
             && dir.users[Text.Lower(email)].password != PasswordHash.HashPassword(password)
    ensures r.outcome.Ok?
        <==> Text.Lower(email) in dir.users
             && dir.users[Text.Lower(email)].password == PasswordHash.HashPassword(password)
    ensures r.outcome.Ok? ==>
      && r.outcome.value == dir.users[Text.Lower(email)].profile
      && r.dir.session == Some(r.outcome.value)
  {
    var key := Text.Lower(email);
    if key !in dir.users then Step(dir, Err(EmailNotFound))
    else if dir.users[key].password != PasswordHash.HashPassword(password) then Step(dir, Err(InvalidPassword))
    else Step(Directory(dir.users, Some(dir.users[key].profile)), Ok(dir.users[key].profile))
  }

  /** `logout()`: the session is cleared; the directory is untouched. */
  function Logout(dir: Directory): (r: Directory)
    ensures r.users == dir.users && !IsLoggedIn(r)
  {
    Directory(dir.users, None)
  }

  /** `isLoggedIn()`. */
  predicate IsLoggedIn(dir: Directory) {
    dir.session.Some?
  }

  /** `getUserRole()`. */
  function GetUserRole(dir: Directory): (role: string)
    ensures !IsLoggedIn(dir) ==> role == "guest"
    ensures IsLoggedIn(dir) ==> role == dir.session.value.role
  {
    if dir.session.Some? then dir.session.value.role else "guest"
  }

  /** The role follows the session transitions: a guest after logout, and
      after a successful login the role stored with that account. */
  lemma RoleAfterSessionChange(dir: Directory, email: string, password: string)
    ensures GetUserRole(Logout(dir)) == "guest"
    ensures Login(dir, email, password).outcome.Ok? ==>
      GetUserRole(Login(dir, email, password).dir) == dir.users[Text.Lower(email)].profile.role
  {
  }

  /** `updateUserActivity()`: one point for the session's account, stamped
      with the time; the session copies only the new score. */
  function UpdateUserActivity(dir: Directory, isoNow: string): (r: Directory)
    ensures dir.session.None? || dir.session.value.email !in dir.users ==> r == dir
    ensures dir.session.Some? && dir.session.value.email in dir.users ==>
      var key := dir.session.value.email;
      var before := dir.users[key];
      && r.users.Keys == dir.users.Keys
      && r.users[key].password == before.password
      && r.users[key].profile.activityScore == before.profile.activityScore + 1
      && r.users[key].profile.lastActivity == Some(isoNow)
      && r.users[key].profile == before.profile.(activityScore := r.users[key].profile.activityScore,
                                                 lastActivity := Some(isoNow))
      && (forall k :: k in dir.users && k != key ==> r.users[k] == dir.users[k])
      && r.session == Some(dir.session.value.(activityScore := before.profile.activityScore + 1))
  {
    if dir.session.None? then dir
    else
      var key := dir.session.value.email;
      if key !in dir.users then dir
      else
        var user := dir.users[key];
        var score := user.profile.activityScore + 1;
        var user' := user.(profile := user.profile.(activityScore := score, lastActivity := Some(isoNow)));
        Directory(dir.users[key := user'], Some(dir.session.value.(activityScore := score)))
  }

  /** Every account sits under its own lower-cased email and has a
      non-negative activity score, and a session names a stored account. */
  ghost predicate Valid(dir: Directory) {
    && (forall k :: k in dir.users ==> dir.users[k].profile.email == k && Text.Lower(k) == k)
    && (forall k :: k in dir.users ==> dir.users[k].profile.activityScore >= 0)
    && (dir.session.Some? ==> dir.session.value.email in dir.users)
  }

  /** Registration keeps the directory valid. */
  lemma RegisterPreservesValid(dir: Directory, form: RegisterForm, now: int, isoNow: string)
    requires Valid(dir)
    ensures Valid(Register(dir, form, now, isoNow).dir)
    ensures Valid(RegisterNormalized(dir, form, now, isoNow).dir)
  {
    Text.LowerIdempotent(form.email);
  }

  /** Login, logout and activity updates keep the directory valid. */
  lemma SessionTransitionsPreserveValid(dir: Directory, email: string, password: string, isoNow: string)
    requires Valid(dir)
    ensures Valid(Login(dir, email, password).dir)
    ensures Valid(Logout(dir))
    ensures Valid(UpdateUserActivity(dir, isoNow))
  {
  }

  /** Registering and then logging in with the same email and password
      succeeds and yields the profile registration returned. The
      requirements are exactly the conditions under which `register`
      succeeds. */
  lemma RegisterThenLogin(dir: Directory, form: RegisterForm, now: int, isoNow: string)
    requires !Missing(form) && form.email !in dir.users
    requires Text.Length16(form.password) >= MinPasswordLength
    ensures var after := Register(dir, form, now, isoNow);
      Login(after.dir, form.email, form.password) == Step(after.dir, after.outcome)
  {
  }

  /** The same holds for the corrected registration. */
  lemma RegisterNormalizedThenLogin(dir: Directory, form: RegisterForm, now: int, isoNow: string)
    requires RegisterNormalized(dir, form, now, isoNow).outcome.Ok?
    ensures var after := RegisterNormalized(dir, form, now, isoNow);
      Login(after.dir, form.email, form.password) == Step(after.dir, after.outcome)
  {
  }

  /** The hash is not injective, so login accepts a password other than
      the registered one: an account registered with "AaAaAa" also opens
      with "BBAaAa". */
  lemma LoginAcceptsCollision(dir: Directory, form: RegisterForm, now: int, isoNow: string)
    requires form.password == "AaAaAa" && !Missing(form) && form.email !in dir.users
    ensures Register(dir, form, now, isoNow).outcome.Ok?
    ensures Login(Register(dir, form, now, isoNow).dir, form.email, "BBAaAa").outcome.Ok?
  {
    PasswordHash.CollidingLongPasswords();
  }

  lemma ExampleInputFacts()
    ensures Text.Lower("A@b") == "a@b"
    ensures Text.Length16("secret") == 6
  {
    assert Text.Lower("@b") == "@b";
    assert Text.Utf16("t") == [116];
    assert Text.Utf16("et") == [101, 116];
    assert Text.Utf16("ret") == [114, 101, 116];
    assert Text.Utf16("cret") == [99, 114, 101, 116];
    assert Text.Utf16("ecret") == [101, 99, 114, 101, 116];
  }

  /** As written, a differently cased email passes the duplicate test and
      replaces the stored account: registering "A@b" over an existing "a@b"
      succeeds and the old account's posts are gone, where the corrected
      registration refuses. */
  lemma RegisterReplacesAccount(now: int, isoNow: string, existing: Account)
    requires existing.profile.email == "a@b" && existing.profile.posts != []
    ensures var dir := Directory(map["a@b" := existing], None);
      var form := RegisterForm("A@b", "secret", "Ann", "College", "faculty", "Kerala");
      && Register(dir, form, now, isoNow).outcome.Ok?
      && Register(dir, form, now, isoNow).dir.users["a@b"].profile.posts == []
      && RegisterNormalized(dir, form, now, isoNow).outcome == Err(EmailTaken)
  {
    var dir := Directory(map["a@b" := existing], None);
    var form := RegisterForm("A@b", "secret", "Ann", "College", "faculty", "Kerala");
    ExampleInputFacts();
    assert form.email !in dir.users;
    assert !Missing(form);
  }
}
