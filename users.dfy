/**
 * The account handlers of routes/users.js over the user collection (models/User.js):
 * registration checks, the forgot/reset password token life cycle, profile update and the
 * profile picture.  The collection is a sequence of users in storage order, and
 * `findOne(query)` is the first user that matches.  Password hashing, token generation,
 * the clock and mail delivery are parameters: `hashed` is what bcrypt produced, `token`
 * what `crypto.randomBytes` produced, `now` what `Date.now()` returned and `delivered`
 * whether the mail transport reported success.
 */
module Users {
  import opened Wrappers
  import opened JobApplicationModel
  import opened Upload

  /** A reset link stays usable for one hour, in milliseconds. */
  const ResetWindow: int := 3600000
  const MinPasswordLength: nat := 6

  /** A stored user.  Mongoose's `required` keeps username and email non-empty. */
  datatype User = User(
    id: UserId,
    username: string,
    email: string,
    password: Option<string>,
    phoneNumber: Option<string>,
    address: Option<string>,
    city: Option<string>,
    state: Option<string>,
    zipCode: Option<string>,
    resetPasswordToken: Option<string>,
    resetPasswordExpires: Option<Timestamp>,
    profilePicture: Option<Picture>)

  predicate HasRequiredFields(u: User) {
    u.username != "" && u.email != ""
  }

  /** Everything but the reset token, its expiry and the password hash. */
  predicate SameProfile(a: User, b: User) {
    a.id == b.id && a.username == b.username && a.email == b.email
    && a.phoneNumber == b.phoneNumber && a.address == b.address && a.city == b.city
    && a.state == b.state && a.zipCode == b.zipCode && a.profilePicture == b.profilePicture
  }

  // ---------------------------------------------------------------------------------------
  // Lookups: `findOne` / `findById` return the first matching user

  function FindById(users: seq<User>, id: UserId): (k: Option<nat>)
    ensures k.Some? ==> k.value < |users| && users[k.value].id == id
    ensures k.None? <==> forall j | 0 <= j < |users| :: users[j].id != id
  {
    if users == [] then None
    else if users[0].id == id then Some(0)
    else
      match FindById(users[1..], id)
      case None => None
      case Some(j) => Some(j + 1)
  }

  function FindByUsername(users: seq<User>, name: string): (k: Option<nat>)
    ensures k.Some? ==> k.value < |users| && users[k.value].username == name
    ensures k.Some? ==> forall j | 0 <= j < k.value :: users[j].username != name
    ensures k.None? <==> forall j | 0 <= j < |users| :: users[j].username != name
  {
    if users == [] then None
    else if users[0].username == name then Some(0)
    else
      match FindByUsername(users[1..], name)
      case None => None
      case Some(j) => Some(j + 1)
  }

  function FindByEmail(users: seq<User>, email: string): (k: Option<nat>)
    ensures k.Some? ==> k.value < |users| && users[k.value].email == email
    ensures k.Some? ==> forall j | 0 <= j < k.value :: users[j].email != email
    ensures k.None? <==> forall j | 0 <= j < |users| :: users[j].email != email
  {
    if users == [] then None
    else if users[0].email == email then Some(0)
    else
      match FindByEmail(users[1..], email)
      case None => None
      case Some(j) => Some(j + 1)
  }

  predicate UsernamesDistinct(users: seq<User>) {
    forall i, j | 0 <= i < j < |users| :: users[i].username != users[j].username
  }

  predicate EmailsDistinct(users: seq<User>) {
    forall i, j | 0 <= i < j < |users| :: users[i].email != users[j].email
  }

  // ---------------------------------------------------------------------------------------
  // Registration

  /** The body of POST /register; an absent field is `undefined`. */
  datatype RegisterForm = RegisterForm(username: Option<string>, email: Option<string>,
                                       password: Option<string>, password2: Option<string>)

  const EnterAllFields := "Please enter all fields"
  const PasswordsDiffer := "Passwords do not match"
  const PasswordTooShort := "Password must be at least 6 characters"
  const UsernameTaken := "Username already exists"
  const EmailTaken := "Email already exists"

  /** `!username || !email || !password || !password2` is false. */
  predicate AllFilled(f: RegisterForm) {
    Filled(f.username) && Filled(f.email) && Filled(f.password) && Filled(f.password2)
  }

  /** All three checks of POST /register pass (when a password was sent). */
  predicate PassesChecks(f: RegisterForm)
    requires f.password.Some?
  {
    AllFilled(f) && f.password == f.password2 && |f.password.value| >= MinPasswordLength
  }

  /** Where a check's message sits in the order the handler pushes them. */
  function CheckRank(msg: string): int {
    if msg == EnterAllFields then 0 else if msg == PasswordsDiffer then 1 else 2
  }

  /**
   * `errors` is the list the three checks of POST /register build: each message is present
   * exactly when its check fails, and they appear in the order the checks run.
   */
  predicate Explains(errors: seq<string>, f: RegisterForm)
    requires f.password.Some?
  {
    && (EnterAllFields in errors <==> !AllFilled(f))
    && (PasswordsDiffer in errors <==> f.password != f.password2)
    && (PasswordTooShort in errors <==> |f.password.value| < MinPasswordLength)
    && (forall e | e in errors :: e == EnterAllFields || e == PasswordsDiffer || e == PasswordTooShort)
    && (forall i, j | 0 <= i < j < |errors| :: CheckRank(errors[i]) < CheckRank(errors[j]))
  }

  /**
   * The checks of POST /register, pushed onto `errors` one after the other.  Reading
   * `password.length` when no password was sent throws before the handler's `try`: None.
   */
  method RegistrationErrors(f: RegisterForm) returns (r: Option<seq<string>>)
    ensures r.None? <==> f.password.None?
    ensures r.Some? ==> Explains(r.value, f)
    ensures r.Some? ==> (r.value == [] <==> PassesChecks(f))
  {
    var errors: seq<string> := [];
    if !AllFilled(f) {
      errors := errors + [EnterAllFields];
    }
    if f.password != f.password2 {
      errors := errors + [PasswordsDiffer];
    }
    if f.password.None? {
      return None;
    }
    if |f.password.value| < MinPasswordLength {
      errors := errors + [PasswordTooShort];
    }
    r := Some(errors);
  }

  datatype RegisterOutcome =
    | Registered(id: UserId)
    | RegisterRejected(errors: seq<string>)
      /** The TypeError of `password.length` escapes the handler; nothing is rendered. */
    | RegisterCrashed

  /** The document `new User({ username, email, password })` saves, with the hash as password. */
  function NewUser(id: UserId, f: RegisterForm, hashed: string): (u: User)
    requires f.password.Some? && PassesChecks(f)
    ensures HasRequiredFields(u) && u.id == id
    ensures u.username == f.username.value && u.email == f.email.value && u.password == Some(hashed)
    ensures u.resetPasswordToken.None? && u.resetPasswordExpires.None? && u.profilePicture.None?
    ensures u.phoneNumber.None? && u.address.None? && u.city.None? && u.state.None? && u.zipCode.None?
  {
    User(id, f.username.value, f.email.value, Some(hashed), None, None, None, None, None, None, None, None)
  }

  // ---------------------------------------------------------------------------------------
  // Password reset tokens

  /** `findOne({ resetPasswordToken: token, resetPasswordExpires: { $gt: now } })` matches u. */
  predicate Accepts(u: User, token: string, now: Timestamp) {
    u.resetPasswordToken == Some(token) && u.resetPasswordExpires.Some? && u.resetPasswordExpires.value > now
  }

  function FindByToken(users: seq<User>, token: string, now: Timestamp): (k: Option<nat>)
    ensures k.Some? ==> k.value < |users| && Accepts(users[k.value], token, now)
    ensures k.Some? ==> forall j | 0 <= j < k.value :: !Accepts(users[j], token, now)
    ensures k.None? <==> forall j | 0 <= j < |users| :: !Accepts(users[j], token, now)
  {
    if users == [] then None
    else if Accepts(users[0], token, now) then Some(0)
    else
      match FindByToken(users[1..], token, now)
      case None => None
      case Some(j) => Some(j + 1)
  }

  /**
   * POST /forgot on the user found: the new token is accepted exactly until one hour after
   * `now`, no other token is accepted, and the profile is untouched.
   */
  function IssueToken(u: User, token: string, now: Timestamp): (r: User)
    ensures SameProfile(r, u) && r.password == u.password
    ensures forall t :: Accepts(r, token, t) <==> t < now + ResetWindow
    ensures forall other, t :: other != token ==> !Accepts(r, other, t)
  {
    u.(resetPasswordToken := Some(token), resetPasswordExpires := Some(now + ResetWindow))
  }

  /**
   * POST /reset/:token on the user found: the new hash becomes the password and the token
   * and its expiry are unset, so no token is accepted any more.
   */
  function ApplyReset(u: User, hashed: string): (r: User)
    ensures SameProfile(r, u) && r.password == Some(hashed)
    ensures forall token, t :: !Accepts(r, token, t)
  {
    u.(password := Some(hashed), resetPasswordToken := None, resetPasswordExpires := None)
  }

  /** GET /reset/:token shows the reset form exactly when some user accepts the token now. */
  function ResetLinkValid(users: seq<User>, token: string, now: Timestamp): (r: bool)
    ensures r <==> exists i | 0 <= i < |users| :: Accepts(users[i], token, now)
  {
    FindByToken(users, token, now).Some?
  }

  datatype ForgotOutcome = NoSuchAccount | MailSent(email: string) | MailFailed {
    function Message(): string {
      match this
      case NoSuchAccount => "No account with that email address exists."
      case MailSent(email) => "An e-mail has been sent to " + email + " with further instructions."
      case MailFailed => "An error occurred while sending the email. Please try again later."
    }
  }

  datatype ResetOutcome = ResetMismatch | ResetInvalidToken | ResetFailed | ResetDone {
    function Message(): string {
      match this
      case ResetMismatch => "Passwords do not match."
      case ResetInvalidToken => "Password reset token is invalid or has expired."
      case ResetFailed => "An error occurred. Please try again."
      case ResetDone => "Your password has been updated."
    }
  }

  // ---------------------------------------------------------------------------------------
  // Profile

  /** The body of POST /profile. */
  datatype ProfileForm = ProfileForm(
    username: Option<string>, email: Option<string>, phoneNumber: Option<string>,
    address: Option<string>, city: Option<string>, state: Option<string>, zipCode: Option<string>)

  /**
   * The seven assignments of POST /profile followed by `save()`: the schema refuses an
   * empty username or email; otherwise exactly the seven submitted fields change.
   */
  function UpdatedProfile(u: User, p: ProfileForm): (r: Result<User, string>)
    ensures r.Success? <==> Filled(p.username) && Filled(p.email)
    ensures r.Success? ==>
      && r.value.username == p.username.value && r.value.email == p.email.value
      && r.value.phoneNumber == p.phoneNumber && r.value.address == p.address
      && r.value.city == p.city && r.value.state == p.state && r.value.zipCode == p.zipCode
      && r.value.id == u.id && r.value.password == u.password
      && r.value.resetPasswordToken == u.resetPasswordToken
      && r.value.resetPasswordExpires == u.resetPasswordExpires
      && r.value.profilePicture == u.profilePicture
  {
    if !Filled(p.username) || !Filled(p.email) then Failure(SomethingWrong)
    else
      Success(u.(username := p.username.value, email := p.email.value, phoneNumber := p.phoneNumber,
                 address := p.address, city := p.city, state := p.state, zipCode := p.zipCode))
  }

  const SomethingWrong := "Something went wrong"
  const NoImage := "Please upload a valid image file under 150KB"

  /** The flash message a profile handler leaves, or the error multer hands to Express. */
  datatype Flash = SuccessMsg(text: string) | ErrorMsg(text: string) | Unhandled(error: string)

  // ---------------------------------------------------------------------------------------
  // The collection

  class UserDirectory {
    var users: seq<User>
    /** Stands in for ObjectId generation: every stored identity is below it. */
    var nextId: UserId

    ghost predicate Valid()
      reads this
    {
      && (forall i | 0 <= i < |users| :: users[i].id < nextId && HasRequiredFields(users[i]))
      && (forall i, j | 0 <= i < j < |users| :: users[i].id != users[j].id)
    }

    constructor ()
      ensures Valid() && users == [] && nextId == 0
    {
      users := [];
      nextId := 0;
    }

    /**
     * POST /register: the three checks first; then an existing username is refused before
     * an existing email is looked for; only then is the user created.
     */
    method Register(f: RegisterForm, hashed: string) returns (r: RegisterOutcome)
      requires Valid()
      modifies this
      ensures Valid()
      ensures f.password.None? ==> r == RegisterCrashed && users == old(users) && nextId == old(nextId)
      ensures f.password.Some? && !PassesChecks(f) ==>
        r.RegisterRejected? && r.errors != [] && Explains(r.errors, f)
        && users == old(users) && nextId == old(nextId)
      ensures f.password.Some? && PassesChecks(f) ==>
        if FindByUsername(old(users), f.username.value).Some? then
          r == RegisterRejected([UsernameTaken]) && users == old(users) && nextId == old(nextId)
        else if FindByEmail(old(users), f.email.value).Some? then
          r == RegisterRejected([EmailTaken]) && users == old(users) && nextId == old(nextId)
        else
          r == Registered(old(nextId)) && users == old(users) + [NewUser(old(nextId), f, hashed)]
          && nextId == old(nextId) + 1
      ensures UsernamesDistinct(old(users)) ==> UsernamesDistinct(users)
      ensures EmailsDistinct(old(users)) ==> EmailsDistinct(users)
    {
      var errors := RegistrationErrors(f);
      if errors.None? {
        return RegisterCrashed;
      }
      if errors.value != [] {
        return RegisterRejected(errors.value);
      }
      if FindByUsername(users, f.username.value).Some? {
        return RegisterRejected([UsernameTaken]);
      }
      if FindByEmail(users, f.email.value).Some? {
        return RegisterRejected([EmailTaken]);
      }
      users := users + [NewUser(nextId, f, hashed)];
      r := Registered(nextId);
      nextId := nextId + 1;
    }

    /**
     * POST /forgot: the first user with that email gets a fresh token valid for one hour;
     * an unknown (or absent) email changes nothing.  The token is stored before the mail is
     * sent, so it is stored whether or not delivery succeeds.
     */
    method Forgot(email: Option<string>, token: string, now: Timestamp, delivered: bool) returns (r: ForgotOutcome)
      requires Valid()
      modifies this
      ensures Valid() && nextId == old(nextId)
      ensures (email.None? || FindByEmail(old(users), email.value).None?) ==>
        r == NoSuchAccount && users == old(users)
      ensures email.Some? && FindByEmail(old(users), email.value).Some? ==>
        var k := FindByEmail(old(users), email.value).value;
        && users == old(users)[k := IssueToken(old(users)[k], token, now)]
        && r == (if delivered then MailSent(old(users)[k].email) else MailFailed)
    {
      if email.None? {
        return NoSuchAccount;
      }
      var found := FindByEmail(users, email.value);
      if found.None? {
        return NoSuchAccount;
      }
      var k := found.value;
      users := users[k := IssueToken(users[k], token, now)];
      r := if delivered then MailSent(users[k].email) else MailFailed;
    }

    /**
     * POST /reset/:token: mismatched passwords are refused before any lookup; then the
     * token must be accepted by some user; hashing an absent password throws.
     */
    method Reset(token: string, password: Option<string>, password2: Option<string>, now: Timestamp, hashed: string)
      returns (r: ResetOutcome)
      requires Valid()
      modifies this
      ensures Valid() && nextId == old(nextId)
      ensures password != password2 ==> r == ResetMismatch && users == old(users)
      ensures password == password2 && FindByToken(old(users), token, now).None? ==>
        r == ResetInvalidToken && users == old(users)
      ensures password == password2 && FindByToken(old(users), token, now).Some? ==>
        var k := FindByToken(old(users), token, now).value;
        if password.None? then r == ResetFailed && users == old(users)
        else r == ResetDone && users == old(users)[k := ApplyReset(old(users)[k], hashed)]
    {
      if password != password2 {
        return ResetMismatch;
      }
      var found := FindByToken(users, token, now);
      if found.None? {
        return ResetInvalidToken;
      }
      if password.None? {
        return ResetFailed;
      }
      var k := found.value;
      users := users[k := ApplyReset(users[k], hashed)];
      r := ResetDone;
    }

    /** POST /profile for the logged-in user `id`. */
    method UpdateProfile(id: UserId, p: ProfileForm) returns (r: Flash)
      requires Valid()
      modifies this
      ensures Valid() && nextId == old(nextId)
      ensures FindById(old(users), id).None? ==> r == ErrorMsg(SomethingWrong) && users == old(users)
      ensures FindById(old(users), id).Some? ==>
        var k := FindById(old(users), id).value;
        var v := UpdatedProfile(old(users)[k], p);
        && (v.Failure? ==> r == ErrorMsg(SomethingWrong) && users == old(users))
        && (v.Success? ==> r == SuccessMsg("Profile updated successfully") && users == old(users)[k := v.value])
    {
      var found := FindById(users, id);
      if found.None? {
        return ErrorMsg(SomethingWrong);
      }
      var k := found.value;
      var v := UpdatedProfile(users[k], p);
      if v.Failure? {
        return ErrorMsg(SomethingWrong);
      }
      users := users[k := v.value];
      r := SuccessMsg("Profile updated successfully");
    }

    /**
     * POST /profile/picture behind `upload.single("profilePicture")`: the request's file goes
     * through the image filter and the size limit; a multer error never reaches the handler;
     * no file is refused; an accepted file becomes the picture.
     */
    method UploadPicture(id: UserId, file: Option<UploadedFile>) returns (r: Flash)
      requires Valid()
      modifies this
      ensures Valid() && nextId == old(nextId)
      ensures ImageUpload(file).MulterError? ==>
        r == Unhandled(ImageUpload(file).message) && users == old(users)
      ensures file.None? ==> r == ErrorMsg(NoImage) && users == old(users)
      ensures ImageUpload(file).FileAccepted? && FindById(old(users), id).None? ==>
        r == ErrorMsg(SomethingWrong) && users == old(users)
      ensures ImageUpload(file).FileAccepted? && FindById(old(users), id).Some? ==>
        var k := FindById(old(users), id).value;
        && r == SuccessMsg("Profile picture updated successfully")
        && users == old(users)[k := old(users)[k].(profilePicture := Some(Picture(file.value.data, file.value.mimetype)))]
      // Only an image that passed the filter and fits the limit is ever stored.
      ensures users != old(users) ==>
        && file.Some? && FileFilter(file.value).Success? && |file.value.data| <= FileSizeLimit
        && exists k | 0 <= k < |users| :: users[k].profilePicture == Some(Picture(file.value.data, file.value.mimetype))
    {
      var upload := ImageUpload(file);
      if upload.MulterError? {
        return Unhandled(upload.message);
      }
      if upload.NoFile? {
        return ErrorMsg(NoImage);
      }
      var found := FindById(users, id);
      if found.None? {
        return ErrorMsg(SomethingWrong);
      }
      var k := found.value;
      SetPicture(k, Some(Picture(upload.file.data, upload.file.mimetype)));
      r := SuccessMsg("Profile picture updated successfully");
    }

    /** POST /profile/picture/remove: the picture is unset. */
    method RemovePicture(id: UserId) returns (r: Flash)
      requires Valid()
      modifies this
      ensures Valid() && nextId == old(nextId)
      ensures FindById(old(users), id).None? ==> r == ErrorMsg(SomethingWrong) && users == old(users)
      ensures FindById(old(users), id).Some? ==>
        var k := FindById(old(users), id).value;
        && r == SuccessMsg("Profile picture removed successfully")
        && users == old(users)[k := old(users)[k].(profilePicture := None)]
        && users[k].profilePicture.None?
    {
      var found := FindById(users, id);
      if found.None? {
        return ErrorMsg(SomethingWrong);
      }
      SetPicture(found.value, None);
      r := SuccessMsg("Profile picture removed successfully");
    }

    /** Sets the picture of the k-th user, touching nothing else. */
    method SetPicture(k: nat, picture: Option<Picture>)
      requires Valid() && k < |users|
      modifies this
      ensures Valid() && nextId == old(nextId)
      ensures users == old(users)[k := old(users)[k].(profilePicture := picture)]
      ensures users[k].profilePicture == picture
    {
      users := users[k := users[k].(profilePicture := picture)];
    }
  }

  // ---------------------------------------------------------------------------------------
  // Lemmas about the token life cycle

  /**
   * A link issued at `issued` for user k is accepted at time t exactly while t is within
   * the hour, unless an earlier user happens to hold the same token.
   */
  lemma IssuedTokenFound(users: seq<User>, k: nat, token: string, issued: Timestamp, t: Timestamp)
    requires k < |users|
    requires forall j | 0 <= j < |users| && j != k :: users[j].resetPasswordToken != Some(token)
    ensures var after := users[k := IssueToken(users[k], token, issued)];
      FindByToken(after, token, t) == if t < issued + ResetWindow then Some(k) else None
  {
    var after := users[k := IssueToken(users[k], token, issued)];
    forall j | 0 <= j < |after| && j != k
      ensures !Accepts(after[j], token, t)
    {
      assert after[j] == users[j];
    }
    if t < issued + ResetWindow {
      assert Accepts(after[k], token, t);
      var f := FindByToken(after, token, t);
      assert f.Some? && f.value == k;
    }
  }

  /**
   * After a successful reset the token is refused at every later time, provided no other
   * user held the same token.
   */
  lemma ResetTokenSingleUse(users: seq<User>, k: nat, token: string, hashed: string, t: Timestamp)
    requires k < |users|
    requires forall j | 0 <= j < |users| && j != k :: users[j].resetPasswordToken != Some(token)
    ensures FindByToken(users[k := ApplyReset(users[k], hashed)], token, t).None?
  {
    var after := users[k := ApplyReset(users[k], hashed)];
    forall j | 0 <= j < |after|
      ensures !Accepts(after[j], token, t)
    {
      if j != k {
        assert after[j] == users[j];
      }
    }
  }

  /**
   * POST /profile checks neither username nor email against the other users: a user can
   * take over another user's username, which POST /register would have refused.
   */
  lemma ProfileUpdateAllowsDuplicateUsername(a: User, b: User, p: ProfileForm)
    requires HasRequiredFields(a) && a.username != b.username
    requires p.username == Some(a.username) && Filled(p.email)
    ensures UpdatedProfile(b, p).Success?
    ensures !UsernamesDistinct([a, UpdatedProfile(b, p).value])
  {
    var pair := [a, UpdatedProfile(b, p).value];
    assert pair[0].username == pair[1].username;
  }
}
