/** The account handlers: signup, login, profile update and the password-reset
    token lifecycle (set by forgot-password, consumed once by reset-password). */
module Users {
  import opened Common
  import opened Models
  import opened Db
  import opened Auth

  datatype SignupRequest = SignupRequest(email: string, username: string, fullName: Option<string>, password: string)

  datatype Token = Token(accessToken: string, tokenType: string)

  /** What a handler leaves behind: the committed store, its answer, and the tasks it enqueued. */
  datatype Reply<T> = Reply(store: Store, result: Result<T>, enqueued: seq<TaskCall>)

  const WelcomeTask: string := "app.tasks.send_welcome_email"
  const ResetTask: string := "app.tasks.send_password_reset_email"

  const EmailTaken: Error := BadRequest("Email already registered")
  const UsernameTaken: Error := BadRequest("Username already taken")
  const BadLogin: Error := Unauthorized("Incorrect email or password")
  const BadTokenType: Error := BadRequest("Invalid token type")
  const UndecodableToken: Error := BadRequest("Invalid or expired token")
  const WrongToken: Error := BadRequest("Invalid token")
  const ExpiredToken: Error := BadRequest("Token has expired")

  /** A reset token lives for one hour. */
  const ResetTokenLifetime: nat := 3600

  const ResetSentMessage: string := "Password reset email sent"
  const ResetMaybeSentMessage: string := "If the email exists, a reset link has been sent"
  const ResetDoneMessage: string := "Password reset successful"

  // ---------------------------------------------------------------------
  // signup
  // ---------------------------------------------------------------------

  /** The account row signup adds: the hash of the password, default flags, no token. */
  function Account(req: SignupRequest, hash: string -> string): NewRow {
    NewAccount(req.email, req.username, hash(req.password), req.fullName, true, false)
  }

  /** signup: the email is checked before the username; on success one welcome email is enqueued. */
  function SignupSpec(s: Store, req: SignupRequest, hash: string -> string, now: nat): Reply<User> {
    if UserWithEmail(s, req.email).Some? then Reply(s, Err(EmailTaken), [])
    else if UserWithUsername(s, req.username).Some? then Reply(s, Err(UsernameTaken), [])
    else
      var (t, id) := Insert(s, Account(req, hash), now);
      if id.None? then Reply(s, Err(InternalError), [])
      else
        var u := t.users[|t.users| - 1];
        Reply(t, Ok(u), [TaskCall(WelcomeTask, [u.email, u.username])])
  }

  method Signup(db: Session, broker: Broker, req: SignupRequest, hash: string -> string, now: nat)
    returns (r: Result<User>)
    modifies db, broker
    ensures var spec := SignupSpec(old(db.State()), req, hash, now);
      db.State() == spec.store && r == spec.result && broker.pending == old(broker.pending) + spec.enqueued
  {
    if UserWithEmail(db.State(), req.email).Some? {
      return Err(EmailTaken);
    }
    if UserWithUsername(db.State(), req.username).Some? {
      return Err(UsernameTaken);
    }
    var hashed := hash(req.password);
    var id := db.Add(NewAccount(req.email, req.username, hashed, req.fullName, true, false), now);
    if id.None? {
      return Err(InternalError);
    }
    var user := db.users[|db.users| - 1];
    broker.Delay(TaskCall(WelcomeTask, [user.email, user.username]));
    r := Ok(user);
  }

  /** A taken email is reported as such even when the username is taken too; nothing is created. */
  lemma SignupDuplicateEmailFirst(s: Store, req: SignupRequest, hash: string -> string, now: nat, i: nat)
    requires i < |s.users| && s.users[i].email == req.email
    ensures SignupSpec(s, req, hash, now) == Reply(s, Err(EmailTaken), [])
  {
  }

  /** A fresh email with a taken username is refused; nothing is created. */
  lemma SignupDuplicateUsername(s: Store, req: SignupRequest, hash: string -> string, now: nat, i: nat)
    requires forall j :: 0 <= j < |s.users| ==> s.users[j].email != req.email
    requires i < |s.users| && s.users[i].username == req.username
    ensures SignupSpec(s, req, hash, now) == Reply(s, Err(UsernameTaken), [])
  {
  }

  /** A signup with a fresh email and username adds exactly one user, who holds the hash of
      the password, is active and unverified and has no reset token, and enqueues exactly one
      welcome email to that user. */
  lemma {:induction false} SignupCreates(s: Store, req: SignupRequest, hash: string -> string, now: nat)
    requires Valid(s)
    requires forall j :: 0 <= j < |s.users| ==> s.users[j].email != req.email && s.users[j].username != req.username
    ensures var reply := SignupSpec(s, req, hash, now);
      && reply.result.Ok?
      && reply.store.users == s.users + [reply.result.value]
      && reply.store.books == s.books && reply.store.libraries == s.libraries && reply.store.links == s.links
      && reply.result.value.email == req.email && reply.result.value.username == req.username
      && reply.result.value.hashedPassword == hash(req.password)
      && reply.result.value.isActive && !reply.result.value.isVerified
      && reply.result.value.resetToken.None? && reply.result.value.resetTokenExpires.None?
      && reply.enqueued == [TaskCall(WelcomeTask, [req.email, req.username])]
      && Valid(reply.store)
  {
    InsertCommitsIff(s, Account(req, hash), now);
    InsertKeepsValid(s, Account(req, hash), now);
  }

  // ---------------------------------------------------------------------
  // login
  // ---------------------------------------------------------------------

  /** login: `verify(password, hash)` is bcrypt's check and `encode(email)` the signed access token. */
  function Login(s: Store, email: string, password: string,
                 verify: (string, string) -> bool, encode: string -> string): (r: Result<Token>)
    ensures r.Ok? <==> UserWithEmail(s, email).Some? && verify(password, s.users[UserWithEmail(s, email).value].hashedPassword)
    ensures r.Ok? ==> r.value == Token(encode(email), "bearer")
    ensures r.Err? ==> r.error == BadLogin
  {
    match UserWithEmail(s, email)
    case None => Err(BadLogin)
    case Some(i) =>
      if !verify(password, s.users[i].hashedPassword) then Err(BadLogin)
      else Ok(Token(encode(s.users[i].email), "bearer"))
  }

  /** An unknown email and a wrong password get the very same 401, so a caller cannot tell them apart. */
  lemma LoginHidesUnknownEmail(s: Store, email: string, password: string, other: string,
                               verify: (string, string) -> bool, encode: string -> string, i: nat)
    requires forall j :: 0 <= j < |s.users| ==> s.users[j].email != email
    requires i < |s.users| && UserWithEmail(s, s.users[i].email) == Some(i)
    requires !verify(other, s.users[i].hashedPassword)
    ensures Login(s, email, password, verify, encode) == Login(s, s.users[i].email, other, verify, encode)
  {
  }

  // ---------------------------------------------------------------------
  // update_my_profile
  // ---------------------------------------------------------------------

  /** Some user other than `me` already has this username. */
  function UsernameTakenByOther(s: Store, username: string, me: nat): (taken: bool)
    ensures taken <==> exists j :: 0 <= j < |s.users| && s.users[j].username == username && s.users[j].id != me
  {
    FindIndex(s.users, (u: User) => u.username == username && u.id != me).Some?
  }

  /** Some user other than `me` already has this email. */
  function EmailTakenByOther(s: Store, email: string, me: nat): (taken: bool)
    ensures taken <==> exists j :: 0 <= j < |s.users| && s.users[j].email == email && s.users[j].id != me
  {
    FindIndex(s.users, (u: User) => u.email == email && u.id != me).Some?
  }

  /** The profile after applying the fields that were passed. */
  function Patched(u: User, fullName: Option<string>, username: Option<string>, email: Option<string>): User {
    u.(fullName := if fullName.Some? then fullName else u.fullName,
       username := if username.Some? then username.value else u.username,
       email := if email.Some? then email.value else u.email)
  }

  /** update_my_profile for the signed-in user `me` (a row of the store). */
  function UpdateProfileSpec(s: Store, me: nat, fullName: Option<string>, username: Option<string>,
                             email: Option<string>): Reply<User>
    requires UserWithId(s, me).Some?
  {
    var i := UserWithId(s, me).value;
    if username.Some? && UsernameTakenByOther(s, username.value, me) then Reply(s, Err(UsernameTaken), [])
    else if email.Some? && EmailTakenByOther(s, email.value, me) then Reply(s, Err(EmailTaken), [])
    else
      var u := Patched(s.users[i], fullName, username, email);
      var t := s.(users := s.users[i := u]);
      if Constraints(t) then Reply(t, Ok(u), []) else Reply(s, Err(InternalError), [])
  }

  method UpdateMyProfile(db: Session, me: nat, fullName: Option<string>, username: Option<string>,
                         email: Option<string>) returns (r: Result<User>)
    requires UserWithId(db.State(), me).Some?
    modifies db
    ensures var spec := UpdateProfileSpec(old(db.State()), me, fullName, username, email);
      db.State() == spec.store && r == spec.result
  {
    var i := UserWithId(db.State(), me).value;
    var current := db.users[i];
    if fullName.Some? {
      current := current.(fullName := fullName);
    }
    if username.Some? {
      if UsernameTakenByOther(db.State(), username.value, me) {
        return Err(UsernameTaken);
      }
      current := current.(username := username.value);
    }
    if email.Some? {
      if EmailTakenByOther(db.State(), email.value, me) {
        return Err(EmailTaken);
      }
      current := current.(email := email.value);
    }
    var after := db.State().(users := db.users[i := current]);
    if !Constraints(after) {
      return Err(InternalError);
    }
    db.Save(after);
    r := Ok(current);
  }

  /** A successful update changes only the fields passed non-None, of this user only. */
  lemma {:induction false} UpdateProfileChangesOnlyGiven(s: Store, me: nat, fullName: Option<string>,
                                                        username: Option<string>, email: Option<string>)
    requires Valid(s) && UserWithId(s, me).Some?
    ensures var reply := UpdateProfileSpec(s, me, fullName, username, email);
      var i := UserWithId(s, me).value;
      reply.result.Ok? ==>
        && reply.result.value == Patched(s.users[i], fullName, username, email)
        && reply.result.value.id == me
        && reply.result.value.hashedPassword == s.users[i].hashedPassword
        && reply.result.value.isActive == s.users[i].isActive
        && reply.result.value.resetToken == s.users[i].resetToken
        && reply.store == s.(users := s.users[i := reply.result.value])
        && Valid(reply.store)
  {
    var i := UserWithId(s, me).value;
    var reply := UpdateProfileSpec(s, me, fullName, username, email);
    if reply.result.Ok? {
      var t := reply.store;
      assert UserIdsBelow(t.users, t.nextUserId) by {
        assert forall j :: 0 <= j < |t.users| ==> t.users[j].id == s.users[j].id;
      }
      assert HasBook(t, 0) == HasBook(s, 0);
    }
  }

  /** Re-submitting one's own username and email is accepted: the checks exclude the caller. */
  lemma {:induction false} UpdateProfileOwnValuesAccepted(s: Store, me: nat, fullName: Option<string>)
    requires Valid(s) && UserWithId(s, me).Some?
    ensures var u := s.users[UserWithId(s, me).value];
      UpdateProfileSpec(s, me, fullName, Some(u.username), Some(u.email)).result.Ok?
  {
    var i := UserWithId(s, me).value;
    var u := s.users[i];
    forall j | 0 <= j < |s.users| && s.users[j].id != me
      ensures s.users[j].username != u.username && s.users[j].email != u.email
    {
      assert j != i;
    }
    var t := s.(users := s.users[i := Patched(u, fullName, Some(u.username), Some(u.email))]);
    assert forall j :: 0 <= j < |t.users| ==> t.users[j].username == s.users[j].username && t.users[j].email == s.users[j].email;
  }

  /** A username or email held by another user is refused and nothing changes. */
  lemma UpdateProfileTakenRefused(s: Store, me: nat, fullName: Option<string>, username: Option<string>,
                                  email: Option<string>, j: nat)
    requires UserWithId(s, me).Some? && j < |s.users| && s.users[j].id != me
    requires username == Some(s.users[j].username) || email == Some(s.users[j].email)
    ensures var reply := UpdateProfileSpec(s, me, fullName, username, email);
      reply.store == s && reply.result.Err? && reply.result.error in {UsernameTaken, EmailTaken}
  {
  }

  // ---------------------------------------------------------------------
  // forgot_password / reset_password
  // ---------------------------------------------------------------------

  /** forgot_password: `makeToken(email)` is `create_reset_token`. An unknown email changes nothing. */
  function ForgotPasswordSpec(s: Store, email: string, makeToken: string -> string, now: nat): Reply<string> {
    match UserWithEmail(s, email)
    case None => Reply(s, Ok(ResetMaybeSentMessage), [])
    case Some(i) =>
      var token := makeToken(s.users[i].email);
      var u := s.users[i].(resetToken := Some(token), resetTokenExpires := Some(now + ResetTokenLifetime));
      Reply(s.(users := s.users[i := u]), Ok(ResetSentMessage), [TaskCall(ResetTask, [u.email, token])])
  }

  method ForgotPassword(db: Session, broker: Broker, email: string, makeToken: string -> string, now: nat)
    returns (r: Result<string>)
    modifies db, broker
    ensures var spec := ForgotPasswordSpec(old(db.State()), email, makeToken, now);
      db.State() == spec.store && r == spec.result && broker.pending == old(broker.pending) + spec.enqueued
  {
    var found := UserWithEmail(db.State(), email);
    if found.None? {
      return Ok(ResetMaybeSentMessage);
    }
    var i := found.value;
    var token := makeToken(db.users[i].email);
    var user := db.users[i];
    user := user.(resetToken := Some(token));
    user := user.(resetTokenExpires := Some(now + ResetTokenLifetime));
    db.users := db.users[i := user];
    broker.Delay(TaskCall(ResetTask, [user.email, token]));
    r := Ok(ResetSentMessage);
  }

  /** With a known email the token is stored with an expiry one hour ahead and mailed; nothing else changes. */
  lemma ForgotPasswordStoresToken(s: Store, email: string, makeToken: string -> string, now: nat, i: nat)
    requires Valid(s) && i < |s.users| && s.users[i].email == email
    ensures var reply := ForgotPasswordSpec(s, email, makeToken, now);
      && reply.store.users == s.users[i := s.users[i].(resetToken := Some(makeToken(email)),
                                                       resetTokenExpires := Some(now + 3600))]
      && reply.store.books == s.books && reply.store.libraries == s.libraries && reply.store.links == s.links
      && reply.enqueued == [TaskCall(ResetTask, [email, makeToken(email)])]
      && Valid(reply.store)
  {
    var k := UserWithEmail(s, email).value;
    assert s.users[k].email == s.users[i].email;
    var t := ForgotPasswordSpec(s, email, makeToken, now).store;
    assert forall j :: 0 <= j < |t.users| ==> t.users[j].id == s.users[j].id && t.users[j].email == s.users[j].email && t.users[j].username == s.users[j].username;
  }

  /** An unknown email changes nothing and reveals nothing. */
  lemma ForgotPasswordUnknownEmail(s: Store, email: string, makeToken: string -> string, now: nat)
    requires forall j :: 0 <= j < |s.users| ==> s.users[j].email != email
    ensures ForgotPasswordSpec(s, email, makeToken, now) == Reply(s, Ok(ResetMaybeSentMessage), [])
  {
  }

  /** reset_password: `decoded` is `jwt.decode(token)` (None on JWTError), `hash` is bcrypt. */
  function ResetPasswordSpec(s: Store, token: string, newPassword: string, decoded: Option<Claims>,
                             hash: string -> string, now: nat): (Store, Result<string>)
  {
    if decoded.None? then (s, Err(UndecodableToken))
    else if decoded.value.kind != Some("reset") then (s, Err(BadTokenType))
    else
      var found := if decoded.value.sub.Some? then UserWithEmail(s, decoded.value.sub.value) else None;
      if found.None? || s.users[found.value].resetToken != Some(token) then (s, Err(WrongToken))
      else
        var i := found.value;
        var u := s.users[i];
        if u.resetTokenExpires.None? then (s, Err(InternalError))
        else if u.resetTokenExpires.value < now then (s, Err(ExpiredToken))
        else
          var v := u.(hashedPassword := hash(newPassword), resetToken := None, resetTokenExpires := None);
          (s.(users := s.users[i := v]), Ok(ResetDoneMessage))
  }

  method ResetPassword(db: Session, token: string, newPassword: string, decoded: Option<Claims>,
                       hash: string -> string, now: nat) returns (r: Result<string>)
    modifies db
    ensures (db.State(), r) == ResetPasswordSpec(old(db.State()), token, newPassword, decoded, hash, now)
  {
    if decoded.None? {
      return Err(UndecodableToken);
    }
    if decoded.value.kind != Some("reset") {
      return Err(BadTokenType);
    }
    var found := if decoded.value.sub.Some? then UserWithEmail(db.State(), decoded.value.sub.value) else None;
    if found.None? || db.users[found.value].resetToken != Some(token) {
      return Err(WrongToken);
    }
    var i := found.value;
    var user := db.users[i];
    if user.resetTokenExpires.None? {
      return Err(InternalError);
    }
    if user.resetTokenExpires.value < now {
      return Err(ExpiredToken);
    }
    user := user.(hashedPassword := hash(newPassword));
    user := user.(resetToken := None, resetTokenExpires := None);
    db.users := db.users[i := user];
    r := Ok(ResetDoneMessage);
  }

  /** The rejections come in the source's order: undecodable, wrong type, unknown user or
      different stored token, expired. Each leaves the store unchanged. */
  lemma ResetPasswordRejectionOrder(s: Store, token: string, newPassword: string, decoded: Option<Claims>,
                                    hash: string -> string, now: nat)
    requires TokensPaired(s.users)
    ensures var (t, r) := ResetPasswordSpec(s, token, newPassword, decoded, hash, now);
      var found := if decoded.Some? && decoded.value.sub.Some? then UserWithEmail(s, decoded.value.sub.value) else None;
      && (r.Err? ==> t == s)
      && (decoded.None? ==> r == Err(UndecodableToken))
      && (decoded.Some? && decoded.value.kind != Some("reset") ==> r == Err(BadTokenType))
      && ((decoded.Some? && decoded.value.kind == Some("reset") &&
           (found.None? || s.users[found.value].resetToken != Some(token))) ==> r == Err(WrongToken))
      && (decoded.Some? && decoded.value.kind == Some("reset") && found.Some? &&
          s.users[found.value].resetToken == Some(token) ==>
            (r == Err(ExpiredToken) <==> s.users[found.value].resetTokenExpires.value < now))
      && (r.Ok? <==>
            (decoded.Some? && decoded.value.kind == Some("reset") && found.Some? &&
             s.users[found.value].resetToken == Some(token) && s.users[found.value].resetTokenExpires.value >= now))
  {
  }

  /** A successful reset stores the hash of the new password and clears both token fields;
      the same token is then refused, so it works only once. */
  lemma {:induction false} ResetPasswordConsumesToken(s: Store, token: string, newPassword: string,
                                                     decoded: Option<Claims>, hash: string -> string,
                                                     now: nat, later: nat, another: string)
    requires Valid(s)
    requires ResetPasswordSpec(s, token, newPassword, decoded, hash, now).1.Ok?
    ensures var t := ResetPasswordSpec(s, token, newPassword, decoded, hash, now).0;
      var i := UserWithEmail(s, decoded.value.sub.value).value;
      && t.users[i].hashedPassword == hash(newPassword)
      && t.users[i].resetToken.None? && t.users[i].resetTokenExpires.None?
      && (forall j :: 0 <= j < |s.users| && j != i ==> t.users[j] == s.users[j])
      && Valid(t)
      && ResetPasswordSpec(t, token, another, decoded, hash, later) == (t, Err(WrongToken))
  {
    var i := UserWithEmail(s, decoded.value.sub.value).value;
    var t := ResetPasswordSpec(s, token, newPassword, decoded, hash, now).0;
    assert forall j :: 0 <= j < |t.users| ==> t.users[j].id == s.users[j].id && t.users[j].email == s.users[j].email && t.users[j].username == s.users[j].username;
    assert HasBook(t, 0) == HasBook(s, 0);
    assert UserWithEmail(t, decoded.value.sub.value) == Some(i) by {
      var k := UserWithEmail(t, decoded.value.sub.value).value;
      assert t.users[k].email == t.users[i].email;
    }
  }

  /** The whole lifecycle: a token issued by forgot-password, presented (decoded as a reset
      token for that email) within the hour, resets the password. */
  lemma {:induction false} ForgotThenReset(s: Store, email: string, makeToken: string -> string, issued: nat,
                                          newPassword: string, hash: string -> string, now: nat, i: nat)
    requires Valid(s) && i < |s.users| && s.users[i].email == email
    requires issued <= now <= issued + ResetTokenLifetime
    ensures var t := ForgotPasswordSpec(s, email, makeToken, issued).store;
      ResetPasswordSpec(t, makeToken(email), newPassword, Some(Claims(Some(email), Some("reset"))), hash, now).1
        == Ok(ResetDoneMessage)
  {
    ForgotPasswordStoresToken(s, email, makeToken, issued, i);
    var t := ForgotPasswordSpec(s, email, makeToken, issued).store;
    assert t.users[i].email == email;
    var k := UserWithEmail(t, email).value;
    assert t.users[k].email == t.users[i].email;
  }
}
