/** Bearer-token authentication: from the decoded JWT to the current user. */
module Auth {
  import opened Common
  import opened Models

  /** The claims of a decoded JWT that the code reads; `None` for a claim the token lacks. */
  datatype Claims = Claims(sub: Option<string>, kind: Option<string>)

  const CredentialsError: Error := Unauthorized("Could not validate credentials")
  const InactiveError: Error := BadRequest("Inactive user")

  /** The current user, given the result of `jwt.decode` on the bearer token
      (`None` when decoding raised JWTError). Every failure is the same 401. */
  function CurrentUser(s: Store, decoded: Option<Claims>): (r: Result<User>)
    ensures r.Ok? <==>
      decoded.Some? && decoded.value.sub.Some? &&
      exists i :: 0 <= i < |s.users| && s.users[i].email == decoded.value.sub.value
    ensures r.Ok? ==> r.value in s.users && Some(r.value.email) == decoded.value.sub
    ensures r.Err? ==> r.error == CredentialsError
  {
    if decoded.None? || decoded.value.sub.None? then Err(CredentialsError)
    else match UserWithEmail(s, decoded.value.sub.value)
      case None => Err(CredentialsError)
      case Some(i) => Ok(s.users[i])
  }

  /** Since emails are unique, the user returned is the one whose email is the token's subject. */
  lemma CurrentUserIsSubject(s: Store, decoded: Option<Claims>, i: nat)
    requires Valid(s)
    requires i < |s.users| && decoded.Some? && decoded.value.sub == Some(s.users[i].email)
    ensures CurrentUser(s, decoded) == Ok(s.users[i])
  {
    var k := UserWithEmail(s, s.users[i].email).value;
    assert s.users[k].email == s.users[i].email;
  }

  /** The active-user dependency: an inactive user is refused with 400, an active one passes unchanged. */
  function ActiveUser(current: Result<User>): (r: Result<User>)
    ensures r.Ok? <==> current.Ok? && current.value.isActive
    ensures r.Ok? ==> r == current
    ensures current.Err? ==> r == current
    ensures current.Ok? && !current.value.isActive ==> r.error == InactiveError
  {
    match current
    case Err(e) => Err(e)
    case Ok(u) => if u.isActive then Ok(u) else Err(InactiveError)
  }
}
