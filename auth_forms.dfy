/** The login and register form checks of the sign-in page
    (frontend/js/auth.js): a chain of guards, the first failure of which
    is shown; a request is sent only when every guard passes. */
module AuthForms {
  import opened Common
  import opened Text

  datatype LoginBody = LoginBody(email: string, password: string)

  /** The login check: the email is trimmed, the password is taken as
      typed; both must be non-empty. */
  function LoginGuard(emailField: string, passwordField: string): (r: Guard<LoginBody>)
    ensures r.Submit? <==> Trim(emailField) != "" && passwordField != ""
    ensures r.Submit? ==> r.body == LoginBody(Trim(emailField), passwordField)
    ensures r.Refuse? ==> r.message == "Please fill in all fields"
  {
    var email := Trim(emailField);
    if email == "" || passwordField == "" then Refuse("Please fill in all fields")
    else Submit(LoginBody(email, passwordField))
  }

  /** A password of white space alone passes the login check. */
  lemma BlankPasswordAccepted(email: string)
    requires Trim(email) != ""
    ensures LoginGuard(email, " ").Submit?
  {
  }

  /** `[a-zA-Z0-9_]`. */
  predicate UsernameChar(c: char) {
    ('a' <= c <= 'z') || ('A' <= c <= 'Z') || ('0' <= c <= '9') || c == '_'
  }

  /** `/^[a-zA-Z0-9_]+$/.test(s)`. */
  predicate MatchesUsernamePattern(s: string) {
    |s| > 0 && forall k :: 0 <= k < |s| ==> UsernameChar(s[k])
  }

  datatype RegisterBody = RegisterBody(username: string, email: string, password: string)

  /** Every rule of the register form at once: all fields filled, a
      username of at least three letters, digits or underscores, a
      password of at least six characters, typed the same twice. */
  predicate RegisterValid(username: string, email: string, password: string, confirm: string) {
    username != "" && email != "" && password != "" && confirm != "" &&
    |username| >= 3 && MatchesUsernamePattern(username) &&
    |password| >= 6 && password == confirm
  }

  /** The register check (username and email trimmed, passwords as typed):
      the guards run in order and the first that fails gives the message. */
  function RegisterGuard(usernameField: string, emailField: string, password: string, confirm: string)
    : (r: Guard<RegisterBody>)
    ensures var u := Trim(usernameField);
      var e := Trim(emailField);
      (u == "" || e == "" || password == "" || confirm == "" ==>
        r == Refuse("Please fill in all fields")) &&
      (u != "" && e != "" && password != "" && confirm != "" && |u| < 3 ==>
        r == Refuse("Username must be at least 3 characters long")) &&
      (u != "" && e != "" && password != "" && confirm != "" && |u| >= 3 && !MatchesUsernamePattern(u) ==>
        r == Refuse("Username can only contain letters, numbers, and underscores")) &&
      (u != "" && e != "" && password != "" && confirm != "" && |u| >= 3 && MatchesUsernamePattern(u) &&
       |password| < 6 ==>
        r == Refuse("Password must be at least 6 characters long")) &&
      (u != "" && e != "" && password != "" && confirm != "" && |u| >= 3 && MatchesUsernamePattern(u) &&
       |password| >= 6 && password != confirm ==>
        r == Refuse("Passwords do not match"))
    ensures r.Submit? ==> r.body == RegisterBody(Trim(usernameField), Trim(emailField), password)
  {
    var username := Trim(usernameField);
    var email := Trim(emailField);
    if username == "" || email == "" || password == "" || confirm == "" then
      Refuse("Please fill in all fields")
    else if |username| < 3 then
      Refuse("Username must be at least 3 characters long")
    else if !MatchesUsernamePattern(username) then
      Refuse("Username can only contain letters, numbers, and underscores")
    else if |password| < 6 then
      Refuse("Password must be at least 6 characters long")
    else if password != confirm then
      Refuse("Passwords do not match")
    else
      Submit(RegisterBody(username, email, password))
  }

  /** The register request is sent exactly when every rule holds of the
      trimmed username and email and the passwords as typed. */
  lemma RegisterSubmitIff(usernameField: string, emailField: string, password: string, confirm: string)
    ensures RegisterGuard(usernameField, emailField, password, confirm).Submit? <==>
      RegisterValid(Trim(usernameField), Trim(emailField), password, confirm)
  {
  }

  /** Spaces around the username and email never cause a refusal: the
      check sees the trimmed values. */
  lemma SurroundingSpaceIgnored(usernameField: string, emailField: string, password: string, confirm: string)
    ensures RegisterGuard(Trim(usernameField), Trim(emailField), password, confirm) ==
      RegisterGuard(usernameField, emailField, password, confirm)
  {
    TrimIdempotent(usernameField);
    TrimIdempotent(emailField);
  }

  /** A submitted username is accepted by the mock server's and the API's
      presence checks: it is non-empty. */
  lemma SubmittedFieldsPresent(usernameField: string, emailField: string, password: string, confirm: string)
    requires RegisterGuard(usernameField, emailField, password, confirm).Submit?
    ensures var b := RegisterGuard(usernameField, emailField, password, confirm).body;
      Present(Some(b.username)) && Present(Some(b.email)) && Present(Some(b.password))
  {
  }
}
