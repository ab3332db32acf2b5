/**
 * The sign-in page: registering checks the name against the username
 * pattern and the password's length before anything is sent; logging in
 * sends what was typed.
 */
module AuthenticationPage {
  import UsernamePattern
  import AuthenticationResource

  const MinPasswordLength: nat := 5

  const UsernameMessage: string :=
    "Username must be 3-20 characters long, and may only contain letters, numbers, and hyphens."
  const PasswordMessage: string := "Password must be at least 5 characters long."

  /** What a handler does with the form: show an error, or send the request. */
  datatype Submission = Refused(message: string) | Sent(username: string, password: string)

  /** handleRegister: the name is checked first, then the password; only a form that passes both is sent. */
  function HandleRegister(username: string, password: string): (r: Submission)
    ensures !UsernamePattern.Matches(username) ==> r == Refused(UsernameMessage)
    ensures UsernamePattern.Matches(username) && |password| < MinPasswordLength ==> r == Refused(PasswordMessage)
    ensures r.Sent? <==> UsernamePattern.Matches(username) && |password| >= MinPasswordLength
    ensures r.Sent? ==> r == Sent(username, password)
  {
    if !UsernamePattern.Matches(username) then Refused(UsernameMessage)
    else if |password| < MinPasswordLength then Refused(PasswordMessage)
    else Sent(username, password)
  }

  /** handleLogin: no check on the client. */
  function HandleLogin(username: string, password: string): (r: Submission)
    ensures r.Sent? && r.username == username && r.password == password
  {
    Sent(username, password)
  }

  /** A name the page lets through is one the server's sign-up accepts, so its 400 is never reached from here. */
  lemma RegisterPassesServer(username: string, password: string)
    requires HandleRegister(username, password).Sent?
    ensures AuthenticationResource.IsValidUsername(username)
  {
  }

  /** Login sends names that registration would refuse. */
  lemma LoginSkipsValidation()
    ensures HandleRegister("ab", "secret") == Refused(UsernameMessage)
    ensures HandleLogin("ab", "secret") == Sent("ab", "secret")
  {
    assert |"ab"| < UsernamePattern.MinLength;
  }
}
