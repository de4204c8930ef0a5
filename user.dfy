/** Login credentials and their validation (backend/api/user/user.go).

    `Validate` first trims white space from both fields and stores the trimmed
    values back into the credentials.  It then checks, in this order:
      1. neither field is empty;
      2. the username is at most 60 bytes;
      3. the password is at most 120 bytes;
      4. no rune of the username is a control rune (below 32, or 127).
    The first check that fails decides the error.  The password is never
    scanned for control runes.
 */
module User {
  import opened GoStrings

  /** Longest username accepted, in bytes. */
  const MaxUsernameBytes: nat := 60
  /** Longest password accepted, in bytes. */
  const MaxPasswordBytes: nat := 120

  /** The four errors `Validate` can return, one per check. */
  datatype ValidationError =
    | EmptyCredentials
    | UsernameTooLong
    | PasswordTooLong
    | InvalidUsernameCharacters

  /** What `Validate` returns: Go's nil error, or one of the four errors. */
  datatype Outcome = Pass | Fail(error: ValidationError)

  /** The text of each error as the caller receives it; never empty. */
  function Message(e: ValidationError): (text: string)
    ensures text != []
  {
    match e
    case EmptyCredentials => "username and password cannot be empty"
    case UsernameTooLong => "username too long"
    case PasswordTooLong => "password too long"
    case InvalidUsernameCharacters => "username contains invalid characters"
  }

  /** The runes the username scan refuses: ASCII control characters and DEL.
      They are all ASCII, and the white space among them is exactly
      '\t', '\n', '\v', '\f' and '\r', which trimming removes only at the ends. */
  predicate IsControl(c: char)
    ensures IsControl(c) ==> c < '\U{80}'
    ensures IsSpace(c) ==> (IsControl(c) <==> '\t' <= c <= '\r')
  {
    (c as int) < 32 || (c as int) == 127
  }

  /** The range loop over the username, from its first rune to its last,
      meets a control rune: exactly when some rune of `s` is one. */
  predicate HasControlRune(s: string)
    ensures HasControlRune(s) <==> exists i | 0 <= i < |s| :: IsControl(s[i])
  {
    if s == [] then false
    else if IsControl(s[0]) then true
    else
      assert forall i | 1 <= i < |s| :: s[i] == s[1..][i - 1];
      HasControlRune(s[1..])
  }

  /** What `Validate` returns for credentials holding `username` and
      `password` when it is called; the checks run in the source's order.
      It is nil exactly when the trimmed username is non-empty, at most 60
      bytes and free of control runes, and the trimmed password is non-empty
      and at most 120 bytes. */
  function ValidationOutcome(username: string, password: string): (r: Outcome)
    ensures r == Pass <==>
      var u, p := TrimSpace(username), TrimSpace(password);
      && u != [] && Utf8Len(u) <= MaxUsernameBytes && !HasControlRune(u)
      && p != [] && Utf8Len(p) <= MaxPasswordBytes
  {
    var u := TrimSpace(username);
    var p := TrimSpace(password);
    if u == [] || p == [] then Fail(EmptyCredentials)
    else if Utf8Len(u) > MaxUsernameBytes then Fail(UsernameTooLong)
    else if Utf8Len(p) > MaxPasswordBytes then Fail(PasswordTooLong)
    else if HasControlRune(u) then Fail(InvalidUsernameCharacters)
    else Pass
  }

  /** The username/password pair a login or registration request carries. */
  class Credentials {
    var username: string
    var password: string

    constructor (username: string, password: string)
      ensures this.username == username && this.password == password
    {
      this.username := username;
      this.password := password;
    }

    /** Trims both fields in place, then checks them; the fields stay
        trimmed whichever way it returns. */
    method Validate() returns (outcome: Outcome)
      modifies this
      ensures username == TrimSpace(old(username))
      ensures password == TrimSpace(old(password))
      ensures outcome == ValidationOutcome(old(username), old(password))
    {
      username := TrimSpace(username);
      password := TrimSpace(password);

      if username == [] || password == [] {
        return Fail(EmptyCredentials);
      }

      if Utf8Len(username) > MaxUsernameBytes {
        return Fail(UsernameTooLong);
      }
      if Utf8Len(password) > MaxPasswordBytes {
        return Fail(PasswordTooLong);
      }

      var i := 0;
      while i < |username|
        invariant 0 <= i <= |username|
        invariant forall k | 0 <= k < i :: !IsControl(username[k])
      {
        if IsControl(username[i]) {
          return Fail(InvalidUsernameCharacters);
        }
        i := i + 1;
      }

      return Pass;
    }
  }

  /** Each error has its own text, so the caller can tell which check failed. */
  lemma MessageIdentifiesError(e1: ValidationError, e2: ValidationError)
    ensures Message(e1) == Message(e2) <==> e1 == e2
  {
  }

  /** The emptiness check comes first: it is the error exactly when either
      trimmed field is empty, whatever else is wrong. */
  lemma EmptyIff(username: string, password: string)
    ensures ValidationOutcome(username, password) == Fail(EmptyCredentials) <==>
      TrimSpace(username) == [] || TrimSpace(password) == []
  {
  }

  /** "username too long" exactly when both fields are non-empty and the
      trimmed username exceeds 60 bytes; the password's length is not looked at. */
  lemma UsernameTooLongIff(username: string, password: string)
    ensures ValidationOutcome(username, password) == Fail(UsernameTooLong) <==>
      var u, p := TrimSpace(username), TrimSpace(password);
      u != [] && p != [] && Utf8Len(u) > MaxUsernameBytes
  {
  }

  /** "password too long" exactly when both fields are non-empty, the
      username passes its length check and the trimmed password exceeds 120 bytes. */
  lemma PasswordTooLongIff(username: string, password: string)
    ensures ValidationOutcome(username, password) == Fail(PasswordTooLong) <==>
      var u, p := TrimSpace(username), TrimSpace(password);
      u != [] && p != [] && Utf8Len(u) <= MaxUsernameBytes && Utf8Len(p) > MaxPasswordBytes
  {
  }

  /** "username contains invalid characters" exactly when both length checks
      pass and the trimmed username holds a control rune. */
  lemma InvalidCharactersIff(username: string, password: string)
    ensures ValidationOutcome(username, password) == Fail(InvalidUsernameCharacters) <==>
      var u, p := TrimSpace(username), TrimSpace(password);
      && u != [] && p != [] && Utf8Len(u) <= MaxUsernameBytes && Utf8Len(p) <= MaxPasswordBytes
      && HasControlRune(u)
  {
  }

  /** The limits are inclusive: a trimmed, control-free username of exactly
      60 bytes with a trimmed password of exactly 120 bytes is accepted. */
  lemma LimitsAreInclusive(username: string, password: string)
    requires IsTrimmed(username) && IsTrimmed(password)
    requires Utf8Len(username) == MaxUsernameBytes && !HasControlRune(username)
    requires Utf8Len(password) == MaxPasswordBytes
    ensures ValidationOutcome(username, password) == Pass
  {
    TrimSpaceOfTrimmed(username);
    TrimSpaceOfTrimmed(password);
  }

  /** The limits count bytes, not runes: more than 30 two-byte runes
      (such as 'é') already make a username too long. */
  lemma TwoByteUsernameTooLong(username: string, password: string)
    requires IsTrimmed(username) && |username| > 30
    requires forall i | 0 <= i < |username| :: '\U{80}' <= username[i] < '\U{800}'
    requires TrimSpace(password) != []
    ensures ValidationOutcome(username, password) == Fail(UsernameTooLong)
  {
    Utf8LenOfTwoByteRunes(username);
    assert Utf8Len(username) > MaxUsernameBytes;
    TrimSpaceOfTrimmed(username);
    assert TrimSpace(username) == username != [];
  }

  /** The password is never scanned: control runes inside an otherwise
      acceptable password do not make `Validate` fail. */
  lemma PasswordControlRunesAccepted(username: string, password: string)
    requires IsTrimmed(username) && username != [] && !HasControlRune(username)
    requires Utf8Len(username) <= MaxUsernameBytes
    requires IsTrimmed(password) && password != [] && Utf8Len(password) <= MaxPasswordBytes
    requires HasControlRune(password)
    ensures ValidationOutcome(username, password) == Pass
  {
    TrimSpaceOfTrimmed(username);
    TrimSpaceOfTrimmed(password);
  }

  /** Surrounding white space never affects the verdict, since it is trimmed
      before any check; in particular a tab or newline at either end of the
      username is not a control rune that counts. */
  lemma SurroundingSpaceIgnored(username: string, password: string,
                                lead: string, trail: string)
    requires AllSpace(lead) && AllSpace(trail)
    ensures ValidationOutcome(lead + username + trail, password) ==
            ValidationOutcome(username, password)
  {
    TrimSpaceIgnoresPadding(lead, username, trail);
  }

  /** Validating again changes nothing: the second call finds the fields
      already trimmed, leaves them as they are and returns what the first
      call returned (nil, if the first call accepted). */
  lemma ValidateIdempotent(username: string, password: string)
    ensures TrimSpace(TrimSpace(username)) == TrimSpace(username)
    ensures TrimSpace(TrimSpace(password)) == TrimSpace(password)
    ensures ValidationOutcome(TrimSpace(username), TrimSpace(password)) ==
            ValidationOutcome(username, password)
  {
    TrimSpaceIdempotent(username);
    TrimSpaceIdempotent(password);
  }

  /** A caller that validates the same credentials twice: the second call
      leaves both fields as the first left them and returns the same outcome. */
  method ValidateTwice(c: Credentials) returns (first: Outcome, second: Outcome)
    modifies c
    ensures c.username == TrimSpace(old(c.username)) && c.password == TrimSpace(old(c.password))
    ensures second == first == ValidationOutcome(old(c.username), old(c.password))
  {
    first := c.Validate();
    ghost var u, p := c.username, c.password;
    second := c.Validate();
    ValidateIdempotent(old(c.username), old(c.password));
    assert c.username == u && c.password == p;
  }
}
