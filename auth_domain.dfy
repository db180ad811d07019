/** Users and the login request (internal/domain/auth/auth.go). */
module AuthDomain {
  import opened Wrappers
  import opened Types
  import opened Strings

  const MinPasswordBytes: nat := 8

  const ErrEmailRequired := "email is required"
  const ErrEmailFormat := "invalid email format"
  const ErrPasswordRequired := "password is required"
  const ErrPasswordTooShort := "password must be at least 8 characters long"

  /** `User`. The password is kept in clear, as the source does. */
  datatype User = User(id: Uuid, email: string, password: string, createdAt: Instant, updatedAt: Instant)

  /** `NewUser(email, password)`; `id` is the value of `uuid.New()`, which is never the nil
      UUID, and `now` that of `time.Now()`. Email and password are stored as given. */
  function NewUser(id: Uuid, email: string, password: string, now: Clock): (u: User)
    requires id != NilUuid
    ensures u.email == email && u.password == password
    ensures u.id != NilUuid && u.createdAt != 0 && u.updatedAt != 0
  {
    User(id, email, password, now, now)
  }

  /** `isValidEmail`: the address contains an '@' and a '.', anywhere and in any order. */
  predicate IsValidEmail(email: string) {
    Contains(email, "@") && Contains(email, ".")
  }

  /** The email check is exactly the presence of both characters. */
  lemma IsValidEmailIff(email: string)
    ensures IsValidEmail(email) <==> '@' in email && '.' in email
  {
    ContainsChar(email, '@');
    ContainsChar(email, '.');
  }

  /** The shape check is loose: a doubled '@' passes. */
  lemma DoubledAtIsValidEmail()
    ensures IsValidEmail("test@@example.com")
  {
    var e := "test@@example.com";
    assert e[4..5] == "@" && e[13..14] == ".";
    assert OccursAt(e, "@", 4) && OccursAt(e, ".", 13);
    ContainsIffSlice(e, "@");
    ContainsIffSlice(e, ".");
  }

  /** An address without a '.' is refused. */
  lemma MissingDotIsInvalidEmail()
    ensures !IsValidEmail("test@")
  {
    IsValidEmailIff("test@");
  }

  /** `LoginRequest`. */
  datatype LoginRequest = LoginRequest(email: string, password: string) {

    /** `LoginRequest.Validate`: the first failing check, in the order blank email,
        email shape, blank password, password byte length; Pass when all hold. */
    function Validate(): (r: Outcome)
      ensures r.Pass? <==> !IsBlank(email) && IsValidEmail(email) && !IsBlank(password) && ByteLen(password) >= MinPasswordBytes
      ensures IsBlank(email) ==> r == Fail(ErrEmailRequired)
      ensures !IsBlank(email) && !IsValidEmail(email) ==> r == Fail(ErrEmailFormat)
      ensures !IsBlank(email) && IsValidEmail(email) && IsBlank(password) ==> r == Fail(ErrPasswordRequired)
      ensures !IsBlank(email) && IsValidEmail(email) && !IsBlank(password) && ByteLen(password) < MinPasswordBytes ==> r == Fail(ErrPasswordTooShort)
    {
      if TrimSpace(email) == [] then Fail(ErrEmailRequired)
      else if !IsValidEmail(email) then Fail(ErrEmailFormat)
      else if TrimSpace(password) == [] then Fail(ErrPasswordRequired)
      else if ByteLen(password) < MinPasswordBytes then Fail(ErrPasswordTooShort)
      else Pass
    }
  }

  /** A well-formed address with an ASCII password of exactly 8 characters passes, and
      one character fewer is too short. */
  lemma {:induction false} PasswordLengthBoundary(email: string, password: string)
    requires !IsBlank(email) && IsValidEmail(email)
    requires IsAscii(password) && !IsBlank(password)
    ensures |password| == 8 ==> LoginRequest(email, password).Validate() == Pass
    ensures |password| == 7 ==> LoginRequest(email, password).Validate() == Fail(ErrPasswordTooShort)
  {
    ByteLenAscii(password);
  }
}
