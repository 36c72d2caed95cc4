/** The user serializers of the Django backend: registration (matching
    passwords, then account creation), login (credentials present, then
    authenticated, then active), profile field validators, and password
    change. The framework's password strength validators, `authenticate`
    and `check_password` are parameters. */
module UserSerializers {
  import opened Wrappers
  import opened Text
  import opened UserModels
  import opened BlogSerializers

  const PasswordMismatch: string := "Password fields didn't match."
  const MissingCredentials: string := "Must include \"email\" and \"password\"."
  const BadCredentials: string := "Invalid email or password."
  const AccountDisabled: string := "User account is disabled."
  const NameTooShort: string := "Name must be at least 2 characters long."
  const BioTooLong: string := "Bio cannot exceed 500 characters."
  const OldPasswordWrong: string := "Old password is not correct."
  const MaxBio: nat := 500

  /** The registration body. */
  datatype Registration = Registration(email: string, name: string, password: string, password2: string)

  /** Field errors of a password strength check: one entry per message. */
  function PasswordErrors(field: string, messages: seq<string>): (errs: seq<FieldError>)
    ensures |errs| == |messages|
    ensures forall i | 0 <= i < |errs| :: errs[i] == FieldError(field, messages[i])
  {
    if messages == [] then [] else [FieldError(field, messages[0])] + PasswordErrors(field, messages[1..])
  }

  /** Registration validation: the password's strength check runs first, as
      a field validator; only a body that passes it reaches `validate`,
      which refuses two different passwords with an error keyed
      "password". */
  function ValidateRegistration(body: Registration, strength: string -> seq<string>): (r: Result<Registration>)
    ensures r.Ok? <==> strength(body.password) == [] && body.password == body.password2
    ensures r.Ok? ==> r.value == body
    ensures strength(body.password) == [] && body.password != body.password2 ==>
      r == Err(FieldInvalid("password", PasswordMismatch))
    ensures strength(body.password) != [] ==> r == Err(Invalid(PasswordErrors("password", strength(body.password))))
  {
    var weak := strength(body.password);
    if weak != [] then Err(Invalid(PasswordErrors("password", weak)))
    else if body.password != body.password2 then Err(FieldInvalid("password", PasswordMismatch))
    else Ok(body)
  }

  /** Registration `create`: the confirmation is dropped and the account is
      created from the email, the name and the password only, as an
      ordinary (not staff, not superuser, active) user. */
  method CreateRegistered(users: UserTable, body: Registration, normalize: string -> string, hash: Option<string> -> string)
    returns (r: Result<User>)
    requires users.Valid()
    modifies users
    ensures users.Valid()
    ensures r.Ok? ==>
      && r.value.email == normalize(body.email) && r.value.name == body.name
      && r.value.passwordHash == hash(Some(body.password))
      && !r.value.isStaff && !r.value.isSuperuser && r.value.isActive
      && users.users == old(users.users) + [r.value]
    ensures body.email == "" ==> r == Err(ValueError(EmailRequired))
    ensures body.email != "" ==> (r.Ok? <==> !EmailTaken(old(users.users), normalize(body.email)))
    ensures r.Err? && body.email != "" ==> r == Err(Conflict("email"))
    ensures r.Err? ==> users.users == old(users.users)
  {
    r := users.CreateUser(body.email, body.name, Some(body.password), NoExtraFields, normalize, hash);
  }

  /** Login `validate`: a missing (empty) email or password is refused
      before any authentication; then unknown credentials; then a disabled
      account. `authenticate` answers the account the credentials belong
      to, if any. Success hands the account on. */
  function ValidateLogin(email: string, password: string, authenticate: (string, string) -> Option<User>): (r: Result<User>)
    ensures email == "" || password == "" ==> r == Err(FieldInvalid(NonFieldErrors, MissingCredentials))
    ensures email != "" && password != "" && authenticate(email, password).None? ==>
      r == Err(FieldInvalid(NonFieldErrors, BadCredentials))
    ensures email != "" && password != "" && authenticate(email, password).Some? && !authenticate(email, password).value.isActive ==>
      r == Err(FieldInvalid(NonFieldErrors, AccountDisabled))
    ensures r.Ok? ==> authenticate(email, password) == Some(r.value) && r.value.isActive
  {
    if email != "" && password != "" then
      var user := authenticate(email, password);
      if user.None? then Err(FieldInvalid(NonFieldErrors, BadCredentials))
      else if !user.value.isActive then Err(FieldInvalid(NonFieldErrors, AccountDisabled))
      else Ok(user.value)
    else
      Err(FieldInvalid(NonFieldErrors, MissingCredentials))
  }

  /** With a credential missing, the outcome does not depend on the
      authentication backend at all: it is never consulted. */
  lemma MissingCredentialsNeverAuthenticate(email: string, password: string,
                                            a: (string, string) -> Option<User>, b: (string, string) -> Option<User>)
    requires email == "" || password == ""
    ensures ValidateLogin(email, password, a) == ValidateLogin(email, password, b)
  {
  }

  /** `validate_name` of the profile update. */
  function ValidateName(value: string): (r: Result<string>)
    ensures r.Ok? <==> |Trim(value)| >= 2
    ensures r.Ok? ==> r.value == Trim(value)
    ensures r.Err? ==> r.error == FieldInvalid("name", NameTooShort)
  {
    MinTrimmed("name", value, 2, NameTooShort)
  }

  /** `validate_bio`: at most 500 characters, counted as sent; an accepted
      bio is returned untouched, whitespace included. */
  function ValidateBio(value: string): (r: Result<string>)
    ensures r.Err? <==> |value| > MaxBio
    ensures r.Ok? ==> r.value == value
    ensures r.Err? ==> r.error == FieldInvalid("bio", BioTooLong)
  {
    if value != "" && |value| > MaxBio then Err(FieldInvalid("bio", BioTooLong)) else Ok(value)
  }

  /** `validate_old_password`: the current password must check against
      the stored hash. */
  function ValidateOldPassword(value: string, checkPassword: string -> bool): (r: Result<string>)
    ensures r.Ok? <==> checkPassword(value)
    ensures r.Ok? ==> r.value == value
    ensures r.Err? ==> r.error == FieldInvalid("old_password", OldPasswordWrong)
  {
    if checkPassword(value) then Ok(value) else Err(FieldInvalid("old_password", OldPasswordWrong))
  }

  /** The password change body. */
  datatype PasswordChange = PasswordChange(oldPassword: string, newPassword: string, newPassword2: string)

  /** Password change validation: the field validators (old password
      check, new password strength) run first and their errors are
      reported together; only then does `validate` refuse two different
      new passwords, keyed "new_password". */
  function ValidatePasswordChange(body: PasswordChange, checkPassword: string -> bool, strength: string -> seq<string>)
    : (r: Result<PasswordChange>)
    ensures r.Ok? <==>
      checkPassword(body.oldPassword) && strength(body.newPassword) == [] && body.newPassword == body.newPassword2
    ensures r.Ok? ==> r.value == body
    ensures checkPassword(body.oldPassword) && strength(body.newPassword) == [] && body.newPassword != body.newPassword2 ==>
      r == Err(FieldInvalid("new_password", PasswordMismatch))
    ensures !checkPassword(body.oldPassword) ==>
      r.Err? && r.error.Invalid? && FieldError("old_password", OldPasswordWrong) in r.error.errors
  {
    var current := ValidateOldPassword(body.oldPassword, checkPassword);
    var weak := strength(body.newPassword);
    if current.Err? || weak != [] then
      Err(Invalid(ErrorsOf(current) + PasswordErrors("new_password", weak)))
    else if body.newPassword != body.newPassword2 then
      Err(FieldInvalid("new_password", PasswordMismatch))
    else Ok(body)
  }
}
