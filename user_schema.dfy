/**
  The user schema: the fields of a user record, their `required`, `trim`,
  `match`, `minlength` and `enum` validators and their defaults, applied the
  way the document library applies them on save: setters (`trim`) first,
  then for every path its validators in order (`required` first), keeping
  the first failure of each path and reporting the failures of all paths.
*/
module UserSchema {
  import opened Wrappers
  import Text
  import Email

  /** The closed set of roles. */
  datatype Role = Admin | ComplianceOfficer | Analyst | Auditor

  /** The string stored for each role. */
  function RoleName(r: Role): string {
    match r
    case Admin => "admin"
    case ComplianceOfficer => "compliance-officer"
    case Analyst => "analyst"
    case Auditor => "auditor"
  }

  /** The `enum` validator: the role a string names, if it names one. */
  function ParseRole(s: string): (r: Option<Role>)
    ensures r.Some? ==> RoleName(r.value) == s
    ensures r.None? ==> forall role: Role :: RoleName(role) != s
  {
    if s == "admin" then Some(Admin)
    else if s == "compliance-officer" then Some(ComplianceOfficer)
    else if s == "analyst" then Some(Analyst)
    else if s == "auditor" then Some(Auditor)
    else None
  }

  /** Every role's name is accepted back as that role. */
  lemma RoleNameRoundTrip(r: Role)
    ensures ParseRole(RoleName(r)) == Some(r)
  {
  }

  const DefaultRole: Role := Analyst
  const DefaultIsActive: bool := true
  const PasswordMinLength: nat := 8

  /** The paths that carry validators. */
  datatype Path = FirstNamePath | LastNamePath | EmailPath | PasswordPath | RolePath

  function PathName(p: Path): string {
    match p
    case FirstNamePath => "firstName"
    case LastNamePath => "lastName"
    case EmailPath => "email"
    case PasswordPath => "password"
    case RolePath => "role"
  }

  /** The messages of the validators, exactly as the schema gives them. */
  const FirstNameRequired: string := "Please provide a first name"
  const LastNameRequired: string := "Please provide a last name"
  /** The email path's `required` message repeats the first-name message. */
  const EmailRequired: string := "Please provide a first name"
  const EmailInvalid: string := "Please provide a valid email"
  const PasswordRequired: string := "Please provide a password"
  const PasswordTooShort: string := "Password must be at least 8 characters"

  /** The document library's own message for a failed `enum` validator. */
  function RoleInvalid(value: string): string {
    "`" + value + "` is not a valid enum value for path `" + PathName(RolePath) + "`."
  }

  datatype FieldError = FieldError(path: Path, message: string)

  /** What a caller submits: every field may be absent. */
  datatype RawUser = RawUser(
    firstName: Option<string>,
    lastName: Option<string>,
    email: Option<string>,
    password: Option<string>,
    role: Option<string>,
    isActive: Option<bool>)

  /** A record that passed validation, with its defaults filled in. */
  datatype UserRecord = UserRecord(
    firstName: string,
    lastName: string,
    email: string,
    password: string,
    role: Role,
    isActive: bool)

  /** What validation guarantees of every record it accepts. */
  predicate Validated(u: UserRecord) {
    && u.firstName != "" && Text.IsTrimmed(u.firstName)
    && u.lastName != "" && Text.IsTrimmed(u.lastName)
    && Email.IsEmail(u.email)
    && |u.password| >= PasswordMinLength
  }

  /** `String` `required` validator: absent and empty strings fail. */
  predicate Present(v: Option<string>) {
    v.Some? && v.value != ""
  }

  /**
    A trimmed, required name path: it passes exactly when something other
    than white space was given, and then holds that trimmed value.
  */
  function CheckName(v: Option<string>, path: Path, required: string): (r: Result<string, FieldError>)
    ensures r.Ok? <==> v.Some? && Text.Trim(v.value) != ""
    ensures r.Ok? ==> r.value == Text.Trim(v.value)
    ensures r.Ok? ==> r.value != "" && Text.IsTrimmed(r.value) && |r.value| <= |v.value|
    ensures r.Err? ==> r.error == FieldError(path, required)
  {
    match v
    case None => Err(FieldError(path, required))
    case Some(s) =>
      var t := Text.Trim(s);
      if t == "" then Err(FieldError(path, required)) else Ok(t)
  }

  /**
    `required`, then `match`; an email is not trimmed. An accepted email is
    the given string; a rejected one reports the first validator it fails.
  */
  function CheckEmail(v: Option<string>): (r: Result<string, FieldError>)
    ensures r.Ok? <==> Present(v) && Email.IsEmail(v.value)
    ensures r.Ok? ==> v == Some(r.value)
    ensures r.Err? ==> r.error.path == EmailPath
    ensures r.Err? ==> (r.error.message == EmailRequired <==> !Present(v))
    ensures r.Err? ==> (r.error.message == EmailInvalid <==> Present(v))
  {
    if !Present(v) then Err(FieldError(EmailPath, EmailRequired))
    else if !Email.IsEmail(v.value) then Err(FieldError(EmailPath, EmailInvalid))
    else Ok(v.value)
  }

  /**
    `required`, then `minlength`: an accepted password is the given string of
    at least 8 characters; a rejected one reports the first validator it fails.
  */
  function CheckPassword(v: Option<string>): (r: Result<string, FieldError>)
    ensures r.Ok? <==> v.Some? && |v.value| >= PasswordMinLength
    ensures r.Ok? ==> v == Some(r.value)
    ensures r.Err? ==> r.error.path == PasswordPath
    ensures r.Err? ==> (r.error.message == PasswordRequired <==> !Present(v))
    ensures r.Err? ==> (r.error.message == PasswordTooShort <==> Present(v))
  {
    if !Present(v) then Err(FieldError(PasswordPath, PasswordRequired))
    else if |v.value| < PasswordMinLength then Err(FieldError(PasswordPath, PasswordTooShort))
    else Ok(v.value)
  }

  /**
    `default`, then `enum`: an absent role becomes `analyst`, a given one must
    be the name of one of the four roles and is stored as that role.
  */
  function CheckRole(v: Option<string>): (r: Result<Role, FieldError>)
    ensures r.Ok? <==> v.None? || v.value in {"admin", "compliance-officer", "analyst", "auditor"}
    ensures r.Ok? ==> RoleName(r.value) == if v.None? then "analyst" else v.value
    ensures r.Err? ==> r.error == FieldError(RolePath, RoleInvalid(v.value))
  {
    match v
    case None => Ok(DefaultRole)
    case Some(s) =>
      match ParseRole(s)
      case None => Err(FieldError(RolePath, RoleInvalid(s)))
      case Some(r) => Ok(r)
  }

  function ErrorOf<T>(r: Result<T, FieldError>): Option<FieldError> {
    if r.Err? then Some(r.error) else None
  }

  /** The first failing validator of a path, if any. */
  function PathError(raw: RawUser, p: Path): (e: Option<FieldError>)
    ensures e.Some? ==> e.value.path == p
  {
    match p
    case FirstNamePath => ErrorOf(CheckName(raw.firstName, FirstNamePath, FirstNameRequired))
    case LastNamePath => ErrorOf(CheckName(raw.lastName, LastNamePath, LastNameRequired))
    case EmailPath => ErrorOf(CheckEmail(raw.email))
    case PasswordPath => ErrorOf(CheckPassword(raw.password))
    case RolePath => ErrorOf(CheckRole(raw.role))
  }

  /** The paths in schema order. */
  const Paths: seq<Path> := [FirstNamePath, LastNamePath, EmailPath, PasswordPath, RolePath]

  function ErrorsAt(raw: RawUser, ps: seq<Path>): seq<FieldError> {
    if ps == [] then []
    else (if PathError(raw, ps[0]).Some? then [PathError(raw, ps[0]).value] else []) + ErrorsAt(raw, ps[1..])
  }

  /** The error of every failing path, in schema order. */
  function Errors(raw: RawUser): seq<FieldError> {
    ErrorsAt(raw, Paths)
  }

  lemma {:induction false} ErrorsAtExact(raw: RawUser, ps: seq<Path>, e: FieldError)
    ensures e in ErrorsAt(raw, ps) <==> e.path in ps && PathError(raw, e.path) == Some(e)
  {
    if ps != [] {
      ErrorsAtExact(raw, ps[1..], e);
      assert ps == [ps[0]] + ps[1..];
    }
  }

  /** Validation reports exactly the failing paths, each with its first failure. */
  lemma ErrorsExact(raw: RawUser, e: FieldError)
    ensures e in Errors(raw) <==> PathError(raw, e.path) == Some(e)
  {
    ErrorsAtExact(raw, Paths, e);
  }

  lemma NoErrors(raw: RawUser)
    ensures Errors(raw) == [] <==> forall p: Path :: PathError(raw, p).None?
  {
    forall p: Path | PathError(raw, p).Some? ensures Errors(raw) != [] {
      ErrorsExact(raw, PathError(raw, p).value);
    }
    if Errors(raw) != [] {
      ErrorsExact(raw, Errors(raw)[0]);
    }
  }

  /**
    Validation of a submitted user. On success the record holds the trimmed
    names, the email and password as given, and the role and activity flag
    defaulted; on failure the error of every failing path is reported.
  */
  function Validate(raw: RawUser): (r: Result<UserRecord, seq<FieldError>>)
    ensures r.Ok? <==> forall p: Path :: PathError(raw, p).None?
    ensures r.Err? ==> r.error == Errors(raw)
    ensures r.Ok? ==> Validated(r.value)
    ensures r.Ok? ==> && raw.firstName.Some? && r.value.firstName == Text.Trim(raw.firstName.value)
                      && raw.lastName.Some? && r.value.lastName == Text.Trim(raw.lastName.value)
                      && raw.email == Some(r.value.email)
                      && raw.password == Some(r.value.password)
                      && RoleName(r.value.role) == (if raw.role.None? then "analyst" else raw.role.value)
                      && r.value.isActive == (if raw.isActive.None? then true else raw.isActive.value)
  {
    NoErrors(raw);
    if Errors(raw) != [] then
      Err(Errors(raw))
    else
      assert PathError(raw, FirstNamePath).None? && PathError(raw, LastNamePath).None?;
      assert PathError(raw, EmailPath).None? && PathError(raw, PasswordPath).None?;
      assert PathError(raw, RolePath).None?;
      Ok(UserRecord(
        Text.Trim(raw.firstName.value),
        Text.Trim(raw.lastName.value),
        raw.email.value,
        raw.password.value,
        CheckRole(raw.role).value,
        if raw.isActive.None? then DefaultIsActive else raw.isActive.value))
  }

  /** Validation accepts exactly the submissions whose every path passes its validators. */
  lemma ValidateAcceptsIff(raw: RawUser)
    ensures Validate(raw).Ok? <==>
      && raw.firstName.Some? && Text.Trim(raw.firstName.value) != ""
      && raw.lastName.Some? && Text.Trim(raw.lastName.value) != ""
      && Present(raw.email) && Email.IsEmail(raw.email.value)
      && Present(raw.password) && |raw.password.value| >= PasswordMinLength
      && (raw.role.None? || raw.role.value in {"admin", "compliance-officer", "analyst", "auditor"})
  {
    assert Validate(raw).Ok? <==>
      && PathError(raw, FirstNamePath).None? && PathError(raw, LastNamePath).None?
      && PathError(raw, EmailPath).None? && PathError(raw, PasswordPath).None?
      && PathError(raw, RolePath).None?;
  }

  /** A rejected submission is reported with the failing path's message. */
  lemma Rejected(raw: RawUser, e: FieldError)
    requires PathError(raw, e.path) == Some(e)
    ensures Validate(raw).Err? && e in Validate(raw).error
  {
    ErrorsExact(raw, e);
  }

  /** Missing or blank names are rejected with their path's message. */
  lemma MissingNameRejected(raw: RawUser)
    ensures raw.firstName.None? || Text.Trim(raw.firstName.value) == "" ==>
              Validate(raw).Err? && FieldError(FirstNamePath, "Please provide a first name") in Validate(raw).error
    ensures raw.lastName.None? || Text.Trim(raw.lastName.value) == "" ==>
              Validate(raw).Err? && FieldError(LastNamePath, "Please provide a last name") in Validate(raw).error
  {
    if raw.firstName.None? || Text.Trim(raw.firstName.value) == "" {
      Rejected(raw, FieldError(FirstNamePath, FirstNameRequired));
    }
    if raw.lastName.None? || Text.Trim(raw.lastName.value) == "" {
      Rejected(raw, FieldError(LastNamePath, LastNameRequired));
    }
  }

  /**
    A missing or empty email is rejected with the first-name message, as the
    schema has it; one that does not match the pattern with its own message.
  */
  lemma BadEmailRejected(raw: RawUser)
    ensures !Present(raw.email) ==>
              Validate(raw).Err? && FieldError(EmailPath, "Please provide a first name") in Validate(raw).error
    ensures Present(raw.email) && !Email.IsEmail(raw.email.value) ==>
              Validate(raw).Err? && FieldError(EmailPath, "Please provide a valid email") in Validate(raw).error
  {
    if !Present(raw.email) {
      Rejected(raw, FieldError(EmailPath, EmailRequired));
    } else if !Email.IsEmail(raw.email.value) {
      Rejected(raw, FieldError(EmailPath, EmailInvalid));
    }
  }

  /** A missing or empty password, or one under eight characters, is rejected. */
  lemma ShortPasswordRejected(raw: RawUser)
    ensures !Present(raw.password) ==>
              Validate(raw).Err? && FieldError(PasswordPath, "Please provide a password") in Validate(raw).error
    ensures Present(raw.password) && |raw.password.value| < 8 ==>
              Validate(raw).Err? && FieldError(PasswordPath, "Password must be at least 8 characters") in Validate(raw).error
  {
    if !Present(raw.password) {
      Rejected(raw, FieldError(PasswordPath, PasswordRequired));
    } else if |raw.password.value| < 8 {
      Rejected(raw, FieldError(PasswordPath, PasswordTooShort));
    }
  }

  /** A role outside the four is rejected; an absent one becomes `analyst`. */
  lemma RoleOutsideSetRejected(raw: RawUser)
    ensures raw.role.Some? && raw.role.value !in {"admin", "compliance-officer", "analyst", "auditor"} ==>
              Validate(raw).Err? && FieldError(RolePath, RoleInvalid(raw.role.value)) in Validate(raw).error
    ensures raw.role.None? && Validate(raw).Ok? ==> Validate(raw).value.role == Analyst
  {
    if raw.role.Some? && raw.role.value !in {"admin", "compliance-officer", "analyst", "auditor"} {
      Rejected(raw, FieldError(RolePath, RoleInvalid(raw.role.value)));
    }
  }

  /** The role "manager" is outside the set. */
  lemma ManagerRoleRejected(raw: RawUser)
    requires raw.role == Some("manager")
    ensures Validate(raw).Err?
    ensures FieldError(RolePath, RoleInvalid("manager")) in Validate(raw).error
  {
    RoleOutsideSetRejected(raw);
  }

  /** The address "not-an-email" fails the pattern. */
  lemma SampleAddressRejected(raw: RawUser)
    requires raw.email == Some("not-an-email")
    ensures Validate(raw).Err?
    ensures FieldError(EmailPath, "Please provide a valid email") in Validate(raw).error
  {
    Email.SampleRejected();
    BadEmailRejected(raw);
  }

  /** Each path of the sample submission below passes its validators. */
  lemma SamplePathsPass(raw: RawUser)
    requires raw == RawUser(Some("Ada"), Some("Lovelace"), Some("a@b.co"), Some("analytical"), None, None)
    ensures forall p: Path :: PathError(raw, p).None?
    ensures CheckName(raw.firstName, FirstNamePath, FirstNameRequired) == Ok("Ada")
    ensures CheckName(raw.lastName, LastNamePath, LastNameRequired) == Ok("Lovelace")
  {
    assert Text.Trim("Ada") == "Ada" by { Text.TrimTrimmed("Ada"); }
    assert Text.Trim("Lovelace") == "Lovelace" by { Text.TrimTrimmed("Lovelace"); }
    assert Email.IsEmail("a@b.co") by { Email.SampleAccepted(); }
  }

  /** A complete submission with the address "a@b.co" is accepted, with its defaults. */
  lemma SampleAddressAccepted()
    ensures Validate(RawUser(Some("Ada"), Some("Lovelace"), Some("a@b.co"), Some("analytical"), None, None))
         == Ok(UserRecord("Ada", "Lovelace", "a@b.co", "analytical", Analyst, true))
  {
    var raw := RawUser(Some("Ada"), Some("Lovelace"), Some("a@b.co"), Some("analytical"), None, None);
    SamplePathsPass(raw);
    var r := Validate(raw);
    assert RoleName(r.value.role) == "analyst";
  }
}
