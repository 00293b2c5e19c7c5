/**
  The part of `getSignedJwtToken` that this code decides: the claims put
  into the token, the signing key taken from `JWT_SECRET` and the expiry
  horizon taken from `JWT_EXPIRE`. Producing and signing the token is the
  signing library's work and stays outside the model.
*/
module SessionToken {
  import opened Wrappers
  import opened Identity
  import opened UserSchema

  /** The environment the method reads, passed in explicitly. */
  datatype Config = Config(jwtSecret: Option<string>, jwtExpire: Option<string>)

  /** The horizon used when `JWT_EXPIRE` is unset or empty. */
  const DefaultExpire: string := "3600"

  /** `value || fallback` on an environment variable: unset and empty both fall back. */
  function OrElse(v: Option<string>, fallback: string): (r: string)
    ensures (v.None? || v == Some("")) ==> r == fallback
    ensures v.Some? && v.value != "" ==> r == v.value
  {
    if v.Some? && v.value != "" then v.value else fallback
  }

  predicate IsDigit(c: char) {
    '0' <= c <= '9'
  }

  predicate AllDigits(s: string) {
    forall i :: 0 <= i < |s| ==> IsDigit(s[i])
  }

  /** The number a string of decimal digits denotes, most significant digit first. */
  function DigitsValue(s: string): nat
    requires AllDigits(s)
  {
    if s == [] then 0
    else 10 * DigitsValue(s[..|s| - 1]) + (s[|s| - 1] as int - '0' as int)
  }

  /** A numeral written without leading zeros. */
  predicate Canonical(s: string) {
    s != [] && AllDigits(s) && (|s| == 1 || s[0] != '0')
  }

  /** A numeral with its leading zeros dropped, keeping the last digit. */
  function StripLeadingZeros(s: string): (t: string)
    ensures |t| <= |s| && t == s[|s| - |t|..]
    ensures s != [] ==> t != []
  {
    if |s| > 1 && s[0] == '0' then StripLeadingZeros(s[1..]) else s
  }

  /**
    `parseInt` restricted to strings of decimal digits; any other string is
    refused rather than parsed the way JavaScript would. The number a
    numeral gives is the one whose shortest numeral is the given one with
    its leading zeros dropped.
  */
  function ParseDecimal(s: string): (r: Option<nat>)
    ensures r.Some? <==> s != [] && AllDigits(s)
    ensures r.Some? ==> DecimalString(r.value) == StripLeadingZeros(s)
  {
    if s != [] && AllDigits(s) then
      StripZerosKeepsValue(s);
      NumeralRoundTrip(StripLeadingZeros(s));
      Some(DigitsValue(s))
    else None
  }

  /** A leading zero does not change the number a numeral denotes. */
  lemma {:induction false} LeadingZeroValue(s: string)
    requires |s| > 1 && AllDigits(s) && s[0] == '0'
    ensures DigitsValue(s) == DigitsValue(s[1..])
    decreases |s|
  {
    var front := s[..|s| - 1];
    assert s[1..][..|s| - 2] == front[1..];
    if |front| > 1 {
      LeadingZeroValue(front);
    }
  }

  /** Dropping leading zeros gives a canonical numeral with the same value. */
  lemma {:induction false} StripZerosKeepsValue(s: string)
    requires s != [] && AllDigits(s)
    ensures Canonical(StripLeadingZeros(s))
    ensures DigitsValue(StripLeadingZeros(s)) == DigitsValue(s)
    decreases |s|
  {
    if |s| > 1 && s[0] == '0' {
      LeadingZeroValue(s);
      StripZerosKeepsValue(s[1..]);
    }
  }

  /** A numeral that starts with a non-zero digit denotes at least 1. */
  lemma {:induction false} LeadingDigitPositive(s: string)
    requires s != [] && AllDigits(s) && s[0] != '0'
    ensures DigitsValue(s) >= 1
  {
    if |s| > 1 {
      LeadingDigitPositive(s[..|s| - 1]);
    }
  }

  /** A canonical numeral is the shortest numeral of the number it denotes. */
  lemma {:induction false} NumeralRoundTrip(s: string)
    requires Canonical(s)
    ensures DecimalString(DigitsValue(s)) == s
  {
    var n := DigitsValue(s);
    var d := s[|s| - 1] as int - '0' as int;
    if |s| > 1 {
      var front := s[..|s| - 1];
      assert Canonical(front);
      NumeralRoundTrip(front);
      LeadingDigitPositive(front);
      assert n / 10 == DigitsValue(front) && n % 10 == d;
      assert s == front + [s[|s| - 1]];
    }
  }

  /** The shortest decimal numeral of n. */
  function DecimalString(n: nat): (s: string)
    ensures s != [] && AllDigits(s)
  {
    var last := ('0' as int + n % 10) as char;
    if n < 10 then [last] else DecimalString(n / 10) + [last]
  }

  /** The shortest numeral of n denotes n. */
  lemma {:induction false} DecimalStringValue(n: nat)
    ensures DigitsValue(DecimalString(n)) == n
  {
    var s := DecimalString(n);
    if n >= 10 {
      DecimalStringValue(n / 10);
      assert s[..|s| - 1] == DecimalString(n / 10);
      assert DigitsValue(s) == 10 * (n / 10) + n % 10;
    }
  }

  lemma DecimalRoundTrip(n: nat)
    ensures ParseDecimal(DecimalString(n)) == Some(n)
  {
    DecimalStringValue(n);
  }

  /** The claims `{id, role}` the token carries. */
  datatype Claims = Claims(id: string, role: string)

  /** What is handed to the signing library: payload, key and `expiresIn` in seconds. */
  datatype SignRequest = SignRequest(payload: Claims, secret: string, expiresIn: nat)

  datatype TokenError = ExpiryNotDecimal(value: string)

  /** The signing call `getSignedJwtToken` makes for a user with this identifier and role. */
  function SignRequestFor(cfg: Config, id: ObjectId, role: Role): (r: Result<SignRequest, TokenError>)
    ensures r.Ok? ==> r.value.payload == Claims(IdString(id), RoleName(role))
    ensures r.Ok? ==> r.value.secret == OrElse(cfg.jwtSecret, "")
    ensures r.Ok? <==> ParseDecimal(OrElse(cfg.jwtExpire, DefaultExpire)).Some?
    ensures r.Ok? ==> r.value.expiresIn == ParseDecimal(OrElse(cfg.jwtExpire, DefaultExpire)).value
    ensures r.Err? ==> r.error == ExpiryNotDecimal(OrElse(cfg.jwtExpire, DefaultExpire))
  {
    var expire := OrElse(cfg.jwtExpire, DefaultExpire);
    match ParseDecimal(expire)
    case None => Err(ExpiryNotDecimal(expire))
    case Some(seconds) =>
      Ok(SignRequest(Claims(IdString(id), RoleName(role)), OrElse(cfg.jwtSecret, ""), seconds))
  }

  /** Without `JWT_EXPIRE` (or with it empty) the token expires after 3600 seconds. */
  lemma DefaultHorizon(cfg: Config, id: ObjectId, role: Role)
    requires cfg.jwtExpire.None? || cfg.jwtExpire == Some("")
    ensures SignRequestFor(cfg, id, role).Ok?
    ensures SignRequestFor(cfg, id, role).value.expiresIn == 3600
  {
    DecimalRoundTrip(3600);
    assert DecimalString(3600) == "3600";
  }

  /** A configured horizon of n seconds, written in decimal, is the one used. */
  lemma ConfiguredHorizon(cfg: Config, id: ObjectId, role: Role, n: nat)
    requires cfg.jwtExpire == Some(DecimalString(n))
    ensures SignRequestFor(cfg, id, role).Ok?
    ensures SignRequestFor(cfg, id, role).value.expiresIn == n
  {
    DecimalRoundTrip(n);
  }

  /**
    The claims identify the user: the role reads back as the record's role,
    and two users whose claims agree have the same identifier and role.
  */
  lemma ClaimsIdentifyUser(cfg: Config, id1: ObjectId, role1: Role, id2: ObjectId, role2: Role)
    requires SignRequestFor(cfg, id1, role1).Ok? && SignRequestFor(cfg, id2, role2).Ok?
    requires SignRequestFor(cfg, id1, role1).value.payload == SignRequestFor(cfg, id2, role2).value.payload
    ensures id1 == id2 && role1 == role2
  {
    IdStringInjective(id1, id2);
    RoleNameRoundTrip(role1);
    RoleNameRoundTrip(role2);
  }

  /**
    Without `JWT_SECRET` (or with it empty) the signing key is the empty
    string: the defect the code leaves in place, exposed here as a case.
  */
  predicate SignsWithEmptyKey(cfg: Config) {
    OrElse(cfg.jwtSecret, "") == ""
  }

  lemma EmptyKeyWhenUnset(cfg: Config)
    ensures SignsWithEmptyKey(cfg) <==> cfg.jwtSecret.None? || cfg.jwtSecret == Some("")
  {
  }
}
