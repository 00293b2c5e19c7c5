# User credential record of the verifi AML/KYC backend, in Dafny

The backend's only behaviour is its user record, `server/src/models/user.model.ts`.
This project models three parts of it and proves properties about each:

* **Validation and defaults** of the schema (`firstName`, `lastName`, `email`, `password`, `role`, `isActive`).
  Names are trimmed and required. The email is required and must match
  `^\w+([.-]?\w+)*@\w+([.-]?\w+)*(\.\w{2,3})+$`, written here as recursive predicates (`Email` module).
  The password is required and at least 8 characters long. The role is one of four values and defaults to `analyst`.
  `isActive` defaults to `true`.
  `UserSchema.Validate` follows the document library's order. Setters (`trim`) run first. Each path's validators then
  run in order (`required` first), and the first failure of every path is reported.
* **The `pre("save")` hook and `matchPassword`**. `PasswordHook.UserDocument` is a class with the record's fields and a
  modified flag for the password path. `PreSave` leaves an unmodified password alone and replaces a modified one by
  `hash(plaintext, salt)`. `PrepareForStorage` is the same step on values, taking an explicit
  `Unchanged(hash)` / `NewPlaintext(p)` input.
  bcrypt stays abstract: a `Crypto.Scheme` is any pair of `hash` and `compare` functions. The property that
  `compare(p, hash(p, s))` holds is the hypothesis `Crypto.Sound`, not an axiom. For the `2a` and `2b` salts
  `genSalt` produces, bcrypt hashes a 72-byte Blowfish key (`Crypto.Key`). The key is the plaintext's UTF-8 bytes
  (the encoder is in the `Bytes` module), then one zero byte, repeated until 72 bytes are filled. So the optional
  hypothesis `Discriminating` says only that a candidate with a different key is refused, and `Truncating` says
  the hash depends on the plaintext only through its key. The refusal of an extended short password rests on
  `Crypto.KeyDiffersAtEnd`. Where a shorter plaintext's key holds its zero terminator, the extended plaintext's key
  holds the first byte of the suffix, and only U+0000 encodes to a zero byte. A suffix that starts with U+0000 can
  therefore share the key: a 71-byte password and the same password followed by U+0000 do
  (`Crypto.NulTerminatorCollision`). Without U+0000, equal keys are the same thing as equal first 72 bytes
  (`Crypto.Significant`, `Crypto.KeyDeterminesSignificant`). A third hypothesis, `SaltSensitive`, supports the "different salts differ" lemma. Salts
  have the canonical form `genSalt(10)` produces (`Crypto.IsSalt`), in which distinct salt strings are distinct
  salts. `Crypto.Transparent` is a scheme in bcrypt's layout that meets all four hypotheses, which shows they are
  consistent.
* **Token claims and expiry** from `getSignedJwtToken`. `SessionToken.SignRequestFor` builds the request handed to the
  signing library: payload `{id: _id.toString(), role}`, key `JWT_SECRET || ""`, and
  `expiresIn: parseInt(JWT_EXPIRE || "3600")`. The environment is an explicit `Config`.

The salt is a parameter: it stands for what `bcrypt.genSalt(10)` draws at random.

Three points of the code's behaviour that are easy to miss are kept as written:
* The email path's `required` message is "Please provide a first name", the same text as the first-name message.
* JavaScript's `||` makes an empty `JWT_EXPIRE` or `JWT_SECRET` fall back the same way an unset one does.
* The hook does not clear the modified flag. It is the document library that counts no path as modified after a write
  (`UserDocument.MarkSaved`). That is what makes re-saving an untouched document a no-op.

## Model

| member | source | states |
|---|---|---|
| Text.TrimStartSpec | server/src/models/user.model.ts:29 | trimming the front removes exactly the leading white space and leaves a string that does not start with white space |
| Text.TrimEndSpec | server/src/models/user.model.ts:34 | trimming the back removes exactly the trailing white space and leaves a string that does not end with white space |
| Text.Trim | server/src/models/user.model.ts:29 | a trimmed name has no white space at either end and is no longer than the given one |
| Text.TrimKeepsMiddle | server/src/models/user.model.ts:29 | trim keeps a contiguous middle slice of its input and removes only white space around it |
| Text.TrimIdempotent | server/src/models/user.model.ts:34 | trimming twice gives the same result as trimming once |
| Email.IsEmail | server/src/models/user.model.ts:40-43 | every accepted email has at least six characters and starts with a word character |
| Email.DottedChars | server/src/models/user.model.ts:41 | a `\w+([.-]?\w+)*` string starts and ends with a word character and holds only word characters, `.` and `-` |
| Email.DottedNoDoubleSeparator | server/src/models/user.model.ts:41 | a `\w+([.-]?\w+)*` string never holds two separators in a row |
| Email.CollapseChain | server/src/models/user.model.ts:41 | a dotted name followed by `(\.\w{2,3})+` is a dotted name, a dot and one final two- or three-character label |
| Email.PatternIffShape | server/src/models/user.model.ts:40-43 | the pattern accepts a string if and only if it is a dotted local part, `@`, a dotted domain, `.` and a 2–3 character label |
| Email.AcceptedHasOneAt | server/src/models/user.model.ts:41 | every accepted email contains exactly one `@` |
| Email.AcceptedEdges | server/src/models/user.model.ts:41 | in an accepted email the local part and the domain begin and end with a word character, never `.` or `-` |
| Email.AcceptedEndsWithTld | server/src/models/user.model.ts:41 | every accepted email ends in `.` followed by two or three word characters |
| Email.SampleAccepted | server/src/models/user.model.ts:40-43 | "a@b.co" matches the pattern |
| Email.SampleRejected | server/src/models/user.model.ts:40-43 | "not-an-email" does not match the pattern |
| UserSchema.ParseRole | server/src/models/user.model.ts:51-55 | the enum check accepts exactly the four role names and returns the role each one names |
| UserSchema.RoleNameRoundTrip | server/src/models/user.model.ts:53 | every role's stored name reads back as that role |
| UserSchema.CheckName | server/src/models/user.model.ts:26-35 | a name path passes exactly when its value is present and not blank after trimming; it then holds the non-empty trimmed value, and otherwise fails with the path's `required` message |
| UserSchema.CheckEmail | server/src/models/user.model.ts:36-44 | the email path passes exactly when a non-empty value matches the pattern, and then holds that value unchanged; an absent or empty value fails with "Please provide a first name", a non-matching one with "Please provide a valid email" |
| UserSchema.CheckPassword | server/src/models/user.model.ts:45-48 | the password path passes exactly when a value of at least 8 characters is given, and then holds it unchanged; an absent or empty value fails with "Please provide a password", a short one with "Password must be at least 8 characters" |
| UserSchema.CheckRole | server/src/models/user.model.ts:51-55 | the role path passes exactly when it is absent or one of the four names; the stored role's name is the given one or `analyst`, and a rejection carries the enum message for the given value |
| UserSchema.PathError | server/src/models/user.model.ts:24-59 | the error reported for a path is tagged with that path |
| UserSchema.ErrorsExact | server/src/models/user.model.ts:24-67 | a validation error is reported if and only if it is the first failure of its path |
| UserSchema.Validate | server/src/models/user.model.ts:24-67 | accepted iff no path fails; an accepted record has non-empty trimmed names, a matching email, a password of at least 8 characters, the given email and password, the given role or `analyst`, the given flag or `true`; a rejection lists every failing path |
| UserSchema.ValidateAcceptsIff | server/src/models/user.model.ts:24-59 | a submission is accepted iff both names are non-empty after trimming, the email is present and matches, the password has at least 8 characters, and the role is absent or one of the four |
| UserSchema.Rejected | server/src/models/user.model.ts:24-67 | a path's failure makes validation fail and appears among its errors |
| UserSchema.MissingNameRejected | server/src/models/user.model.ts:26-35 | a missing or blank first or last name is rejected with "Please provide a first name" / "Please provide a last name" |
| UserSchema.BadEmailRejected | server/src/models/user.model.ts:36-44 | a missing or empty email is rejected with the message "Please provide a first name"; a non-matching one with "Please provide a valid email" |
| UserSchema.ShortPasswordRejected | server/src/models/user.model.ts:45-48 | a missing or empty password is rejected with "Please provide a password"; one of 1–7 characters with "Password must be at least 8 characters" |
| UserSchema.RoleOutsideSetRejected | server/src/models/user.model.ts:51-55 | a role outside {admin, compliance-officer, analyst, auditor} is rejected; an absent role becomes `analyst` |
| UserSchema.ManagerRoleRejected | server/src/models/user.model.ts:51-55 | the role "manager" is rejected |
| UserSchema.SampleAddressRejected | server/src/models/user.model.ts:40-43 | a submission with the email "not-an-email" is rejected with "Please provide a valid email" |
| UserSchema.SamplePathsPass | server/src/models/user.model.ts:24-59 | every path of the sample submission with the email "a@b.co" passes, and both names are kept as given |
| UserSchema.SampleAddressAccepted | server/src/models/user.model.ts:24-67 | a complete submission with the email "a@b.co" and no role or flag is accepted with role `analyst` and `isActive` true |
| Identity.IdString | server/src/models/user.model.ts:94 | the string form of an identifier is 24 hexadecimal digits that read back as the identifier |
| Identity.HexRoundTrip | server/src/models/user.model.ts:94 | the hexadecimal form of an identifier reads back as the identifier |
| Identity.IdStringInjective | server/src/models/user.model.ts:94 | distinct identifiers have distinct string forms |
| SessionToken.OrElse | server/src/models/user.model.ts:97-99 | an unset or empty variable gives the fallback; any other value is used as it is |
| SessionToken.ParseDecimal | server/src/models/user.model.ts:99 | a value parses exactly when it is a non-empty string of decimal digits, and the number it gives is the one whose shortest numeral is the value with its leading zeros dropped |
| SessionToken.LeadingZeroValue | server/src/models/user.model.ts:99 | a leading zero does not change the number a numeral denotes |
| SessionToken.StripZerosKeepsValue | server/src/models/user.model.ts:99 | dropping the leading zeros of a numeral gives a numeral without leading zeros that denotes the same number |
| SessionToken.DecimalStringValue | server/src/models/user.model.ts:99 | the shortest numeral of n denotes n |
| SessionToken.NumeralRoundTrip | server/src/models/user.model.ts:99 | a numeral without leading zeros is the printed form of the number it denotes |
| SessionToken.DecimalRoundTrip | server/src/models/user.model.ts:99 | the decimal numeral of n parses back to n |
| SessionToken.SignRequestFor | server/src/models/user.model.ts:91-101 | the payload is `{id: the identifier's string form, role: the role's name}`; the key is `JWT_SECRET` or ""; `expiresIn` is the parsed `JWT_EXPIRE`, or 3600 when it is unset or empty; a non-decimal value is refused |
| SessionToken.DefaultHorizon | server/src/models/user.model.ts:99 | without `JWT_EXPIRE` the token expires after 3600 seconds |
| SessionToken.ConfiguredHorizon | server/src/models/user.model.ts:99 | a configured horizon of n seconds is the one used |
| SessionToken.ClaimsIdentifyUser | server/src/models/user.model.ts:93-96 | two users whose claims agree have the same identifier and role |
| SessionToken.EmptyKeyWhenUnset | server/src/models/user.model.ts:97 | the signing key is empty exactly when `JWT_SECRET` is unset or empty |
| Bytes.Utf8Append | server/src/models/user.model.ts:78 | the UTF-8 encoding of a concatenation is the concatenation of the encodings |
| Bytes.Utf8NoZero | server/src/models/user.model.ts:78 | a string without U+0000 encodes without a zero byte |
| Crypto.Significant | server/src/models/user.model.ts:78 | the first 72 bytes of a plaintext's UTF-8 encoding, or all of it when shorter |
| Crypto.Key | server/src/models/user.model.ts:77-78 | the key bcrypt expands for a `2a`/`2b` salt is 72 bytes long; it begins with the plaintext's UTF-8 bytes, followed after a shorter plaintext by the zero terminator, and from then on it repeats those bytes and the terminator |
| Crypto.SignificantDeterminesKey | server/src/models/user.model.ts:78 | plaintexts with the same first 72 bytes have the same key |
| Crypto.KeyDiffersAtEnd | server/src/models/user.model.ts:78 | appending a suffix that does not start with U+0000 to a plaintext shorter than 72 bytes changes its key |
| Crypto.KeyDeterminesSignificant | server/src/models/user.model.ts:78 | plaintexts without U+0000 that have the same key have the same first 72 bytes |
| Crypto.NulTerminatorCollision | server/src/models/user.model.ts:78 | a 71-byte plaintext and the same plaintext followed by U+0000 have the same key but different first 72 bytes |
| Crypto.AppendedSignificant | server/src/models/user.model.ts:78 | appending to a plaintext of at least 72 bytes leaves its first 72 bytes unchanged; appending to a shorter one changes them |
| Crypto.TransparentSatisfiesHypotheses | server/src/models/user.model.ts:77-78 | some scheme is sound, discriminating, truncating and salt-sensitive at once |
| PasswordHook.PrepareForStorage | server/src/models/user.model.ts:71-80 | an unmodified password is written back unchanged, whatever the salt; a new plaintext is replaced by a hash that a sound scheme matches with it |
| PasswordHook.MatchPassword | server/src/models/user.model.ts:84-88 | under a sound scheme a hash of the entered plaintext matches it; under a discriminating one a hash of a plaintext whose key differs from the entered one's does not |
| PasswordHook.StoredPasswordMatches | server/src/models/user.model.ts:77-88 | after the hook has run on plaintext p, `matchPassword(p)` returns true |
| PasswordHook.OtherPasswordRefused | server/src/models/user.model.ts:84-88 | for a discriminating scheme, `matchPassword(q)` returns false for any q whose key differs from the saved plaintext's |
| PasswordHook.ExtendedShortPasswordRefused | server/src/models/user.model.ts:77-88 | for a discriminating scheme, a password shorter than 72 bytes no longer matches once a suffix that does not start with U+0000 is appended to it |
| PasswordHook.NulAfterShortPasswordAccepted | server/src/models/user.model.ts:77-88 | for a sound, truncating scheme, a 71-byte password still matches with U+0000 appended |
| PasswordHook.ExtendedLongPasswordAccepted | server/src/models/user.model.ts:77-88 | for a sound, truncating scheme, a password of 72 bytes or more still matches with anything appended to it |
| PasswordHook.SaltsSeparateHashes | server/src/models/user.model.ts:77-78 | for a salt-sensitive scheme, saving one plaintext under two salts stores two different hashes |
| PasswordHook.UserDocument.constructor | server/src/models/user.model.ts:7-16 | a new document holds the validated record, and its password path counts as a newly set plaintext |
| PasswordHook.UserDocument.Loaded | server/src/models/user.model.ts:7-16 | a loaded document holds the stored record, and its password path counts as an unchanged hash |
| PasswordHook.UserDocument.SetPassword | server/src/models/user.model.ts:73 | assigning the password changes only that field; it marks the path modified unless the path was unmodified and is given back the value it holds |
| PasswordHook.UserDocument.PreSave | server/src/models/user.model.ts:71-80 | an unmodified password leaves the whole record unchanged; otherwise the password becomes `hash(previous plaintext, salt)` and no other field changes |
| PasswordHook.UserDocument.MarkSaved | server/src/models/user.model.ts:73 | after a write the password path counts as an unchanged hash |
| PasswordHook.UserDocument.Match | server/src/models/user.model.ts:84-88 | `matchPassword` is exactly `compare(entered, stored password)` |
| PasswordHook.RegisterThenLogIn | server/src/models/user.model.ts:71-88 | a validated submission saved once stores `hash(plaintext, salt)`, the password after a second untouched save is that same hash, and its plaintext then matches |

## Left out

- `server/src/server.ts`: the HTTP bootstrap, middleware and health-check route are I/O plumbing.
- `server/types/env/d.ts`: type declarations only, with no behaviour.
- Salt generation and the bcrypt algorithm: the salt is a parameter, and `hash` and `compare` are abstract functions. The work factor 10 only appears in the salt's format.
- JWT signing, the `iat`/`exp` claims the library adds, and signature verification: these are library calls. The model stops at the payload, key and `expiresIn` passed to `jwt.sign`.
- What the signing library does with an empty key: the model only exposes that case (`SessionToken.SignsWithEmptyKey`).
- SessionToken.ParseDecimal: accepts decimal digit strings only. JavaScript's `parseInt` also skips leading white space, takes a sign, stops at the first non-digit and gives `NaN`. Here any non-digit string is an error.
- SessionToken.ParseDecimal: `parseInt` returns a double-precision number, so values above 2^53 lose precision. `DigitsValue` is exact.
- `select: false` on the password path (user.model.ts:49): a default query loads a document without its password, and `compare` then fails on the missing hash. `UserDocument.Loaded` always holds the stored password, as a query that selects it would.
- Email.IsEmail: the model gives the language the pattern accepts, not the cost of matching it. The nested repetition `\w+([.-]?\w+)*` can make a backtracking matcher take exponential time on some inputs.
- ExtendedShortPasswordRefused: promises nothing for a suffix that starts with U+0000. Such a suffix can be accepted, because it can reproduce the zero terminator and the repetition of the key; `NulAfterShortPasswordAccepted` shows one such case.
- Hash collisions of Blowfish itself: `Discriminating` assumes that different keys give different hashes under one salt.
- Email uniqueness (`unique: true`): a database index enforces it, not this code.
- `timestamps` (`createdAt`, `updatedAt`) and `lastLogin`: these depend on the clock and on persistence.
- Casting of non-string values into string paths, and the document library's handling of `null` as opposed to an absent value: submissions here are strings or absent.
- Lengths count Dafny characters, which are Unicode scalar values, while JavaScript counts UTF-16 code units. The two differ only for characters outside the Basic Multilingual Plane.
- The `async`/`Promise` plumbing and the `next()` callback of the hook.
- The role error message is the document library's default enum message. It is not written in the schema.
