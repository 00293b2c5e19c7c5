/**
  The pre-save hook that replaces a newly set plaintext password by its
  salted hash, `matchPassword`, and the user document they act on.
*/
module PasswordHook {
  import opened Bytes
  import opened Crypto
  import opened Identity
  import opened UserSchema

  /**
    What the password path holds when a save starts: the stored hash, left
    unmodified since the document was loaded, or a plaintext set since.
  */
  datatype PasswordField = Unchanged(existingHash: string) | NewPlaintext(plaintext: string)

  /**
    The hook on values: what the password path holds once the hook has run.
    An unmodified hash is written back as it is, whatever salt is drawn; a
    new plaintext is replaced by a hash that a sound scheme matches with it.
  */
  function PrepareForStorage(c: Scheme, field: PasswordField, salt: Salt): (stored: string)
    ensures field.Unchanged? ==> stored == field.existingHash
    ensures field.NewPlaintext? && Sound(c) ==> c.compare(field.plaintext, stored)
  {
    match field
    case Unchanged(h) => h
    case NewPlaintext(p) => c.hash(p, salt)
  }

  /**
    `matchPassword(entered)` on a document whose password path holds `stored`:
    under a sound scheme it accepts the plaintext a stored hash was made
    from, and under a discriminating one it refuses a candidate whose key
    differs from that plaintext's.
  */
  function MatchPassword(c: Scheme, stored: string, entered: string): (r: bool)
    ensures Sound(c) && (exists s: Salt :: stored == c.hash(entered, s)) ==> r
    ensures Discriminating(c) && (exists p, s: Salt :: stored == c.hash(p, s) && Key(p) != Key(entered)) ==> !r
  {
    c.compare(entered, stored)
  }

  /** After the hook has run on plaintext p, `matchPassword(p)` succeeds. */
  lemma StoredPasswordMatches(c: Scheme, p: string, salt: Salt)
    requires Sound(c)
    ensures MatchPassword(c, PrepareForStorage(c, NewPlaintext(p), salt), p)
  {
  }

  /** ... and, for a discriminating scheme, a candidate whose key differs from p's is refused. */
  lemma OtherPasswordRefused(c: Scheme, p: string, q: string, salt: Salt)
    requires Discriminating(c) && Key(q) != Key(p)
    ensures !MatchPassword(c, PrepareForStorage(c, NewPlaintext(p), salt), q)
  {
  }

  /**
    A password shorter than 72 bytes is refused once anything that does not
    start with U+0000 is appended to it.
  */
  lemma ExtendedShortPasswordRefused(c: Scheme, p: string, x: string, salt: Salt)
    requires Discriminating(c) && x != [] && x[0] != '\0' && |Utf8(p)| < MaxPasswordBytes
    ensures !MatchPassword(c, PrepareForStorage(c, NewPlaintext(p), salt), p + x)
  {
    KeyDiffersAtEnd(p, x);
    OtherPasswordRefused(c, p, p + x, salt);
  }

  /**
    A password of 71 bytes still matches with U+0000 appended: the zero byte
    is the terminator its key already ends with.
  */
  lemma NulAfterShortPasswordAccepted(c: Scheme, p: string, salt: Salt)
    requires Sound(c) && Truncating(c) && |Utf8(p)| == MaxPasswordBytes - 1
    ensures MatchPassword(c, PrepareForStorage(c, NewPlaintext(p), salt), p + "\0")
  {
    NulTerminatorCollision(p);
    assert c.hash(p + "\0", salt) == c.hash(p, salt);
    assert c.compare(p + "\0", c.hash(p + "\0", salt));
  }

  /**
    A password of 72 bytes or more still matches with anything appended to
    it: bcrypt never reads past its 72nd byte.
  */
  lemma ExtendedLongPasswordAccepted(c: Scheme, p: string, x: string, salt: Salt)
    requires Sound(c) && Truncating(c) && x != [] && |Utf8(p)| >= MaxPasswordBytes
    ensures MatchPassword(c, PrepareForStorage(c, NewPlaintext(p), salt), p + x)
  {
    AppendedSignificant(p, x);
    SignificantDeterminesKey(p + x, p);
    assert c.hash(p + x, salt) == c.hash(p, salt);
    assert c.compare(p + x, c.hash(p + x, salt));
  }

  /** Two saves of the same plaintext under different salts store different hashes. */
  lemma SaltsSeparateHashes(c: Scheme, p: string, s1: Salt, s2: Salt)
    requires SaltSensitive(c) && s1 != s2
    ensures PrepareForStorage(c, NewPlaintext(p), s1) != PrepareForStorage(c, NewPlaintext(p), s2)
  {
  }

  /**
    A user document in memory: the record's fields, the identifier the
    document library assigns, and whether the password path has been
    modified since the document was loaded or created.
  */
  class UserDocument {
    const id: ObjectId
    var firstName: string
    var lastName: string
    var email: string
    var password: string
    var role: Role
    var isActive: bool
    var passwordModified: bool

    /** The document's fields as a record value. */
    function Record(): UserRecord
      reads this
    {
      UserRecord(firstName, lastName, email, password, role, isActive)
    }

    /** What the password path holds, as the hook sees it. */
    function PasswordState(): PasswordField
      reads this
    {
      if passwordModified then NewPlaintext(password) else Unchanged(password)
    }

    /** A new document from a validated record: every path it sets counts as modified. */
    constructor (id: ObjectId, u: UserRecord)
      ensures this.id == id && Record() == u
      ensures PasswordState() == NewPlaintext(u.password)
    {
      this.id := id;
      firstName, lastName, email, password := u.firstName, u.lastName, u.email, u.password;
      role, isActive := u.role, u.isActive;
      passwordModified := true;
    }

    /** A document loaded from storage: its password path holds the stored hash. */
    constructor Loaded(id: ObjectId, stored: UserRecord)
      ensures this.id == id && Record() == stored
      ensures PasswordState() == Unchanged(stored.password)
    {
      this.id := id;
      firstName, lastName, email, password := stored.firstName, stored.lastName, stored.email, stored.password;
      role, isActive := stored.role, stored.isActive;
      passwordModified := false;
    }

    /**
      `user.password = p`: the assignment marks the path modified unless it
      writes back the value the path already holds.
    */
    method SetPassword(p: string)
      modifies this`password, this`passwordModified
      ensures passwordModified == (old(passwordModified) || p != old(password))
      ensures PasswordState() == if passwordModified then NewPlaintext(p) else Unchanged(p)
      ensures Record() == old(Record()).(password := p)
    {
      passwordModified := passwordModified || p != password;
      password := p;
    }

    /**
      The `pre("save")` hook: when the password path is unmodified nothing
      changes; otherwise the plaintext is replaced by its hash under `salt`,
      and no other field changes. The hook itself leaves the modified flag
      as it is.
    */
    method PreSave(c: Scheme, salt: Salt)
      modifies this`password
      ensures password == PrepareForStorage(c, old(PasswordState()), salt)
      ensures !old(passwordModified) ==> Record() == old(Record())
      ensures old(passwordModified) ==> Record() == old(Record()).(password := c.hash(old(password), salt))
    {
      if !passwordModified {
        return;
      }
      password := c.hash(password, salt);
    }

    /** After a write the document library counts no path as modified. */
    method MarkSaved()
      modifies this`passwordModified
      ensures PasswordState() == Unchanged(password)
    {
      passwordModified := false;
    }

    /** `matchPassword(entered)` */
    method Match(c: Scheme, entered: string) returns (ok: bool)
      ensures ok == MatchPassword(c, password, entered)
    {
      ok := c.compare(entered, password);
    }
  }

  /**
    A submission that passes validation, saved as a new document, saved a
    second time untouched, then checked with its own plaintext: the first
    save stores the plaintext's hash under the first salt, the second save
    keeps it, and the plaintext is accepted.
  */
  method RegisterThenLogIn(c: Scheme, id: ObjectId, raw: RawUser, s1: Salt, s2: Salt)
    returns (stored: string, kept: string, ok: bool)
    requires Sound(c)
    requires Validate(raw).Ok?
    ensures stored == c.hash(raw.password.value, s1)
    ensures kept == stored
    ensures ok
  {
    var u := Validate(raw).value;
    var doc := new UserDocument(id, u);
    doc.PreSave(c, s1);
    doc.MarkSaved();
    stored := doc.password;
    doc.PreSave(c, s2);
    kept := doc.password;
    ok := doc.Match(c, raw.password.value);
    StoredPasswordMatches(c, u.password, s1);
  }
}
