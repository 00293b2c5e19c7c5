/**
  The password-hashing primitive (bcryptjs `genSalt`, `hash`, `compare`) kept
  abstract: a scheme is any pair of functions, and what the model relies on is
  stated as hypotheses about the pair rather than as properties of bcrypt.
*/
module Crypto {
  import opened Bytes

  /** Length of a bcrypt salt string: `$2a$`, two cost digits, `$`, 22 characters. */
  const SaltLength: nat := 29

  /** A character of bcrypt's own base-64 alphabet `./A-Za-z0-9`. */
  predicate IsSaltChar(c: char) {
    c == '.' || c == '/' || 'A' <= c <= 'Z' || 'a' <= c <= 'z' || '0' <= c <= '9'
  }

  /**
    A salt in the form `bcrypt.genSalt(10)` produces: version `2a` or `2b`,
    cost 10, and 16 random bytes as 22 base-64 characters. The last character
    carries only 2 of the 16 bytes' bits, so its low 4 bits are zero: it is
    one of `.`, `O`, `e`, `u`.
  */
  predicate IsSalt(s: string) {
    && |s| == SaltLength
    && (s[..7] == "$2a$10$" || s[..7] == "$2b$10$")
    && (forall i | 7 <= i < SaltLength :: IsSaltChar(s[i]))
    && (s[SaltLength - 1] == '.' || s[SaltLength - 1] == 'O' || s[SaltLength - 1] == 'e' || s[SaltLength - 1] == 'u')
  }

  /** A salt as returned by `bcrypt.genSalt(10)`; which one is drawn is left to the caller. */
  type Salt = s: string | IsSalt(s) witness "$2a$10$......................"

  /** bcrypt reads at most this many bytes of the UTF-8 encoded plaintext. */
  const MaxPasswordBytes: nat := 72

  /** The first 72 bytes of a plaintext's UTF-8 encoding, or all of them when it is shorter. */
  function Significant(p: string): (b: seq<Byte>)
    ensures |b| == if |Utf8(p)| < MaxPasswordBytes then |Utf8(p)| else MaxPasswordBytes
    ensures b == Utf8(p)[..|b|]
  {
    var e := Utf8(p);
    if |e| <= MaxPasswordBytes then e else e[..MaxPasswordBytes]
  }

  /**
    The Blowfish key bcrypt expands for a `2a` or `2b` salt: the UTF-8 bytes
    of the plaintext and a terminating zero byte, repeated until they fill
    72 bytes, of which only the first 72 are read.
  */
  function Key(p: string): (k: seq<Byte>)
    ensures |k| == MaxPasswordBytes
    ensures forall i :: 0 <= i < |Utf8(p)| && i < MaxPasswordBytes ==> k[i] == Utf8(p)[i]
    ensures |Utf8(p)| < MaxPasswordBytes ==> k[|Utf8(p)|] == 0
    ensures forall i :: |Utf8(p)| < i < MaxPasswordBytes ==> k[i] == k[i - |Utf8(p)| - 1]
  {
    var b := Utf8(p) + [0];
    var k := Repeat(b, MaxPasswordBytes);
    assert |b| <= MaxPasswordBytes ==> k[..|b|] == b;
    k
  }

  /** The first n bytes of b, b, b, ... */
  function Repeat(b: seq<Byte>, n: nat): (r: seq<Byte>)
    requires b != []
    ensures |r| == n
    ensures n <= |b| ==> r == b[..n]
    ensures n > |b| ==> r[..|b|] == b
    ensures forall i :: |b| <= i < n ==> r[i] == r[i - |b|]
    decreases n
  {
    if n <= |b| then b[..n] else b + Repeat(b, n - |b|)
  }

  /** Plaintexts that agree on their first 72 bytes have the same key. */
  lemma SignificantDeterminesKey(p: string, q: string)
    requires Significant(p) == Significant(q)
    ensures Key(p) == Key(q)
  {
    if |Utf8(p)| < MaxPasswordBytes {
      assert Utf8(p) == Significant(p) == Significant(q) == Utf8(q);
    } else {
      forall i | 0 <= i < MaxPasswordBytes ensures Key(p)[i] == Key(q)[i] {
        assert Key(p)[i] == Significant(p)[i] && Key(q)[i] == Significant(q)[i];
      }
    }
  }

  /**
    Without U+0000 the converse holds: the zero byte in the key marks where
    a short plaintext ends, so equal keys mean equal first 72 bytes.
  */
  lemma KeyDeterminesSignificant(p: string, q: string)
    requires '\0' !in p && '\0' !in q
    requires Key(p) == Key(q)
    ensures Significant(p) == Significant(q)
  {
    Utf8NoZero(p);
    Utf8NoZero(q);
    var n := |Significant(p)|;
    assert n == |Significant(q)|;
    forall i | 0 <= i < n ensures Significant(p)[i] == Significant(q)[i] {
      assert Significant(p)[i] == Key(p)[i] && Significant(q)[i] == Key(q)[i];
    }
  }

  /**
    After a plaintext shorter than 72 bytes the key holds its zero
    terminator; appending anything that does not start with U+0000 puts a
    non-zero byte there instead.
  */
  lemma KeyDiffersAtEnd(p: string, x: string)
    requires x != [] && x[0] != '\0' && |Utf8(p)| < MaxPasswordBytes
    ensures Key(p + x) != Key(p)
  {
    Utf8Append(p, x);
    Utf8Append([x[0]], x[1..]);
    assert [x[0]] + x[1..] == x;
    assert Utf8([x[0]]) == Utf8Char(x[0]);
    var n := |Utf8(p)|;
    assert Utf8(p + x)[n] == Utf8Char(x[0])[0] != 0;
    assert Key(p + x)[n] != Key(p)[n];
  }

  /**
    A zero byte after a 71-byte plaintext is the terminator the key already
    has there, so the two plaintexts share a key though their first 72 bytes
    differ.
  */
  lemma NulTerminatorCollision(p: string)
    requires |Utf8(p)| == MaxPasswordBytes - 1
    ensures Key(p + "\0") == Key(p)
    ensures Significant(p + "\0") != Significant(p)
  {
    Utf8Append(p, "\0");
    assert Utf8("\0") == [0];
    forall i | 0 <= i < MaxPasswordBytes ensures Key(p + "\0")[i] == Key(p)[i] {
      if i < MaxPasswordBytes - 1 {
        assert Key(p + "\0")[i] == Utf8(p + "\0")[i] == Utf8(p)[i];
      }
    }
  }

  /** `bcrypt.hash(plaintext, salt)` and `bcrypt.compare(candidate, storedHash)`. */
  datatype Scheme = Scheme(hash: (string, Salt) -> string, compare: (string, string) -> bool)

  /** Comparing a plaintext with a hash made from it succeeds, whatever the salt. */
  ghost predicate Sound(c: Scheme) {
    forall p, s :: c.compare(p, c.hash(p, s))
  }

  /**
    Comparing succeeds only for candidates whose key is the hashed
    plaintext's: the hash keeps every distinction its key makes.
  */
  ghost predicate Discriminating(c: Scheme) {
    forall q, p, s :: c.compare(q, c.hash(p, s)) ==> Key(q) == Key(p)
  }

  /** Like bcrypt, the hash depends on the plaintext only through its key. */
  ghost predicate Truncating(c: Scheme) {
    forall p, q, s :: Key(p) == Key(q) ==> c.hash(p, s) == c.hash(q, s)
  }

  /** Different salts give different hashes of the same plaintext. */
  ghost predicate SaltSensitive(c: Scheme) {
    forall p, s1: Salt, s2: Salt :: s1 != s2 ==> c.hash(p, s1) != c.hash(p, s2)
  }

  /** Bytes written as the characters with the same code. */
  function ByteChars(b: seq<Byte>): (s: string)
    ensures |s| == |b|
    ensures forall i :: 0 <= i < |b| ==> s[i] as int == b[i] as int
  {
    seq(|b|, i requires 0 <= i < |b| => (b[i] as int) as char)
  }

  /**
    A transparent scheme in bcrypt's layout: the salt, then the key. It is
    no one-way function; it only shows that the four hypotheses above can
    hold together.
  */
  function Transparent(): Scheme {
    Scheme((p, s: Salt) => s + ByteChars(Key(p)),
           (q, h) => |h| >= SaltLength && h[SaltLength..] == ByteChars(Key(q)))
  }

  lemma TransparentSatisfiesHypotheses()
    ensures Sound(Transparent())
    ensures Discriminating(Transparent())
    ensures Truncating(Transparent())
    ensures SaltSensitive(Transparent())
  {
    var c := Transparent();
    forall p, s: Salt ensures c.compare(p, c.hash(p, s)) {
      assert (s + ByteChars(Key(p)))[SaltLength..] == ByteChars(Key(p));
    }
    forall q, p, s: Salt | c.compare(q, c.hash(p, s)) ensures Key(q) == Key(p) {
      var a, b := Key(q), Key(p);
      assert (s + ByteChars(b))[SaltLength..] == ByteChars(b);
      assert ByteChars(a) == ByteChars(b);
      assert forall i :: 0 <= i < |a| ==> a[i] as int == ByteChars(a)[i] as int == b[i] as int;
    }
    forall p, s1: Salt, s2: Salt | s1 != s2 ensures c.hash(p, s1) != c.hash(p, s2) {
      assert (s1 + ByteChars(Key(p)))[..SaltLength] == s1;
      assert (s2 + ByteChars(Key(p)))[..SaltLength] == s2;
    }
  }

  /**
    Appending to a plaintext of 72 bytes or more leaves the part bcrypt reads
    as it is; appending to a shorter one changes it.
  */
  lemma {:induction false} AppendedSignificant(p: string, x: string)
    requires x != []
    ensures |Utf8(p)| >= MaxPasswordBytes ==> Significant(p + x) == Significant(p)
    ensures |Utf8(p)| < MaxPasswordBytes ==> Significant(p + x) != Significant(p)
  {
    Utf8Append(p, x);
    var e := Utf8(p);
    assert |Utf8(x)| >= 1;
    if |e| >= MaxPasswordBytes {
      assert (e + Utf8(x))[..MaxPasswordBytes] == e[..MaxPasswordBytes];
    } else {
      assert |Significant(p + x)| > |e|;
    }
  }
}
