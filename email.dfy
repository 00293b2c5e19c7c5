/**
  The email `match` validator: the pattern
      ^\w+([.-]?\w+)*@\w+([.-]?\w+)*(\.\w{2,3})+$
  written as recursive predicates, one per group of the pattern. `\w` is
  JavaScript's word class without the `u` flag, `[A-Za-z0-9_]`, and `$`
  without the `m` flag anchors at the very end of the string.
*/
module Email {

  /** `\w` */
  predicate IsWordChar(c: char) {
    ('a' <= c <= 'z') || ('A' <= c <= 'Z') || ('0' <= c <= '9') || c == '_'
  }

  /** `[.-]` */
  predicate IsSeparator(c: char) {
    c == '.' || c == '-'
  }

  predicate AllWordChars(s: string) {
    forall i :: 0 <= i < |s| ==> IsWordChar(s[i])
  }

  /**
    `\w+([.-]?\w+)*`: a word character followed by nothing, by another such
    string, or by one separator and another such string.
  */
  predicate Dotted(s: string)
    decreases |s|
  {
    && |s| > 0
    && IsWordChar(s[0])
    && (|| |s| == 1
        || Dotted(s[1..])
        || (|s| >= 2 && IsSeparator(s[1]) && Dotted(s[2..])))
  }

  /** `(\.\w{2,3})+`: one or more dots, each followed by two or three word characters. */
  predicate TldChain(s: string)
    decreases |s|
  {
    && |s| >= 3
    && s[0] == '.' && IsWordChar(s[1]) && IsWordChar(s[2])
    && (|| |s| == 3
        || TldChain(s[3..])
        || (IsWordChar(s[3]) && (|s| == 4 || TldChain(s[4..]))))
  }

  /** `\w+([.-]?\w+)*(\.\w{2,3})+`, the part after the `@` */
  predicate IsDomain(d: string) {
    exists j | 0 < j < |d| :: Dotted(d[..j]) && TldChain(d[j..])
  }

  /** The whole pattern, anchored at both ends. */
  predicate IsEmail(s: string)
    ensures IsEmail(s) ==> 6 <= |s| && IsWordChar(s[0])
  {
    exists i | 0 <= i < |s| :: s[i] == '@' && Dotted(s[..i]) && IsDomain(s[i + 1..])
  }

  /** `\.\w{2,3}`, a single top-level label with its dot. */
  predicate IsTld(t: string) {
    (|t| == 2 || |t| == 3) && AllWordChars(t)
  }

  /**
    A reference reading of the pattern, without its repetition groups: a
    dotted local part, `@` at index i, a dotted domain, a dot at index j and a
    two- or three-character label.
  */
  predicate EmailShape(s: string) {
    exists i, j | 0 <= i < j < |s| ::
      s[i] == '@' && Dotted(s[..i]) && Dotted(s[i + 1..j]) && s[j] == '.' && IsTld(s[j + 1..])
  }

  // ---- facts about the groups ----

  /** A dotted string begins and ends with a word character and holds only word characters and separators. */
  lemma {:induction false} DottedChars(s: string)
    requires Dotted(s)
    ensures IsWordChar(s[0]) && IsWordChar(s[|s| - 1])
    ensures forall k :: 0 <= k < |s| ==> IsWordChar(s[k]) || IsSeparator(s[k])
  {
    if |s| == 1 {
    } else if Dotted(s[1..]) {
      DottedChars(s[1..]);
      assert forall k :: 1 <= k < |s| ==> s[k] == s[1..][k - 1];
    } else {
      DottedChars(s[2..]);
      assert forall k :: 2 <= k < |s| ==> s[k] == s[2..][k - 2];
    }
  }

  /** A dotted string never holds two separators in a row. */
  lemma {:induction false} DottedNoDoubleSeparator(s: string, k: nat)
    requires Dotted(s) && k + 1 < |s|
    ensures !(IsSeparator(s[k]) && IsSeparator(s[k + 1]))
  {
    if k == 0 {
    } else if Dotted(s[1..]) {
      DottedNoDoubleSeparator(s[1..], k - 1);
    } else {
      if k == 1 {
        DottedChars(s[2..]);
      } else {
        DottedNoDoubleSeparator(s[2..], k - 2);
      }
    }
  }

  /** A word character followed by a dotted string, or by a separator and a dotted string, is dotted. */
  lemma {:induction false} DottedAppend(x: string, y: string)
    requires Dotted(x) && Dotted(y)
    ensures Dotted(x + y)
    ensures Dotted(x + "." + y)
    decreases |x|
  {
    if |x| == 1 {
      assert (x + y)[1..] == y;
      assert (x + "." + y)[1] == '.';
      assert (x + "." + y)[2..] == y;
    } else if Dotted(x[1..]) {
      DottedAppend(x[1..], y);
      assert (x + y)[1..] == x[1..] + y;
      assert (x + "." + y)[1..] == x[1..] + "." + y;
    } else {
      DottedAppend(x[2..], y);
      assert (x + y)[2..] == x[2..] + y;
      assert (x + "." + y)[2..] == x[2..] + "." + y;
    }
  }

  lemma WordRunDotted(w: string)
    requires |w| > 0 && AllWordChars(w)
    ensures Dotted(w)
    decreases |w|
  {
    if |w| > 1 {
      WordRunDotted(w[1..]);
    }
  }

  /**
    The repetition `(\.\w{2,3})+` after a dotted string folds into it: only the
    last label has to be split off.
  */
  lemma {:induction false} CollapseChain(x: string, y: string) returns (b: string, t: string)
    requires Dotted(x) && TldChain(y)
    ensures x + y == b + "." + t && Dotted(b) && IsTld(t)
    decreases |y|
  {
    var n := if |y| >= 4 && IsWordChar(y[3]) then 4 else 3;
    var lab := y[1..n];
    WordRunDotted(lab);
    DottedAppend(x, lab);
    assert y[..n] == "." + lab;
    if n == |y| {
      b, t := x, lab;
    } else {
      assert TldChain(y[n..]);
      b, t := CollapseChain(x + "." + lab, y[n..]);
      assert x + y == (x + "." + lab) + y[n..];
    }
  }

  // ---- the pattern against its reference reading ----

  /** A domain accepted by the pattern is a dotted name, a dot and one final label. */
  lemma DomainShape(d: string) returns (b: string, t: string)
    requires IsDomain(d)
    ensures d == b + "." + t && Dotted(b) && IsTld(t)
  {
    var j :| 0 < j < |d| && Dotted(d[..j]) && TldChain(d[j..]);
    b, t := CollapseChain(d[..j], d[j..]);
    assert d == d[..j] + d[j..];
  }

  /** Every string the pattern accepts has the reference shape. */
  lemma PatternHasShape(s: string)
    requires IsEmail(s)
    ensures EmailShape(s)
  {
    var i :| 0 <= i < |s| && s[i] == '@' && Dotted(s[..i]) && IsDomain(s[i + 1..]);
    var b, t := DomainShape(s[i + 1..]);
    ShapeAt(s, i, b, t);
  }

  /** The reference shape, from its three parts after an `@` at index i. */
  lemma ShapeAt(s: string, i: nat, b: string, t: string)
    requires i < |s| && s[i] == '@' && Dotted(s[..i])
    requires s[i + 1..] == b + "." + t && Dotted(b) && IsTld(t)
    ensures EmailShape(s)
  {
    var d := s[i + 1..];
    var k := i + 1 + |b|;
    assert d[..|b|] == b && d[|b| + 1..] == t;
    assert s[i + 1..k] == d[..|b|] && s[k + 1..] == d[|b| + 1..] && s[k] == d[|b|];
  }

  /** Every string of the reference shape is accepted by the pattern. */
  lemma ShapeMatchesPattern(s: string)
    requires EmailShape(s)
    ensures IsEmail(s)
  {
    var i, j :| 0 <= i < j < |s| && s[i] == '@' && Dotted(s[..i]) && Dotted(s[i + 1..j])
                && s[j] == '.' && IsTld(s[j + 1..]);
    var d := s[i + 1..];
    var n := j - i - 1;
    assert d[..n] == s[i + 1..j];
    assert d[n..] == "." + s[j + 1..];
    assert TldChain(d[n..]);
  }

  /** The two readings agree on every string. */
  lemma PatternIffShape(s: string)
    ensures IsEmail(s) <==> EmailShape(s)
  {
    if IsEmail(s) { PatternHasShape(s); }
    if EmailShape(s) { ShapeMatchesPattern(s); }
  }

  // ---- what every accepted address looks like ----

  /** Number of occurrences of `c` in `s`. */
  function Count(s: string, c: char): (n: nat)
    ensures n <= |s|
  {
    if s == [] then 0 else (if s[0] == c then 1 else 0) + Count(s[1..], c)
  }

  lemma {:induction false} CountAppend(x: string, y: string, c: char)
    ensures Count(x + y, c) == Count(x, c) + Count(y, c)
    decreases |x|
  {
    if x == [] {
      assert x + y == y;
    } else {
      CountAppend(x[1..], y, c);
      assert (x + y)[1..] == x[1..] + y;
    }
  }

  /** Where the `@` and the final dot of an accepted address are. */
  lemma AcceptedParts(s: string) returns (i: nat, j: nat)
    requires IsEmail(s)
    ensures i < j < |s| && s[i] == '@' && s[j] == '.'
    ensures Dotted(s[..i]) && Dotted(s[i + 1..j]) && IsTld(s[j + 1..])
  {
    PatternHasShape(s);
    i, j :| 0 <= i < j < |s| && s[i] == '@' && Dotted(s[..i]) && Dotted(s[i + 1..j])
            && s[j] == '.' && IsTld(s[j + 1..]);
  }

  lemma {:induction false} CountAbsent(s: string, c: char)
    requires forall k :: 0 <= k < |s| ==> s[k] != c
    ensures Count(s, c) == 0
  {
    if s != [] {
      CountAbsent(s[1..], c);
    }
  }

  lemma NoAtInDotted(s: string)
    requires Dotted(s)
    ensures Count(s, '@') == 0
  {
    DottedChars(s);
    CountAbsent(s, '@');
  }

  lemma NoAtInTld(t: string)
    requires IsTld(t)
    ensures Count(t, '@') == 0
  {
    CountAbsent(t, '@');
  }

  /** A string of the reference shape holds exactly one `@`. */
  lemma ShapeHasOneAt(s: string, i: nat, j: nat)
    requires i < j < |s| && s[i] == '@' && s[j] == '.'
    requires Dotted(s[..i]) && Dotted(s[i + 1..j]) && IsTld(s[j + 1..])
    ensures Count(s, '@') == 1
  {
    var a, b, t := s[..i], s[i + 1..j], s[j + 1..];
    NoAtInDotted(a);
    NoAtInDotted(b);
    NoAtInTld(t);
    assert s == a + "@" + b + "." + t;
    CountAppend(a + "@" + b + ".", t, '@');
    CountAppend(a + "@" + b, ".", '@');
    CountAppend(a + "@", b, '@');
    CountAppend(a, "@", '@');
  }

  /** An accepted address holds exactly one `@`. */
  lemma AcceptedHasOneAt(s: string)
    requires IsEmail(s)
    ensures Count(s, '@') == 1
  {
    var i, j := AcceptedParts(s);
    ShapeHasOneAt(s, i, j);
  }

  /** The only `@` of a string with one `@` is the one at index i. */
  lemma OnlyAt(s: string, i: nat, k: nat)
    requires i < |s| && k < |s| && s[i] == '@' && s[k] == '@' && Count(s, '@') == 1
    ensures i == k
  {
    if i != k {
      var lo, hi := if i < k then i else k, if i < k then k else i;
      assert s == s[..lo] + [s[lo]] + s[lo + 1..];
      CountAppend(s[..lo] + [s[lo]], s[lo + 1..], '@');
      CountAppend(s[..lo], [s[lo]], '@');
      assert s[lo + 1..][hi - lo - 1] == '@';
      CountPositive(s[lo + 1..], '@', hi - lo - 1);
      assert false;
    }
  }

  lemma {:induction false} CountPositive(s: string, c: char, k: nat)
    requires k < |s| && s[k] == c
    ensures Count(s, c) > 0
  {
    if k > 0 {
      CountPositive(s[1..], c, k - 1);
    }
  }

  /**
    In an accepted address the local part before the `@` and the domain after
    it both begin and end with a word character: never with `.` or `-`.
  */
  lemma AcceptedEdges(s: string, i: nat)
    requires IsEmail(s) && i < |s| && s[i] == '@'
    ensures 0 < i < |s| - 1
    ensures IsWordChar(s[0]) && IsWordChar(s[i - 1])
    ensures IsWordChar(s[i + 1]) && IsWordChar(s[|s| - 1])
  {
    var i', j := AcceptedParts(s);
    ShapeHasOneAt(s, i', j);
    OnlyAt(s, i', i);
    ShapeEdges(s, i, j);
  }

  lemma ShapeEdges(s: string, i: nat, j: nat)
    requires i < j < |s| && s[i] == '@' && s[j] == '.'
    requires Dotted(s[..i]) && Dotted(s[i + 1..j]) && IsTld(s[j + 1..])
    ensures 0 < i < |s| - 1
    ensures IsWordChar(s[0]) && IsWordChar(s[i - 1])
    ensures IsWordChar(s[i + 1]) && IsWordChar(s[|s| - 1])
  {
    DottedChars(s[..i]);
    DottedChars(s[i + 1..j]);
    var t := s[j + 1..];
    assert s[|s| - 1] == t[|t| - 1];
  }

  /** An accepted address ends with a dot and a two- or three-character label. */
  lemma AcceptedEndsWithTld(s: string)
    requires IsEmail(s)
    ensures (|s| > 3 && s[|s| - 3] == '.' && IsTld(s[|s| - 2..]))
         || (|s| > 4 && s[|s| - 4] == '.' && IsTld(s[|s| - 3..]))
  {
    var i, j := AcceptedParts(s);
  }

  // ---- two sample addresses ----

  lemma SampleAccepted()
    ensures IsEmail("a@b.co")
  {
    var s := "a@b.co";
    assert Dotted(s[..1]);
    var d := s[2..];
    assert d == "b.co";
    assert Dotted(d[..1]) && TldChain(d[1..]);
  }

  lemma SampleRejected()
    ensures !IsEmail("not-an-email")
  {
    var s := "not-an-email";
    assert '@' !in s;
    CountAbsent(s, '@');
    if IsEmail(s) {
      AcceptedHasOneAt(s);
      assert false;
    }
  }
}
