/**
  The email-shape check of the waitlist handler: the request's `email` must be
  present, non-empty and match the pattern `^[^\s@]+@[^\s@]+\.[^\s@]+$`.
  The pattern is modelled without regular expressions, twice: once following
  its structure (three runs of "atom" characters around an `@` and a `.`), once
  as a characterisation (no whitespace, exactly one `@` with something before
  it, a dot strictly inside the domain), and the two are proved equivalent.
 */
module EmailShape {
  import opened Wrappers

  /** The character class `\s` of ECMAScript regular expressions: the
      WhiteSpace and LineTerminator code points. The general lemmas below rely
      only on SpaceExcludesAtAndDot; the concrete examples at the end of this
      module also use the list itself. */
  predicate IsSpace(c: char) {
    || c == '\t' || c == '\n' || c == '\U{000B}' || c == '\U{000C}' || c == '\r'
    || c == ' ' || c == '\U{00A0}' || c == '\U{1680}'
    || ('\U{2000}' <= c <= '\U{200A}')
    || c == '\U{2028}' || c == '\U{2029}' || c == '\U{202F}' || c == '\U{205F}'
    || c == '\U{3000}' || c == '\U{FEFF}'
  }

  lemma SpaceExcludesAtAndDot()
    ensures !IsSpace('@') && !IsSpace('.')
  {
  }

  /** One character of the class `[^\s@]`. */
  predicate AtomChar(c: char) {
    c != '@' && !IsSpace(c)
  }

  /** A run `[^\s@]+`: non-empty, every character in the class. */
  predicate Atom(t: string) {
    |t| > 0 && forall k :: 0 <= k < |t| ==> AtomChar(t[k])
  }

  /** `s[a]` is the `@` and `s[d]` the `.` of a match of the pattern: the three
      pieces around them are atoms. */
  predicate MatchAt(s: string, a: int, d: int) {
    && 0 < a < d < |s| - 1
    && s[a] == '@' && s[d] == '.'
    && Atom(s[..a]) && Atom(s[a + 1..d]) && Atom(s[d + 1..])
  }

  /** The pattern, anchored at both ends: some `@` and some later `.` split `s`
      into three atoms. Any dot of the domain may serve, as the regular
      expression's backtracking allows. */
  predicate MatchesPattern(s: string) {
    exists a, d | 0 < a < |s| && a < d < |s| :: MatchAt(s, a, d)
  }

  /** The concatenation `local + "@" + x + "." + y` of the pattern's three runs. */
  function Join(local: string, x: string, y: string): string {
    local + "@" + x + "." + y
  }

  /** The pattern read as the existence of the three runs themselves. */
  ghost predicate SplitsAsPattern(s: string) {
    exists local, x, y :: s == Join(local, x, y) && Atom(local) && Atom(x) && Atom(y)
  }

  lemma PatternAsSplit(s: string)
    ensures MatchesPattern(s) <==> SplitsAsPattern(s)
  {
    if MatchesPattern(s) {
      var a, d :| 0 < a < |s| && a < d < |s| && MatchAt(s, a, d);
      assert s == Join(s[..a], s[a + 1..d], s[d + 1..]);
    }
    if SplitsAsPattern(s) {
      var local, x, y :| s == Join(local, x, y) && Atom(local) && Atom(x) && Atom(y);
      var a, d := |local|, |local| + 1 + |x|;
      assert s[..a] == local;
      assert s[a + 1..d] == x;
      assert s[d + 1..] == y;
      assert MatchAt(s, a, d);
    }
  }

  /** Every character of `s[i..j]` is an atom character, position by position. */
  predicate AtomCharsIn(s: string, i: int, j: int)
    requires 0 <= i <= j <= |s|
  {
    forall k :: i <= k < j ==> AtomChar(s[k])
  }

  lemma AtomSlice(s: string, i: int, j: int)
    requires 0 <= i <= j <= |s|
    ensures Atom(s[i..j]) <==> i < j && AtomCharsIn(s, i, j)
  {
    if Atom(s[i..j]) {
      forall k | i <= k < j ensures AtomChar(s[k]) {
        assert s[k] == s[i..j][k - i];
      }
    }
  }

  // ---------------------------------------------------------------------
  // The characterisation

  predicate NoSpace(s: string) {
    forall k :: 0 <= k < |s| ==> !IsSpace(s[k])
  }

  /** `s[a]` is the one and only `@` of `s`. */
  predicate SoleAt(s: string, a: int) {
    0 <= a < |s| && s[a] == '@' && forall k :: 0 <= k < |s| && s[k] == '@' ==> k == a
  }

  /** The domain has a dot that is neither its first nor its last character. */
  predicate InnerDot(domain: string) {
    exists j :: 0 < j < |domain| - 1 && domain[j] == '.'
  }

  /** `s[a]` is the only `@`, the local part before it is non-empty and the
      domain after it has an inner dot. */
  predicate ShapeAt(s: string, a: int) {
    0 < a < |s| && SoleAt(s, a) && InnerDot(s[a + 1..])
  }

  /** No whitespace; exactly one `@`, with a non-empty local part before it;
      a dot strictly inside the domain after it (further dots allowed). */
  predicate WellFormed(s: string) {
    NoSpace(s) && exists a | 0 < a < |s| :: ShapeAt(s, a)
  }

  lemma PatternIffWellFormed(s: string)
    ensures MatchesPattern(s) <==> WellFormed(s)
  {
    SpaceExcludesAtAndDot();
    if MatchesPattern(s) {
      var a, d :| 0 < a < |s| && a < d < |s| && MatchAt(s, a, d);
      AtomSlice(s, 0, a);
      AtomSlice(s, a + 1, d);
      AtomSlice(s, d + 1, |s|);
      assert s[d + 1..|s|] == s[d + 1..];
      assert forall k :: 0 <= k < |s| ==> AtomChar(s[k]) || k == a || k == d;
      var domain := s[a + 1..];
      assert domain[d - a - 1] == '.';
      assert ShapeAt(s, a);
    }
    if WellFormed(s) {
      var a :| 0 < a < |s| && ShapeAt(s, a);
      var domain := s[a + 1..];
      var j :| 0 < j < |domain| - 1 && domain[j] == '.';
      var d := a + 1 + j;
      assert s[d] == '.';
      assert forall k :: 0 <= k < |s| && k != a ==> AtomChar(s[k]);
      AtomSlice(s, 0, a);
      AtomSlice(s, a + 1, d);
      AtomSlice(s, d + 1, |s|);
      assert s[d + 1..|s|] == s[d + 1..];
      assert MatchAt(s, a, d);
    }
  }

  // ---------------------------------------------------------------------
  // The handler's test

  /** `!email || !pattern.test(email)` rejects; this is its negation. `None`
      stands for a request body without an `email` field. */
  function Accepts(email: Option<string>): (r: bool)
    ensures r <==> email.Some? && WellFormed(email.value)
  {
    if email.None? || email.value == "" then
      false
    else
      PatternIffWellFormed(email.value);
      MatchesPattern(email.value)
  }

  lemma MissingOrEmptyRejected()
    ensures !Accepts(None) && !Accepts(Some(""))
  {
  }

  // ---------------------------------------------------------------------
  // Concrete cases

  lemma ExamplesAccepted()
    ensures Accepts(Some("a@b.c"))
    ensures Accepts(Some("a.b@c.d.e"))
  {
    SpaceExcludesAtAndDot();
    var s := "a@b.c";
    assert s[..1] == "a" && s[2..3] == "b" && s[4..] == "c";
    assert MatchAt(s, 1, 3);
    var t := "a.b@c.d.e";
    assert t[..3] == "a.b" && t[4..5] == "c" && t[6..] == "d.e";
    assert MatchAt(t, 3, 5);
  }

  lemma ExamplesRejected()
    ensures !Accepts(Some("not-an-email"))
    ensures !Accepts(Some("a@@b.c"))
    ensures !Accepts(Some("a@b."))
    ensures !Accepts(Some("@b.c"))
    ensures !Accepts(Some("a b@c.d"))
  {
    var s := "not-an-email";
    assert forall k :: 0 <= k < |s| ==> s[k] != '@';
    var t := "a@@b.c";
    assert t[1] == '@' && t[2] == '@';
    var u := "a@b.";
    assert forall a :: SoleAt(u, a) ==> a == 1;
    assert !InnerDot(u[2..]);
    var v := "@b.c";
    assert forall a :: SoleAt(v, a) ==> a == 0;
    var w := "a b@c.d";
    assert IsSpace(w[1]);
  }
}
