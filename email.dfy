/** The email check of the landing page (`isValidEmail`), which tests a string
    against the regular expression ^[^\s@]+@[^\s@]+\.[^\s@]+$ . */
module Email {

  /** The characters matched by `\s` in an ECMAScript regular expression: the
      WhiteSpace and LineTerminator characters of the language (section 12.2 and
      12.3 of ECMA-262). String.prototype.trim strips exactly the same set. */
  predicate IsWhitespace(c: char) {
    || c == '\t' || c == '\n' || c == '\U{000B}' || c == '\U{000C}' || c == '\r'
    || c == ' ' || c == '\U{00A0}' || c == '\U{1680}'
    || ('\U{2000}' <= c <= '\U{200A}')
    || c == '\U{2028}' || c == '\U{2029}' || c == '\U{202F}' || c == '\U{205F}'
    || c == '\U{3000}' || c == '\U{FEFF}'
  }

  /** A string the character class [^\s@]+ matches as a whole: non-empty, with
      no '@' and no whitespace. */
  predicate IsAtom(s: string) {
    |s| > 0 && forall k :: 0 <= k < |s| ==> s[k] != '@' && !IsWhitespace(s[k])
  }

  /** isValidEmail: the string is L + "@" + D + "." + T for atoms L, D and T.
      i is the position of the '@' and j that of the '.' the regular expression
      settles on (D may itself contain dots). */
  predicate IsValidEmail(s: string) {
    exists i, j | 0 < i < |s| && i + 1 < j < |s| - 1 ::
      s[i] == '@' && s[j] == '.' && IsAtom(s[..i]) && IsAtom(s[i + 1..j]) && IsAtom(s[j + 1..])
  }

  /** Number of occurrences of c in s. */
  function CountChar(s: string, c: char): (n: nat)
    ensures n <= |s|
  {
    if s == [] then 0 else (if s[0] == c then 1 else 0) + CountChar(s[1..], c)
  }

  /** The plain-words reading of the pattern: exactly one '@', no whitespace at
      all, and a '.' after the '@' with at least one character on each side of
      that '.' and before the '@'. */
  predicate IsSimpleEmail(s: string) {
    && (forall k :: 0 <= k < |s| ==> !IsWhitespace(s[k]))
    && CountChar(s, '@') == 1
    && exists i, j | 0 < i < |s| && i + 1 < j < |s| - 1 :: s[i] == '@' && s[j] == '.'
  }

  lemma {:induction false} CountConcat(a: string, b: string, c: char)
    ensures CountChar(a + b, c) == CountChar(a, c) + CountChar(b, c)
  {
    if a == [] {
      assert a + b == b;
    } else {
      assert (a + b)[1..] == a[1..] + b;
      CountConcat(a[1..], b, c);
    }
  }

  lemma {:induction false} CountZero(s: string, c: char)
    ensures CountChar(s, c) == 0 <==> forall k :: 0 <= k < |s| ==> s[k] != c
  {
    if s != [] {
      CountZero(s[1..], c);
      assert forall k :: 1 <= k < |s| ==> s[k] == s[1..][k - 1];
    }
  }

  /** Splitting s around position i counts s[i] once, on top of both sides. */
  lemma CountSplit(s: string, i: nat, c: char)
    requires i < |s|
    ensures CountChar(s, c) == CountChar(s[..i], c) + (if s[i] == c then 1 else 0) + CountChar(s[i + 1..], c)
  {
    assert s == s[..i] + [s[i]] + s[i + 1..];
    CountConcat(s[..i] + [s[i]], s[i + 1..], c);
    CountConcat(s[..i], [s[i]], c);
  }

  /** When c occurs once, at i, no other position holds c. */
  lemma OnlyOccurrence(s: string, i: nat, c: char)
    requires i < |s| && s[i] == c && CountChar(s, c) == 1
    ensures forall k :: 0 <= k < |s| && k != i ==> s[k] != c
  {
    CountSplit(s, i, c);
    CountZero(s[..i], c);
    CountZero(s[i + 1..], c);
    forall k | 0 <= k < |s| && k != i
      ensures s[k] != c
    {
      if k < i { assert s[k] == s[..i][k]; } else { assert s[k] == s[i + 1..][k - i - 1]; }
    }
  }

  /** A character inside an atom slice of s is neither '@' nor whitespace. */
  lemma InAtom(s: string, lo: nat, hi: nat, k: nat)
    requires lo <= k < hi <= |s| && IsAtom(s[lo..hi])
    ensures s[k] != '@' && !IsWhitespace(s[k])
  {
    assert s[k] == s[lo..hi][k - lo];
  }

  /** s cut at the '@' position i and the '.' position j. */
  lemma Decompose(s: string, i: nat, j: nat)
    requires i < j < |s|
    ensures s == s[..i] + [s[i]] + s[i + 1..j] + [s[j]] + s[j + 1..]
  {
    assert s[..j] == s[..i] + [s[i]] + s[i + 1..j] by {
      assert s[..j] == s[..i] + s[i..j];
      assert s[i..j] == [s[i]] + s[i + 1..j];
    }
    assert s == s[..j] + [s[j]] + s[j + 1..] by {
      assert s == s[..j] + s[j..];
      assert s[j..] == [s[j]] + s[j + 1..];
    }
  }

  /** Outside the '@' at i, a split L@D.T of s has neither '@' nor whitespace. */
  lemma SplitChars(s: string, i: nat, j: nat)
    requires 0 < i && i + 1 < j < |s| - 1 && s[j] == '.'
    requires IsAtom(s[..i]) && IsAtom(s[i + 1..j]) && IsAtom(s[j + 1..])
    ensures forall k :: 0 <= k < |s| && k != i ==> s[k] != '@' && !IsWhitespace(s[k])
  {
    assert s[..i] == s[0..i];
    assert s[j + 1..] == s[j + 1..|s|];
    forall k | 0 <= k < |s| && k != i
      ensures s[k] != '@' && !IsWhitespace(s[k])
    {
      if k < i { InAtom(s, 0, i, k); }
      else if k < j { InAtom(s, i + 1, j, k); }
      else if j < k { InAtom(s, j + 1, |s|, k); }
    }
  }

  /** A string whose only '@' is at i holds exactly one '@'. */
  lemma CountSingle(s: string, i: nat)
    requires i < |s| && s[i] == '@'
    requires forall k :: 0 <= k < |s| && k != i ==> s[k] != '@'
    ensures CountChar(s, '@') == 1
  {
    CountSplit(s, i, '@');
    var front, rest := s[..i], s[i + 1..];
    forall k | 0 <= k < |front| ensures front[k] != '@' { assert front[k] == s[k]; }
    forall k | 0 <= k < |rest| ensures rest[k] != '@' { assert rest[k] == s[i + 1 + k]; }
    CountZero(front, '@');
    CountZero(rest, '@');
  }

  /** What the regular expression accepts has the plain-words shape. */
  lemma ValidEmailIsSimple(s: string)
    requires IsValidEmail(s)
    ensures IsSimpleEmail(s)
  {
    var i, j :| 0 < i < |s| && i + 1 < j < |s| - 1 &&
      s[i] == '@' && s[j] == '.' && IsAtom(s[..i]) && IsAtom(s[i + 1..j]) && IsAtom(s[j + 1..]);
    SplitChars(s, i, j);
    CountSingle(s, i);
  }

  /** A string of the plain-words shape is accepted by the regular expression. */
  lemma SimpleEmailIsValid(s: string)
    requires IsSimpleEmail(s)
    ensures IsValidEmail(s)
  {
    var i, j :| 0 < i < |s| && i + 1 < j < |s| - 1 && s[i] == '@' && s[j] == '.';
    OnlyOccurrence(s, i, '@');
    assert IsAtom(s[..i]);
    assert IsAtom(s[i + 1..j]);
    assert IsAtom(s[j + 1..]);
  }

  /** The regular expression and the plain-words reading accept the same strings. */
  lemma ValidEmailIffSimple(s: string)
    ensures IsValidEmail(s) <==> IsSimpleEmail(s)
  {
    if IsValidEmail(s) { ValidEmailIsSimple(s); }
    if IsSimpleEmail(s) { SimpleEmailIsValid(s); }
  }

  /** Any three atoms joined as L@D.T are accepted. */
  lemma AcceptsParts(l: string, d: string, t: string)
    requires IsAtom(l) && IsAtom(d) && IsAtom(t)
    ensures IsValidEmail(l + "@" + d + "." + t)
  {
    var s := l + "@" + d + "." + t;
    var i, j := |l|, |l| + 1 + |d|;
    assert s[..i] == l;
    assert s[i + 1..j] == d;
    assert s[j + 1..] == t;
    assert s[i] == '@' && s[j] == '.';
  }

  /** Every accepted string is L@D.T for some atoms L, D and T. */
  lemma PartsOfValid(s: string) returns (l: string, d: string, t: string)
    requires IsValidEmail(s)
    ensures IsAtom(l) && IsAtom(d) && IsAtom(t)
    ensures s == l + "@" + d + "." + t
  {
    var i, j :| 0 < i < |s| && i + 1 < j < |s| - 1 &&
      s[i] == '@' && s[j] == '.' && IsAtom(s[..i]) && IsAtom(s[i + 1..j]) && IsAtom(s[j + 1..]);
    l, d, t := s[..i], s[i + 1..j], s[j + 1..];
    Decompose(s, i, j);
  }

  /** A string with no '@' is rejected. */
  lemma RejectsWithoutAt(s: string)
    requires forall k :: 0 <= k < |s| ==> s[k] != '@'
    ensures !IsValidEmail(s)
  {
  }

  /** A string is rejected when it has an '@' at position a with no '.' after it,
      whatever else it contains (a second '@' cannot rescue it). */
  lemma RejectsWithoutDotAfterAt(s: string, a: nat)
    requires a < |s| && s[a] == '@'
    requires forall k :: a < k < |s| ==> s[k] != '.'
    ensures !IsValidEmail(s)
  {
  }
}
