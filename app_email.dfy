/**
 * The email check of the service: re.match(r"[^@]+@[^@]+\.[^@]+", email).
 * re.match anchors only at the start, so whatever follows the matched
 * prefix is irrelevant.
 */
module AppEmail {
  import opened Text

  /**
   * The pattern read directly: a non-empty '@'-free prefix, the first '@',
   * an '@'-free run holding a '.' that has at least one character before it
   * and one '@'-free character after it.
   */
  ghost predicate AppPattern(s: string) {
    exists i: nat, j: nat :: PatternAt(s, i, j)
  }

  /** The pattern matches with its '@' at index i and its '.' at index j. */
  ghost predicate PatternAt(s: string, i: nat, j: nat) {
    && 0 < i && i + 1 < j && j + 1 < |s|
    && s[i] == '@' && s[j] == '.' && s[j + 1] != '@' && '@' !in s[..i] && '@' !in s[i + 1..j]
  }

  /** A '.' that is neither the first nor the last character. */
  predicate HasInnerDot(t: string) {
    |t| >= 3 && '.' in t[1..|t| - 1]
  }

  lemma InnerDotAt(t: string, p: nat)
    requires 1 <= p < |t| - 1 && t[p] == '.'
    ensures HasInnerDot(t)
  {
    assert t[1..|t| - 1][p - 1] == '.';
  }

  lemma InnerDotWitness(t: string) returns (p: nat)
    requires HasInnerDot(t)
    ensures 1 <= p < |t| - 1 && t[p] == '.'
  {
    var q :| 0 <= q < |t| - 2 && t[1..|t| - 1][q] == '.';
    p := q + 1;
  }

  /** validate_email: the first '@' is preceded by something, and the '@'-free run after it has an inner '.'. */
  predicate ValidateEmail(s: string) {
    var i := IndexOf(s, '@');
    0 < i < |s| && var tail := s[i + 1..]; HasInnerDot(tail[..IndexOf(tail, '@')])
  }

  /** The scanning check accepts exactly the strings the pattern matches at their start. */
  lemma ValidateEmailMatchesPattern(s: string)
    ensures ValidateEmail(s) <==> AppPattern(s)
  {
    if ValidateEmail(s) {
      ValidateEmailSound(s);
    }
    if AppPattern(s) {
      ValidateEmailComplete(s);
    }
  }

  lemma ValidateEmailSound(s: string)
    requires ValidateEmail(s)
    ensures AppPattern(s)
  {
    var i := IndexOf(s, '@');
    var tail := s[i + 1..];
    var m := IndexOf(tail, '@');
    var run := tail[..m];
    var p := InnerDotWitness(run);
    var j := i + 1 + p;
    assert s[j] == run[p] && s[j + 1] == run[p + 1];
    assert run[p + 1] in run;
    assert s[i + 1..j] == tail[..p];
    assert tail[..p] == run[..p];
    assert '@' !in run[..p] by {
      assert run[..p] <= run;
    }
    assert PatternAt(s, i, j);
  }

  lemma ValidateEmailComplete(s: string)
    requires AppPattern(s)
    ensures ValidateEmail(s)
  {
    var i: nat, j: nat :| PatternAt(s, i, j);
    ValidateEmailFromWitness(s, i, j);
  }

  lemma ValidateEmailFromWitness(s: string, i: nat, j: nat)
    requires PatternAt(s, i, j)
    ensures ValidateEmail(s)
  {
    IndexOfIs(s, '@', i);
    var tail := s[i + 1..];
    var p := j - i - 1;
    assert tail[..p + 2] == s[i + 1..j] + [s[j], s[j + 1]];
    assert '@' !in tail[..p + 2];
    IndexOfAtLeast(tail, '@', p + 2);
    var m := IndexOf(tail, '@');
    var run := tail[..m];
    assert run[p] == '.';
    InnerDotAt(run, p);
  }

  /** The malformed address of the service's tests is refused. */
  lemma ValidateEmailRejectsNoAt()
    ensures !ValidateEmail("invalid-email")
  {
    IndexOfAtLeast("invalid-email", '@', 13);
  }

  /** A plain address is accepted. */
  lemma ValidateEmailAcceptsPlain()
    ensures ValidateEmail("alice@example.com")
  {
    var s := "alice@example.com";
    assert s[..5] == "alice" && s[6..13] == "example";
    ValidateEmailFromWitness(s, 5, 13);
  }
}
