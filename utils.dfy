/**
 * The helpers of utils.py: a stricter email validator,
 * re.match(r"^[a-zA-Z0-9._%+-]+@[a-zA-Z0-9.-]+\.[a-zA-Z]{2,}$", email),
 * and the display formatter for timestamps.
 */
module Utils {
  import opened Text
  import opened Calendar
  import AppEmail

  predicate IsLocalChar(c: char) {
    IsAsciiLetter(c) || IsDigit(c) || c == '.' || c == '_' || c == '%' || c == '+' || c == '-'
  }

  predicate IsDomainChar(c: char) {
    IsAsciiLetter(c) || IsDigit(c) || c == '.' || c == '-'
  }

  predicate AllLocal(s: string) { forall k | 0 <= k < |s| :: IsLocalChar(s[k]) }

  predicate AllDomain(s: string) { forall k | 0 <= k < |s| :: IsDomainChar(s[k]) }

  predicate AllLetters(s: string) { forall k | 0 <= k < |s| :: IsAsciiLetter(s[k]) }

  /** Without MULTILINE, `$` matches at the end or just before one final newline. */
  function Body(s: string): (b: string)
    ensures b <= s && |s| - 1 <= |b|
    ensures b != s <==> s != [] && s[|s| - 1] == '\n'
    ensures b != s ==> s == b + "\n"
  {
    if s != [] && s[|s| - 1] == '\n' then s[..|s| - 1] else s
  }

  /**
   * The pattern read directly on the body: the '@' at index i and the '.'
   * before the top-level domain at index j.
   */
  ghost predicate UtilsPatternAt(s: string, i: nat, j: nat) {
    var b := Body(s);
    && 0 < i && i + 1 < j && j + 2 < |b| && b[i] == '@' && b[j] == '.'
    && AllLocal(b[..i]) && AllDomain(b[i + 1..j]) && AllLetters(b[j + 1..])
  }

  ghost predicate UtilsPattern(s: string) {
    exists i: nat, j: nat :: UtilsPatternAt(s, i, j)
  }

  /**
   * is_valid_email. No local or domain character is '@', so the '@' is the
   * first one; the top-level domain holds no '.', so its '.' is the last one.
   */
  predicate IsValidEmail(s: string) {
    var b := Body(s);
    var i := IndexOf(b, '@');
    var j := LastIndexOf(b, '.');
    0 < i && i + 1 < j && j + 2 < |b| && AllLocal(b[..i]) && AllDomain(b[i + 1..j]) && AllLetters(b[j + 1..])
  }

  /** The split at the first '@' and the last '.' finds a match whenever there is one. */
  lemma IsValidEmailMatchesPattern(s: string)
    ensures IsValidEmail(s) <==> UtilsPattern(s)
  {
    var b := Body(s);
    if IsValidEmail(s) {
      assert UtilsPatternAt(s, IndexOf(b, '@'), LastIndexOf(b, '.'));
    }
    if UtilsPattern(s) {
      var i: nat, j: nat :| UtilsPatternAt(s, i, j);
      assert forall k | 0 <= k < i :: b[..i][k] == b[k];
      IndexOfIs(b, '@', i);
      assert forall k | j < k < |b| :: b[j + 1..][k - j - 1] == b[k];
      LastIndexOfIs(b, '.', j);
    }
  }

  /** An accepted address starts with a non-empty local part of allowed characters, ended by its first '@'. */
  lemma IsValidEmailLocalPart(s: string)
    requires IsValidEmail(s)
    ensures var i := IndexOf(s, '@');
      && 0 < i < |s| && AllLocal(s[..i])
  {
    var b := Body(s);
    var i := IndexOf(b, '@');
    var j := LastIndexOf(b, '.');
    assert 0 < i && i + 1 < j && j + 2 < |b|;
    assert b[..i] == s[..i] && s[i] == '@';
    assert '@' !in s[..i] by {
      forall k | 0 <= k < i ensures s[..i][k] != '@' {
        assert IsLocalChar(b[..i][k]);
      }
    }
    IndexOfIs(s, '@', i);
  }

  /** An accepted address holds exactly one '@'. */
  lemma IsValidEmailSingleAt(s: string)
    requires IsValidEmail(s)
    ensures var i := IndexOf(Body(s), '@');
      && i < |s| && s[i] == '@'
      && forall k | 0 <= k < |s| && k != i :: s[k] != '@'
  {
    var b := Body(s);
    var i := IndexOf(b, '@');
    var j := LastIndexOf(b, '.');
    OnlyOneAt(b, i, j);
    forall k | 0 <= k < |s| && k != i ensures s[k] != '@' {
      if k < |b| {
        assert s[k] == b[k];
      }
    }
  }

  lemma OnlyOneAt(b: string, i: nat, j: nat)
    requires 0 < i && i + 1 < j && j + 2 < |b| && b[j] == '.'
    requires AllLocal(b[..i]) && AllDomain(b[i + 1..j]) && AllLetters(b[j + 1..])
    ensures forall k | 0 <= k < |b| && k != i :: b[k] != '@'
  {
    forall k | 0 <= k < |b| && k != i ensures b[k] != '@' {
      if k < i {
        assert b[k] == b[..i][k];
      } else if i < k < j {
        assert b[k] == b[i + 1..j][k - i - 1];
      } else if j < k {
        assert b[k] == b[j + 1..][k - j - 1];
      }
    }
  }

  /** After the '@': a non-empty domain run, a '.', then two or more letters that end the body. */
  lemma IsValidEmailDomainPart(s: string)
    requires IsValidEmail(s)
    ensures var b := Body(s); var i := IndexOf(b, '@'); var j := LastIndexOf(b, '.');
      && i + 1 < j && b[j] == '.' && AllDomain(b[i + 1..j])
      && |b| - (j + 1) >= 2 && AllLetters(b[j + 1..])
      && (b == s || s == b + "\n")
  {
  }

  /** Whatever the utils.py validator accepts, the service's validator accepts too. */
  lemma {:induction false} IsValidEmailImpliesValidateEmail(s: string)
    requires IsValidEmail(s)
    ensures AppEmail.ValidateEmail(s)
  {
    var b := Body(s);
    var i := IndexOf(b, '@');
    var j := LastIndexOf(b, '.');
    assert s[..i] == b[..i] && s[i + 1..j] == b[i + 1..j] && s[j + 1] == b[j + 1];
    assert b[j + 1..][0] == b[j + 1];
    assert '@' !in s[..i] by {
      forall k | 0 <= k < i ensures s[..i][k] != '@' {
        assert IsLocalChar(b[..i][k]);
      }
    }
    var domain := s[i + 1..j];
    assert '@' !in domain by {
      forall k | 0 <= k < |domain| ensures domain[k] != '@' {
        assert IsDomainChar(b[i + 1..j][k]);
      }
    }
    assert AppEmail.PatternAt(s, i, j);
    AppEmail.ValidateEmailFromWitness(s, i, j);
  }

  /** The converse fails: a one-letter top-level domain passes only the service's check. */
  lemma ValidateEmailIsWeaker()
    ensures AppEmail.ValidateEmail("a@b.c") && !IsValidEmail("a@b.c")
  {
    var s := "a@b.c";
    assert s[..1] == "a" && s[2..3] == "b";
    AppEmail.ValidateEmailFromWitness(s, 1, 3);
    LastIndexOfIs(s, '.', 3);
  }

  /** What format_datetime_for_display receives: a datetime, or any other value given by its str() form. */
  datatype Displayable = Stamp(at: DateTime) | NotADateTime(text: string)

  /** format_datetime_for_display. */
  function FormatForDisplay(x: Displayable): (r: string)
    requires x.Stamp? ==> ValidDateTime(x.at)
    ensures x.NotADateTime? ==> r == x.text
    ensures x.Stamp? ==>
      && |r| == 19 && r[4] == '-' && r[7] == '-' && r[10] == ' ' && r[13] == ':' && r[16] == ':'
      && AllDigits(r[0..4]) && AllDigits(r[5..7]) && AllDigits(r[8..10])
      && AllDigits(r[11..13]) && AllDigits(r[14..16]) && AllDigits(r[17..19])
      && DigitsValue(r[0..4]) == x.at.year && DigitsValue(r[5..7]) == x.at.month
      && DigitsValue(r[8..10]) == x.at.day && DigitsValue(r[11..13]) == x.at.hour
      && DigitsValue(r[14..16]) == x.at.minute && DigitsValue(r[17..19]) == x.at.second
  {
    match x
    case Stamp(t) => FormatDateTimeReadBack(t); FormatDateTime(t)
    case NotADateTime(text) => text
  }
}
