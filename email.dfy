/** `Repository.isValidEmail`: the pattern `^[A-Za-z0-9._%+-]+@[A-Za-z0-9.-]+\.[A-Za-z]{2,}$`. */
module Email {
  import opened Wrappers
  import opened JavaText

  predicate IsAsciiLetter(c: char) {
    'A' <= c <= 'Z' || 'a' <= c <= 'z'
  }

  predicate IsAsciiAlnum(c: char) {
    IsAsciiLetter(c) || '0' <= c <= '9'
  }

  /** `[A-Za-z0-9._%+-]` */
  predicate IsLocalChar(c: char) {
    IsAsciiAlnum(c) || c == '.' || c == '_' || c == '%' || c == '+' || c == '-'
  }

  /** `[A-Za-z0-9.-]` */
  predicate IsDomainChar(c: char) {
    IsAsciiAlnum(c) || c == '.' || c == '-'
  }

  predicate AllLocal(s: string) {
    forall i :: 0 <= i < |s| ==> IsLocalChar(s[i])
  }

  predicate AllDomain(s: string) {
    forall i :: 0 <= i < |s| ==> IsDomainChar(s[i])
  }

  predicate AllLetters(s: string) {
    forall i :: 0 <= i < |s| ==> IsAsciiLetter(s[i])
  }

  /**
   * The pattern matches `s` split at an '@' at `at` and a '.' at `dot`: a non-empty local
   * part, a non-empty domain, and at least two letters after the dot.
   */
  predicate IsEmailSplit(s: string, at: int, dot: int) {
    0 < at && at + 1 < dot && dot + 3 <= |s| && s[at] == '@' && s[dot] == '.' &&
    AllLocal(s[..at]) && AllDomain(s[at + 1..dot]) && AllLetters(s[dot + 1..])
  }

  /** What the regular expression accepts: some way to split the whole text as the pattern does. */
  ghost predicate MatchesEmailPattern(s: string) {
    exists at, dot :: IsEmailSplit(s, at, dot)
  }

  /**
   * `isValidEmail` without a regular expression engine: neither the local part nor the
   * domain can hold an '@', and the letters after the last '.' cannot hold a '.', so
   * the only possible split is at the last '@' and the last '.'.
   */
  function IsValidEmail(email: Option<string>): bool {
    email.Some? &&
    var s := email.value;
    IsEmailSplit(s, LastIndexOf(s, '@'), LastIndexOf(s, '.'))
  }

  /** After the '@' of a split there is no other '@', and after its '.' no other '.'. */
  lemma SplitTail(s: string, at: int, dot: int)
    requires IsEmailSplit(s, at, dot)
    ensures forall i :: at < i < |s| ==> s[i] != '@'
    ensures forall i :: dot < i < |s| ==> s[i] != '.'
  {
    forall i | at < i < |s|
      ensures s[i] != '@'
    {
      if i < dot {
        assert s[i] == s[at + 1..dot][i - at - 1];
      } else if i > dot {
        assert s[i] == s[dot + 1..][i - dot - 1];
      }
    }
    forall i | dot < i < |s|
      ensures s[i] != '.'
    {
      assert s[i] == s[dot + 1..][i - dot - 1];
    }
  }

  /** Any split the pattern allows is the one at the last '@' and the last '.'. */
  lemma EmailSplitIsUnique(s: string, at: int, dot: int)
    requires IsEmailSplit(s, at, dot)
    ensures at == LastIndexOf(s, '@') && dot == LastIndexOf(s, '.')
  {
    SplitTail(s, at, dot);
  }

  /** The executable check and the pattern agree on every input, and null is rejected. */
  lemma IsValidEmailMatchesPattern(email: Option<string>)
    ensures IsValidEmail(email) <==> email.Some? && MatchesEmailPattern(email.value)
  {
    if email.Some? && MatchesEmailPattern(email.value) {
      var s := email.value;
      var at, dot :| IsEmailSplit(s, at, dot);
      EmailSplitIsUnique(s, at, dot);
    }
  }

  /** A valid email holds exactly one '@'. */
  lemma ValidEmailHasOneAt(s: string)
    requires IsValidEmail(Some(s))
    ensures Count(s, '@') == 1
  {
    var at, dot := LastIndexOf(s, '@'), LastIndexOf(s, '.');
    SplitHasOneAt(s, at, dot);
  }

  lemma SplitHasOneAt(s: string, at: int, dot: int)
    requires IsEmailSplit(s, at, dot)
    ensures Count(s, '@') == 1
  {
    SplitTail(s, at, dot);
    var local, rest := s[..at], s[at + 1..];
    assert forall i :: 0 <= i < |local| ==> local[i] != '@' by {
      forall i | 0 <= i < |local| ensures local[i] != '@' {
        assert IsLocalChar(local[i]);
      }
    }
    assert forall i :: 0 <= i < |rest| ==> rest[i] != '@' by {
      forall i | 0 <= i < |rest| ensures rest[i] != '@' {
        assert rest[i] == s[at + 1 + i];
      }
    }
    NoCharCounted(local, '@');
    NoCharCounted(rest, '@');
    assert s == local + ([s[at]] + rest);
    CountSplits(local, [s[at]] + rest, '@');
    assert ([s[at]] + rest)[1..] == rest;
  }

  lemma {:induction false} NoCharCounted(s: string, c: char)
    requires forall i :: 0 <= i < |s| ==> s[i] != c
    ensures Count(s, c) == 0
  {
    if s != [] {
      NoCharCounted(s[1..], c);
    }
  }

  lemma {:induction false} CountSplits(a: string, b: string, c: char)
    ensures Count(a + b, c) == Count(a, c) + Count(b, c)
  {
    if a != [] {
      assert (a + b)[1..] == a[1..] + b;
      CountSplits(a[1..], b, c);
    } else {
      assert a + b == b;
    }
  }

  lemma ValidEmailExample()
    ensures IsValidEmail(Some("user@domain.com"))
  {
    var s := "user@domain.com";
    assert s[..4] == "user" && s[5..11] == "domain" && s[12..] == "com";
    assert IsEmailSplit(s, 4, 11);
    IsValidEmailMatchesPattern(Some(s));
  }

  lemma InvalidEmailExamples()
    ensures !IsValidEmail(Some("user@domain"))
    ensures !IsValidEmail(Some("not-an-email"))
    ensures !IsValidEmail(None)
  {
    assert forall i :: 0 <= i < |"user@domain"| ==> "user@domain"[i] != '.';
    assert forall i :: 0 <= i < |"not-an-email"| ==> "not-an-email"[i] != '@';
  }
}
