/**
 * `isValidEmail` of `web-client/src/components/Login.tsx`: the test of an email address
 * against the anchored regular expression `^[^\s@]+@[^\s@]+\.[^\s@]+$`.
 */
module Login {

  /** A character of JavaScript's `\s` class: the ECMAScript white space and line terminators. */
  predicate IsSpace(c: char) {
    || c == '\t' || c == '\n' || c == '\U{000B}' || c == '\U{000C}' || c == '\r' || c == ' '
    || c == '\U{00A0}' || c == '\U{1680}' || ('\U{2000}' <= c <= '\U{200A}')
    || c == '\U{2028}' || c == '\U{2029}' || c == '\U{202F}' || c == '\U{205F}' || c == '\U{3000}'
    || c == '\U{FEFF}'
  }

  /** A character of the class `[^\s@]`. */
  predicate Plain(c: char) {
    !IsSpace(c) && c != '@'
  }

  /** A run `[^\s@]+`: non-empty, of plain characters only. */
  predicate PlainRun(s: string) {
    |s| > 0 && forall k :: 0 <= k < |s| ==> Plain(s[k])
  }

  /**
   * The language of the regular expression: a plain run, `@`, a plain run, a literal
   * `.`, and a plain run, covering the whole string.
   */
  ghost predicate MatchesPattern(email: string) {
    exists at, dot :: 0 <= at < dot < |email|
      && email[at] == '@' && email[dot] == '.'
      && PlainRun(email[..at]) && PlainRun(email[at + 1..dot]) && PlainRun(email[dot + 1..])
  }

  /** The position of the first `@`, or the length when there is none. */
  function FirstAt(s: string): (r: nat)
    ensures r <= |s|
    ensures r < |s| ==> s[r] == '@'
    ensures forall k :: 0 <= k < r ==> s[k] != '@'
  {
    if s == [] then 0 else if s[0] == '@' then 0 else 1 + FirstAt(s[1..])
  }

  /** No white space anywhere. */
  predicate NoSpace(s: string) {
    forall k :: 0 <= k < |s| ==> !IsSpace(s[k])
  }

  /** A `.` that is neither the first nor the last character. */
  predicate DotInside(d: string) {
    exists j :: 0 < j < |d| - 1 && d[j] == '.'
  }

  /**
   * `isValidEmail(email)`, read as conditions on the characters: no white space,
   * exactly one `@`, something before it, and after it a `.` that is neither the first
   * nor the last character.
   */
  function IsValidEmail(email: string): (r: bool)
    ensures r ==> NoSpace(email) && multiset(email)['@'] == 1
  {
    NoSpace(email) && multiset(email)['@'] == 1 &&
    var at := FirstAt(email);
    0 < at < |email| && DotInside(email[at + 1..])
  }

  /** The characterisation is exact: it accepts precisely the language of the regular expression. */
  lemma IsValidEmailMatchesRegex(email: string)
    ensures IsValidEmail(email) <==> MatchesPattern(email)
  {
    if IsValidEmail(email) {
      ValidMatches(email);
    }
    if MatchesPattern(email) {
      MatchesValid(email);
    }
  }

  lemma ValidMatches(email: string)
    requires IsValidEmail(email)
    ensures MatchesPattern(email)
  {
    var at := FirstAt(email);
    var d := email[at + 1..];
    var j :| 0 < j < |d| - 1 && d[j] == '.';
    var dot := at + 1 + j;
    OnlyAtIsFirst(email, at);
    assert email[at + 1..dot] == d[..j];
    assert email[dot + 1..] == d[j + 1..];
    assert PlainRun(email[..at]);
    assert PlainRun(email[at + 1..dot]);
    assert PlainRun(email[dot + 1..]);
  }

  /** With a single `@`, no `@` stands on either side of it. */
  lemma OnlyAtIsFirst(email: string, at: nat)
    requires NoSpace(email) && multiset(email)['@'] == 1 && at < |email| && email[at] == '@'
    ensures NoSpace(email[..at]) && '@' !in email[..at]
    ensures NoSpace(email[at + 1..]) && '@' !in email[at + 1..]
  {
    var d := email[at + 1..];
    assert email == email[..at] + [email[at]] + d;
    assert multiset(email)['@'] == multiset(email[..at])['@'] + 1 + multiset(d)['@'];
  }

  lemma MatchesValid(email: string)
    requires MatchesPattern(email)
    ensures IsValidEmail(email)
  {
    var at, dot :| 0 <= at < dot < |email|
      && email[at] == '@' && email[dot] == '.'
      && PlainRun(email[..at]) && PlainRun(email[at + 1..dot]) && PlainRun(email[dot + 1..]);
    SplitIsValid(email, at, dot);
  }

  /** A string split as the regular expression splits it is accepted. */
  lemma SplitIsValid(email: string, at: nat, dot: nat)
    requires at < dot < |email| && email[at] == '@' && email[dot] == '.'
    requires PlainRun(email[..at]) && PlainRun(email[at + 1..dot]) && PlainRun(email[dot + 1..])
    ensures IsValidEmail(email)
  {
    SplitParts(email, at, dot);
    JoinIsValid(email[..at], email[at + 1..dot], email[dot + 1..]);
  }

  /** Three plain runs joined by `@` and `.` form an accepted address. */
  lemma JoinIsValid(local: string, mid: string, last: string)
    requires PlainRun(local) && PlainRun(mid) && PlainRun(last)
    ensures IsValidEmail(local + ['@'] + (mid + ['.'] + last))
  {
    var d := mid + ['.'] + last;
    var email := local + ['@'] + d;
    CleanParts(local, mid, last);
    assert FirstAt(email) == |local| by {
      FirstAtIs(email, |local|);
    }
    assert email[|local| + 1..] == d;
    assert d[|mid|] == '.';
  }

  /** The string is the three runs joined by the `@` and the `.`. */
  lemma SplitParts(email: string, at: nat, dot: nat)
    requires at < dot < |email| && email[at] == '@' && email[dot] == '.'
    ensures email[at + 1..] == email[at + 1..dot] + ['.'] + email[dot + 1..]
    ensures email == email[..at] + ['@'] + email[at + 1..]
  {
    assert email[at + 1..] == email[at + 1..dot] + email[dot..];
    assert email[dot..] == ['.'] + email[dot + 1..];
    assert email == email[..at] + email[at..];
    assert email[at..] == ['@'] + email[at + 1..];
  }

  /** Three plain runs joined by `@` and `.` hold no white space and a single `@`. */
  lemma CleanParts(local: string, mid: string, last: string)
    requires PlainRun(local) && PlainRun(mid) && PlainRun(last)
    ensures NoSpace(local + ['@'] + (mid + ['.'] + last))
    ensures multiset(local + ['@'] + (mid + ['.'] + last))['@'] == 1
  {
    var d := mid + ['.'] + last;
    PlainRunIsClean(local);
    assert NoSpace(d) && '@' !in d by {
      PlainRunIsClean(mid);
      PlainRunIsClean(last);
      NoSpaceConcat(mid, ['.']);
      NoSpaceConcat(mid + ['.'], last);
    }
    NoSpaceConcat(local, ['@']);
    NoSpaceConcat(local + ['@'], d);
    assert multiset(local + ['@'] + d) == multiset(local) + multiset{'@'} + multiset(d);
  }

  /** The first `@` is the one with none before it. */
  lemma {:induction false} FirstAtIs(s: string, i: nat)
    requires i < |s| && s[i] == '@'
    requires forall k :: 0 <= k < i ==> s[k] != '@'
    ensures FirstAt(s) == i
  {
    if i > 0 {
      assert forall k :: 0 <= k < i - 1 ==> s[1..][k] == s[k + 1];
      FirstAtIs(s[1..], i - 1);
    }
  }

  /** A plain run holds no white space and no `@`. */
  lemma PlainRunIsClean(s: string)
    requires PlainRun(s)
    ensures NoSpace(s) && '@' !in s
  {
  }

  lemma NoSpaceConcat(a: string, b: string)
    requires NoSpace(a) && NoSpace(b)
    ensures NoSpace(a + b)
  {
    forall k | 0 <= k < |a + b| ensures !IsSpace((a + b)[k]) {
      if k < |a| { assert (a + b)[k] == a[k]; } else { assert (a + b)[k] == b[k - |a|]; }
    }
  }

  /** No string with a white-space character is accepted. */
  lemma RejectsWhitespace(email: string, k: nat)
    requires k < |email| && IsSpace(email[k])
    ensures !IsValidEmail(email)
  {
  }

  /**
   * An accepted string has exactly one `@`, a non-empty part before it, and in the
   * part after it a `.` that is neither its first nor its last character.
   */
  lemma AcceptedShape(email: string)
    requires IsValidEmail(email)
    ensures multiset(email)['@'] == 1
    ensures exists at :: 0 < at < |email| && email[at] == '@' && DotInside(email[at + 1..])
  {
    var at := FirstAt(email);
    assert 0 < at < |email| && email[at] == '@' && DotInside(email[at + 1..]);
  }

  /** `a@b..c` is accepted: the split at the `@` and the first `.` matches. */
  lemma ExampleAccepted(e: string)
    requires |e| == 6 && e[0] == 'a' && e[1] == '@' && e[2] == 'b' && e[3] == '.' && e[4] == '.' && e[5] == 'c'
    ensures IsValidEmail(e)
  {
    assert PlainRun(e[..1]) && PlainRun(e[2..3]) && PlainRun(e[4..]);
    SplitIsValid(e, 1, 3);
  }

  /** `a@.c` is rejected: the `.` directly follows the `@`. */
  lemma ExampleRejected()
    ensures !IsValidEmail("a@.c")
  {
    var bad := "a@.c";
    FirstAtIs(bad, 1);
    assert bad[2..] == ".c";
  }
}
