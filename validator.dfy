/**
 * The inquiry validator of server.js (validateInquiry): three field checks run in the
 * order name, email, message; the first one that fails decides the 400 response.
 */
module Validator {
  import opened Wrappers

  const MaxNameLength := 100
  const MaxMessageLength := 5000

  /** Which check turned a submission away. */
  datatype FieldError = InvalidName | InvalidEmail | InvalidMessage

  datatype Verdict = Accepted | Rejected(error: FieldError)

  /** The JSON body of a submission; a field the client left out is None. */
  datatype Submission = Submission(name: Option<string>, email: Option<string>, message: Option<string>)

  /** JavaScript's `!field` is false exactly for a present, non-empty string. */
  predicate Present(field: Option<string>) {
    field.Some? && field.value != ""
  }

  /** The characters of the JavaScript regular-expression class `\s`. */
  predicate IsWhitespace(c: char) {
    || c == ' ' || c == '\t' || c == '\n' || c == '\r' || c == '\U{0B}' || c == '\U{0C}'
    || c == '\U{A0}' || c == '\U{1680}' || ('\U{2000}' <= c <= '\U{200A}')
    || c == '\U{2028}' || c == '\U{2029}' || c == '\U{202F}' || c == '\U{205F}'
    || c == '\U{3000}' || c == '\U{FEFF}'
  }

  /** The class `[^\s@]`. */
  predicate IsPlain(c: char) {
    !IsWhitespace(c) && c != '@'
  }

  predicate AllPlain(s: string) {
    forall i | 0 <= i < |s| :: IsPlain(s[i])
  }

  /**
   * The language of `^[^\s@]+@[^\s@]+\.[^\s@]+$`: s splits as local + "@" + host + "." + rest,
   * each of local, host and rest a non-empty run of `[^\s@]`.
   */
  ghost predicate MatchesEmailRegex(s: string) {
    exists at, dot | 0 < at && at + 1 < dot && dot + 1 < |s| ::
      s[at] == '@' && s[dot] == '.' && AllPlain(s[..at]) && AllPlain(s[at + 1..dot]) && AllPlain(s[dot + 1..])
  }

  predicate NoWhitespace(s: string) {
    forall i | 0 <= i < |s| :: !IsWhitespace(s[i])
  }

  /** Number of occurrences of c in s. */
  function Count(s: string, c: char): (n: nat)
    ensures n <= |s|
    ensures n == 0 <==> c !in s
  {
    if s == [] then 0 else (if s[0] == c then 1 else 0) + Count(s[1..], c)
  }

  /** Position of the first occurrence of c in s. */
  function IndexOf(s: string, c: char): (k: nat)
    requires c in s
    ensures k < |s| && s[k] == c && c !in s[..k]
  {
    if s[0] == c then 0
    else
      var k := IndexOf(s[1..], c);
      assert s[..k + 1] == [s[0]] + s[1..][..k];
      k + 1
  }

  /** The domain part holds a '.' that is neither its first nor its last character. */
  predicate DotInside(domain: string) {
    |domain| >= 3 && '.' in domain[1..|domain| - 1]
  }

  /**
   * The email rule written out: no whitespace anywhere, exactly one '@', a non-empty local
   * part before it, and a domain part after it with a '.' strictly inside.
   */
  predicate WellFormedEmail(s: string) {
    && NoWhitespace(s)
    && Count(s, '@') == 1
    && var at := IndexOf(s, '@');
       at > 0 && DotInside(s[at + 1..])
  }

  predicate NameOk(name: Option<string>) {
    Present(name) && |name.value| <= MaxNameLength
  }

  predicate EmailOk(email: Option<string>) {
    Present(email) && WellFormedEmail(email.value)
  }

  predicate MessageOk(message: Option<string>) {
    Present(message) && |message.value| <= MaxMessageLength
  }

  /**
   * validateInquiry. A name of 1..100 characters, a well-formed email and a message of
   * 1..5000 characters pass; otherwise the first failing field is reported.
   * ValidateAgainstRegex restates this with the regular expression itself.
   */
  function Validate(sub: Submission): (r: Verdict)
    ensures r == Accepted <==>
              && sub.name.Some? && 1 <= |sub.name.value| <= MaxNameLength
              && sub.email.Some? && WellFormedEmail(sub.email.value)
              && sub.message.Some? && 1 <= |sub.message.value| <= MaxMessageLength
    ensures r == Rejected(InvalidName) <==> sub.name.None? || |sub.name.value| == 0 || |sub.name.value| > MaxNameLength
    ensures r == Rejected(InvalidEmail) <==>
              && sub.name.Some? && 1 <= |sub.name.value| <= MaxNameLength
              && !(sub.email.Some? && WellFormedEmail(sub.email.value))
    ensures r == Rejected(InvalidMessage) <==>
              && sub.name.Some? && 1 <= |sub.name.value| <= MaxNameLength
              && sub.email.Some? && WellFormedEmail(sub.email.value)
              && (sub.message.None? || |sub.message.value| == 0 || |sub.message.value| > MaxMessageLength)
  {
    if !NameOk(sub.name) then Rejected(InvalidName)
    else if !EmailOk(sub.email) then Rejected(InvalidEmail)
    else if !MessageOk(sub.message) then Rejected(InvalidMessage)
    else Accepted
  }

  /** Validate stated with the regular expression of server.js in place of WellFormedEmail. */
  lemma ValidateAgainstRegex(sub: Submission)
    ensures Validate(sub) == Accepted <==>
              && sub.name.Some? && 1 <= |sub.name.value| <= MaxNameLength
              && sub.email.Some? && MatchesEmailRegex(sub.email.value)
              && sub.message.Some? && 1 <= |sub.message.value| <= MaxMessageLength
    ensures Validate(sub) == Rejected(InvalidEmail) <==>
              && sub.name.Some? && 1 <= |sub.name.value| <= MaxNameLength
              && !(sub.email.Some? && MatchesEmailRegex(sub.email.value))
    ensures Validate(sub) == Rejected(InvalidMessage) <==>
              && sub.name.Some? && 1 <= |sub.name.value| <= MaxNameLength
              && sub.email.Some? && MatchesEmailRegex(sub.email.value)
              && (sub.message.None? || |sub.message.value| == 0 || |sub.message.value| > MaxMessageLength)
  {
    EmailOkIffRegex(sub.email);
  }

  /** The email check of validateInquiry is the regular expression on a present field. */
  lemma EmailOkIffRegex(email: Option<string>)
    ensures EmailOk(email) <==> email.Some? && MatchesEmailRegex(email.value)
  {
    if email.Some? {
      EmailRegexEquivalence(email.value);
    }
  }

  lemma {:induction false} CountConcat(a: string, b: string, c: char)
    ensures Count(a + b, c) == Count(a, c) + Count(b, c)
  {
    if a != [] {
      assert (a + b)[1..] == a[1..] + b;
      CountConcat(a[1..], b, c);
    } else {
      assert a + b == b;
    }
  }

  /** The regular expression accepts exactly the well-formed emails. */
  lemma EmailRegexEquivalence(s: string)
    ensures MatchesEmailRegex(s) <==> WellFormedEmail(s)
  {
    if MatchesEmailRegex(s) {
      RegexImpliesWellFormed(s);
    }
    if WellFormedEmail(s) {
      WellFormedImpliesRegex(s);
    }
  }

  /** A run of `[^\s@]` has neither whitespace nor '@'. */
  lemma PlainRun(x: string)
    requires AllPlain(x)
    ensures NoWhitespace(x) && '@' !in x
  {
  }

  lemma NoWhitespaceConcat(a: string, b: string)
    requires NoWhitespace(a) && NoWhitespace(b)
    ensures NoWhitespace(a + b)
  {
  }

  lemma RegexImpliesWellFormed(s: string)
    requires MatchesEmailRegex(s)
    ensures WellFormedEmail(s)
  {
    var at, dot :| 0 < at && at + 1 < dot && dot + 1 < |s| &&
      s[at] == '@' && s[dot] == '.' && AllPlain(s[..at]) && AllPlain(s[at + 1..dot]) && AllPlain(s[dot + 1..]);
    SplitTwice(s, at, dot);
    WellFormedFromParts(s[..at], s[at + 1..dot], s[dot + 1..]);
  }

  /** Cutting s at two positions and gluing the pieces back gives s. */
  lemma SplitTwice(s: string, at: nat, dot: nat)
    requires at < dot < |s|
    ensures s == s[..at] + [s[at]] + s[at + 1..dot] + [s[dot]] + s[dot + 1..]
  {
  }

  /** Gluing the three runs of the regular expression gives a well-formed email. */
  lemma WellFormedFromParts(local: string, host: string, rest: string)
    requires |local| > 0 && |host| > 0 && |rest| > 0
    requires AllPlain(local) && AllPlain(host) && AllPlain(rest)
    ensures WellFormedEmail(local + ['@'] + host + ['.'] + rest)
  {
    var domain := host + ['.'] + rest;
    var s := local + ['@'] + domain;
    assert local + ['@'] + host + ['.'] + rest == s;
    PlainRun(local);
    PlainRun(host);
    PlainRun(rest);
    NoWhitespaceConcat(host, ['.']);
    NoWhitespaceConcat(host + ['.'], rest);
    NoWhitespaceConcat(local, ['@']);
    NoWhitespaceConcat(local + ['@'], domain);
    CountConcat(host, ['.'], '@');
    CountConcat(host + ['.'], rest, '@');
    CountConcat(local, ['@'], '@');
    CountConcat(local + ['@'], domain, '@');
    IndexOfAfterFree(local, domain, '@');
    assert s[|local| + 1..] == domain;
    assert domain[1..|domain| - 1][|host| - 1] == '.';
  }

  /** The first c of a + [c] + b sits right after a when a has none. */
  lemma IndexOfAfterFree(a: string, b: string, c: char)
    requires c !in a
    ensures c in a + [c] + b && IndexOf(a + [c] + b, c) == |a|
  {
    var s := a + [c] + b;
    assert s[|a|] == c;
  }

  lemma WellFormedImpliesRegex(s: string)
    requires WellFormedEmail(s)
    ensures MatchesEmailRegex(s)
  {
    var at := IndexOf(s, '@');
    var local, domain := s[..at], s[at + 1..];
    assert s == local + [s[at]] + domain;
    CountConcat(local + [s[at]], domain, '@');
    CountConcat(local, [s[at]], '@');
    var j :| 0 <= j < |domain| - 2 && domain[1..|domain| - 1][j] == '.';
    RegexFromCuts(s, at, at + 2 + j);
  }

  /** Cuts at an '@' and a later '.', with no whitespace and no other '@', witness the regex. */
  lemma RegexFromCuts(s: string, at: nat, dot: nat)
    requires 0 < at && at + 1 < dot && dot + 1 < |s| && s[at] == '@' && s[dot] == '.'
    requires NoWhitespace(s) && '@' !in s[..at] && '@' !in s[at + 1..]
    ensures MatchesEmailRegex(s)
  {
  }

  /** Addresses the regular expression turns away: no '@', no '.' after it, a space, two '@'. */
  lemma RejectedEmailExamples()
    ensures !MatchesEmailRegex("no-at-sign")
    ensures !MatchesEmailRegex("a@b")
    ensures !MatchesEmailRegex("a @b.com")
    ensures !MatchesEmailRegex("a@b@c.com")
  {
    NoAtSignRejected();
    NoDotRejected();
    SpaceRejected();
    TwoAtSignsRejected();
  }

  lemma NoAtSignRejected()
    ensures !MatchesEmailRegex("no-at-sign")
  {
    EmailRegexEquivalence("no-at-sign");
  }

  lemma NoDotRejected()
    ensures !MatchesEmailRegex("a@b")
  {
    EmailRegexEquivalence("a@b");
    IndexOfAfterFree("a", "b", '@');
    assert "a" + ['@'] + "b" == "a@b";
  }

  lemma SpaceRejected()
    ensures !MatchesEmailRegex("a @b.com")
  {
    EmailRegexEquivalence("a @b.com");
    assert IsWhitespace("a @b.com"[1]);
  }

  lemma TwoAtSignsRejected()
    ensures !MatchesEmailRegex("a@b@c.com")
  {
    var first, second := "a@b", "@c.com";
    assert first[1] == '@' && second[0] == '@';
    CountConcat(first, second, '@');
    assert Count(first + second, '@') >= 2;
    assert first + second == "a@b@c.com";
    EmailRegexEquivalence(first + second);
  }

  /** The address of the submit-then-resolve scenario passes. */
  lemma AcceptedEmailExample()
    ensures MatchesEmailRegex("a@b.com")
  {
    var s := "a@b.com";
    assert s[..1] == "a" && s[2..3] == "b" && s[4..] == "com";
    assert s[1] == '@' && s[3] == '.';
  }

  /** The same address, by the written-out rule. */
  lemma WellFormedExample()
    ensures WellFormedEmail("a@b.com")
  {
    AcceptedEmailExample();
    EmailRegexEquivalence("a@b.com");
  }

  /** One character over each length limit is rejected, with the error of that field. */
  lemma LengthLimitExamples(name: string, message: string)
    requires |name| == MaxNameLength + 1 && |message| == MaxMessageLength + 1
    ensures Validate(Submission(Some(name), Some("a@b.com"), Some("hi"))) == Rejected(InvalidName)
    ensures Validate(Submission(Some("A"), Some("a@b.com"), Some(message))) == Rejected(InvalidMessage)
    ensures Validate(Submission(Some("A"), Some("a@b.com"), Some("hi"))) == Accepted
  {
    WellFormedExample();
  }

  /** A missing field is reported even when a later field is also wrong: name before email before message. */
  lemma CheckOrderExamples()
    ensures Validate(Submission(None, Some("bad"), None)) == Rejected(InvalidName)
    ensures Validate(Submission(Some("A"), Some("bad"), Some(""))) == Rejected(InvalidEmail)
    ensures Validate(Submission(Some("A"), Some("a@b.com"), None)) == Rejected(InvalidMessage)
  {
    WellFormedExample();
    assert !WellFormedEmail("bad") by {
      assert '@' !in "bad";
    }
  }
}
