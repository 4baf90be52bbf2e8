/**
 * The recipient list: the configured comma-separated addresses, trimmed,
 * without empty entries, keeping only those that pass the address check.
 */
module Recipients {
  import opened Wrappers
  import opened JsString

  /** A character of the class `[^\s@]`. */
  predicate IsAddressChar(c: char) {
    !IsWhitespace(c) && c != '@'
  }

  /** A non-empty run of `[^\s@]` characters: the regex's `[^\s@]+`. */
  ghost predicate IsAddressRun(s: string) {
    s != [] && forall k :: 0 <= k < |s| ==> IsAddressChar(s[k])
  }

  /** A non-empty stretch of address characters is a run. */
  lemma RunOfSlice(s: string, lo: nat, hi: nat)
    requires lo < hi <= |s|
    requires forall k :: lo <= k < hi ==> IsAddressChar(s[k])
    ensures IsAddressRun(s[lo..hi])
  {
    forall k | 0 <= k < hi - lo
      ensures IsAddressChar(s[lo..hi][k])
    {
      assert s[lo..hi][k] == s[lo + k];
    }
  }

  /** `c` is absent from a suffix exactly when no position of the suffix holds it. */
  lemma AbsentFromSuffix(s: string, lo: nat, c: char)
    requires lo <= |s|
    ensures c !in s[lo..] <==> forall k :: lo <= k < |s| ==> s[k] != c
  {
    if c in s[lo..] {
      var m :| 0 <= m < |s[lo..]| && s[lo..][m] == c;
      assert s[lo + m] == c;
    }
    if exists k :: lo <= k < |s| && s[k] == c {
      var k :| lo <= k < |s| && s[k] == c;
      assert s[lo..][k - lo] == c;
    }
  }

  /** `/^[^\s@]+@[^\s@]+\.[^\s@]+$/` read directly: a run, `@`, a run, `.`, a run. */
  ghost predicate EmailRegexMatch(email: string) {
    exists at, dot ::
      && 0 <= at < dot < |email|
      && email[at] == '@' && email[dot] == '.'
      && IsAddressRun(email[..at]) && IsAddressRun(email[at + 1..dot]) && IsAddressRun(email[dot + 1..])
  }

  predicate HasNoWhitespace(s: string) {
    forall k :: 0 <= k < |s| ==> !IsWhitespace(s[k])
  }

  /** The number of occurrences of `c` in `s`. */
  function Count(s: string, c: char): (n: nat)
    ensures n == 0 <==> c !in s
    ensures n <= |s|
    decreases |s|
  {
    if s == [] then 0 else (if s[0] == c then 1 else 0) + Count(s[1..], c)
  }

  lemma {:induction false} CountAppend(a: string, b: string, c: char)
    ensures Count(a + b, c) == Count(a, c) + Count(b, c)
    decreases |a|
  {
    if a == [] {
      assert a + b == b;
    } else {
      assert (a + b)[1..] == a[1..] + b;
      CountAppend(a[1..], b, c);
    }
  }

  /** A `.` inside a domain: neither its first nor its last character. */
  ghost predicate HasInnerDot(domain: string) {
    exists j :: 0 < j < |domain| - 1 && domain[j] == '.'
  }

  /** The four conditions an address must meet: no whitespace, exactly one
      `@`, something before it, and a `.` inside the part after it. */
  ghost predicate EmailConditions(email: string) {
    && HasNoWhitespace(email)
    && Count(email, '@') == 1
    && exists at :: 0 < at < |email| && email[at] == '@' && HasInnerDot(email[at + 1..])
  }

  /** The position of the first `c` in `s`, or `|s|` when there is none. */
  function IndexOf(s: string, c: char): (i: nat)
    ensures i <= |s| && c !in s[..i]
    ensures i < |s| ==> s[i] == c
    decreases |s|
  {
    if s == [] || s[0] == c then 0
    else
      var i := IndexOf(s[1..], c);
      assert s[..i + 1] == [s[0]] + s[1..][..i];
      i + 1
  }

  /** The address check, scanning the text directly: no whitespace, a first
      `@` after at least one character, no further `@`, and a `.` strictly
      inside the part after the `@`. */
  predicate ValidateEmail(email: string) {
    var at := IndexOf(email, '@');
    && HasNoWhitespace(email)
    && 0 < at
    && at + 3 <= |email|
    && '@' !in email[at + 1..]
    && '.' in email[at + 2..|email| - 1]
  }

  /** The check accepts exactly the strings the regular expression matches. */
  lemma ValidateEmailIsRegexMatch(email: string)
    ensures ValidateEmail(email) <==> EmailRegexMatch(email)
  {
    if ValidateEmail(email) {
      ValidMatches(email);
    }
    if EmailRegexMatch(email) {
      MatchValid(email);
    }
  }

  /** A string with one `@` after its first character, a `.` strictly between
      that `@` and the last character, and address characters everywhere else
      matches. */
  lemma MatchFromPositions(email: string, at: nat, dot: nat)
    requires 0 < at && at + 1 < dot && dot + 1 < |email| && email[at] == '@' && email[dot] == '.'
    requires forall k :: 0 <= k < |email| && k != at ==> IsAddressChar(email[k])
    ensures EmailRegexMatch(email)
  {
    RunOfSlice(email, 0, at);
    assert email[..at] == email[0..at];
    RunOfSlice(email, at + 1, dot);
    RunOfSlice(email, dot + 1, |email|);
    assert email[dot + 1..] == email[dot + 1..|email|];
  }

  lemma ValidMatches(email: string)
    requires HasNoWhitespace(email)
    requires 0 < IndexOf(email, '@') && IndexOf(email, '@') + 3 <= |email|
    requires '@' !in email[IndexOf(email, '@') + 1..]
    requires '.' in email[IndexOf(email, '@') + 2..|email| - 1]
    ensures EmailRegexMatch(email)
  {
    var at := IndexOf(email, '@');
    var inner := email[at + 2..|email| - 1];
    var m :| 0 <= m < |inner| && inner[m] == '.';
    var dot := at + 2 + m;
    assert email[dot] == '.';
    AbsentAround(email, '@', at);
    MatchFromPositions(email, at, dot);
  }

  lemma MatchValid(email: string)
    requires EmailRegexMatch(email)
    ensures HasNoWhitespace(email)
    ensures 0 < IndexOf(email, '@') && IndexOf(email, '@') + 3 <= |email|
    ensures '@' !in email[IndexOf(email, '@') + 1..]
    ensures '.' in email[IndexOf(email, '@') + 2..|email| - 1]
  {
    var at, dot := MatchPositions(email);
    IndexOfOnly(email, '@', at);
    AbsentAround(email, '@', at);
    assert email[at + 2..|email| - 1][dot - at - 2] == '.';
  }

  /** The positions of the `@` and the `.` of a match: the `@` has a run on
      each side, the `.` a run on each side, and every other character is an
      address character. */
  lemma MatchPositions(email: string) returns (at: nat, dot: nat)
    requires EmailRegexMatch(email)
    ensures 0 < at && at + 1 < dot && dot + 1 < |email|
    ensures email[at] == '@' && email[dot] == '.'
    ensures forall k :: 0 <= k < |email| && k != at ==> IsAddressChar(email[k])
    ensures HasNoWhitespace(email)
  {
    at, dot :| && 0 <= at < dot < |email|
      && email[at] == '@' && email[dot] == '.'
      && IsAddressRun(email[..at]) && IsAddressRun(email[at + 1..dot]) && IsAddressRun(email[dot + 1..]);
    EveryCharOfMatch(email, at, dot);
    assert !IsWhitespace('@');
  }

  /** In a match every character is an address character, except the `@` at
      `at` and the `.` at `dot`. */
  lemma EveryCharOfMatch(email: string, at: nat, dot: nat)
    requires at < dot < |email| && email[at] == '@' && email[dot] == '.'
    requires IsAddressRun(email[..at]) && IsAddressRun(email[at + 1..dot]) && IsAddressRun(email[dot + 1..])
    ensures forall k :: 0 <= k < |email| && k != at ==> IsAddressChar(email[k])
  {
    forall k | 0 <= k < |email| && k != at
      ensures IsAddressChar(email[k])
    {
      if k < at {
        assert email[..at][k] == email[k];
      } else if k < dot {
        assert email[at + 1..dot][k - at - 1] == email[k];
      } else if k > dot {
        assert email[dot + 1..][k - dot - 1] == email[k];
      }
    }
  }

  /** The first occurrence of a character that occurs only at `at` is `at`. */
  lemma IndexOfOnly(s: string, c: char, at: nat)
    requires at < |s| && s[at] == c
    requires forall k :: 0 <= k < |s| && k != at ==> s[k] != c
    ensures IndexOf(s, c) == at
  {
    var i := IndexOf(s, c);
  }

  /** A character is absent on both sides of `at` exactly when it occurs at no
      other position. */
  lemma AbsentAround(s: string, c: char, at: nat)
    requires at < |s|
    ensures (c !in s[..at] && c !in s[at + 1..]) <==> forall k :: 0 <= k < |s| && k != at ==> s[k] != c
  {
    AbsentFromSuffix(s, at + 1, c);
    AbsentFromSuffix(s[..at], 0, c);
    assert s[..at][0..] == s[..at];
    assert forall k :: 0 <= k < at ==> s[k] == s[..at][k];
  }

  /** The count of a character is one exactly when it is absent on both sides
      of a position that holds it. */
  lemma CountOneAround(s: string, c: char, at: nat)
    requires at < |s| && s[at] == c
    ensures Count(s, c) == 1 <==> c !in s[..at] && c !in s[at + 1..]
  {
    assert s == s[..at] + [s[at]] + s[at + 1..];
    CountAppend(s[..at] + [s[at]], s[at + 1..], c);
    CountAppend(s[..at], [s[at]], c);
    assert Count([s[at]], c) == 1;
  }

  /** The regular expression accepts exactly the addresses meeting the four
      conditions. */
  lemma RegexMatchIffConditions(email: string)
    ensures EmailRegexMatch(email) <==> EmailConditions(email)
  {
    if EmailRegexMatch(email) {
      var at, dot := MatchPositions(email);
      AbsentAround(email, '@', at);
      CountOneAround(email, '@', at);
      assert email[at + 1..][dot - at - 1] == '.';
    }
    if EmailConditions(email) {
      var at :| 0 < at < |email| && email[at] == '@' && HasInnerDot(email[at + 1..]);
      ConditionsMatch(email, at);
    }
  }

  lemma ConditionsMatch(email: string, at: nat)
    requires HasNoWhitespace(email) && Count(email, '@') == 1
    requires 0 < at < |email| && email[at] == '@' && HasInnerDot(email[at + 1..])
    ensures EmailRegexMatch(email)
  {
    var domain := email[at + 1..];
    var j :| 0 < j < |domain| - 1 && domain[j] == '.';
    var dot := at + 1 + j;
    assert email[dot] == '.';
    CountOneAround(email, '@', at);
    AbsentAround(email, '@', at);
    MatchFromPositions(email, at, dot);
  }

  /** Every piece of a split, trimmed. */
  function TrimAll(parts: seq<string>): (r: seq<string>)
    ensures |r| == |parts|
    ensures forall k :: 0 <= k < |parts| ==> r[k] == Trim(parts[k])
  {
    seq(|parts|, k requires 0 <= k < |parts| => Trim(parts[k]))
  }

  /** Trimming only removes characters. */
  lemma TrimKeepsAbsent(s: string, c: char)
    requires c !in s
    ensures c !in Trim(s)
  {
    var r := Trim(s);
    var i := LeadingSpace(s);
    TrimRemovesOnlyWhitespace(s);
    assert forall m :: 0 <= m < |r| ==> r[m] == s[i + m];
  }

  /** The entries of the configured list: split at commas, trimmed, empty
      ones dropped. Each is non-empty, has no comma and is already trimmed. */
  function Entries(recipients: string): (r: seq<string>)
    ensures forall k :: 0 <= k < |r| ==> r[k] != [] && ',' !in r[k] && Trim(r[k]) == r[k]
    ensures forall k :: 0 <= k < |Split(recipients, ',')| && Trim(Split(recipients, ',')[k]) != [] ==>
      Trim(Split(recipients, ',')[k]) in r
    ensures forall k :: 0 <= k < |r| ==> r[k] in TrimAll(Split(recipients, ','))
  {
    var parts := Split(recipients, ',');
    var trimmed := TrimAll(parts);
    var r := Filter(trimmed, (e: string) => |e| > 0);
    forall k | 0 <= k < |r|
      ensures ',' !in r[k] && Trim(r[k]) == r[k]
    {
      var j :| 0 <= j < |trimmed| && trimmed[j] == r[k];
      TrimKeepsAbsent(parts[j], ',');
      TrimIdempotent(parts[j]);
    }
    r
  }

  lemma TrimAllAppend(xs: seq<string>, ys: seq<string>)
    ensures TrimAll(xs + ys) == TrimAll(xs) + TrimAll(ys)
  {
  }

  /** The entries of two lists joined by a comma are the entries of the
      first followed by those of the second: entries keep their order. */
  lemma EntriesAppend(a: string, b: string)
    ensures Entries(a + [','] + b) == Entries(a) + Entries(b)
  {
    SplitAppend(a, b, ',');
    TrimAllAppend(Split(a, ','), Split(b, ','));
    FilterAppend(TrimAll(Split(a, ',')), TrimAll(Split(b, ',')), (e: string) => |e| > 0);
  }

  /** The valid entries of the configured list, in list order; nothing when
      the setting is absent or empty. Every one is valid, and no valid entry
      is lost. */
  function Recipients(config: Option<string>): (r: seq<string>)
    ensures config.None? ==> r == []
    ensures forall k :: 0 <= k < |r| ==> ValidateEmail(r[k])
    ensures config.Some? ==> forall k :: 0 <= k < |r| ==> r[k] in Entries(config.value)
    ensures config.Some? ==>
      forall k :: 0 <= k < |Entries(config.value)| && ValidateEmail(Entries(config.value)[k]) ==>
        Entries(config.value)[k] in r
    ensures config.Some? ==> r == Filter(Entries(config.value), ValidateEmail)
  {
    match config
    case None => []
    case Some(recipients) =>
      if recipients == "" then EmptySettingHasNoEntries(); [] else Filter(Entries(recipients), ValidateEmail)
  }

  /** The empty setting has no entries, so its special case changes nothing. */
  lemma EmptySettingHasNoEntries()
    ensures Entries("") == []
  {
    assert Split("", ',') == [""];
    assert TrimAll([""]) == [Trim("")];
    assert Trim("") == "";
  }

  /** The validation loop: each entry goes to the valid or to the invalid
      list, in order. */
  method SortByValidity(emails: seq<string>) returns (validEmails: seq<string>, invalidEmails: seq<string>)
    ensures validEmails == Filter(emails, ValidateEmail)
    ensures invalidEmails == Filter(emails, (e: string) => !ValidateEmail(e))
  {
    validEmails := [];
    invalidEmails := [];
    for i := 0 to |emails|
      invariant validEmails == Filter(emails[..i], ValidateEmail)
      invariant invalidEmails == Filter(emails[..i], (e: string) => !ValidateEmail(e))
    {
      var email := emails[i];
      assert Filter(emails[..i + 1], ValidateEmail) ==
             validEmails + (if ValidateEmail(email) then [email] else []) by {
        assert emails[..i + 1] == emails[..i] + [email];
        FilterSnoc(emails[..i], email, ValidateEmail);
      }
      assert Filter(emails[..i + 1], (e: string) => !ValidateEmail(e)) ==
             invalidEmails + (if ValidateEmail(email) then [] else [email]) by {
        assert emails[..i + 1] == emails[..i] + [email];
        FilterSnoc(emails[..i], email, (e: string) => !ValidateEmail(e));
      }
      if ValidateEmail(email) {
        validEmails := validEmails + [email];
      } else {
        invalidEmails := invalidEmails + [email];
      }
    }
    assert emails[..|emails|] == emails;
  }

  /** The recipients as the service computes them: nothing without a setting,
      else the entries of the list that pass the check. */
  method GetRecipients(recipients: Option<string>) returns (validEmails: seq<string>)
    ensures validEmails == Recipients(recipients)
  {
    if recipients.None? || recipients.value == "" {
      return [];
    }
    var emails := Entries(recipients.value);
    var invalidEmails;
    validEmails, invalidEmails := SortByValidity(emails);
  }
}
