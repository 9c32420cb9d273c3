/** Email validation: the anchored pattern `^[a-zA-Z0-9._%+-]+@[a-zA-Z0-9.-]+\.[a-zA-Z]{2,}$`
    restated as character-level predicates, and the report built from a list of addresses.

    Two readings of the pattern are given. `MatchesPattern` is the pattern's own meaning:
    the string splits into a local part, `@`, a domain body, `.`, and a top-level label.
    `IsValidEmail` is a direct scan (the first `@`, the last `.`) and is proved equal to it. */
module Validator {

  datatype Option<T> = None | Some(value: T)

  // ---------------------------------------------------------------------------
  // Character classes of the pattern (ASCII only)
  // ---------------------------------------------------------------------------

  /** `[a-zA-Z]` */
  predicate IsLetter(c: char) {
    ('a' <= c <= 'z') || ('A' <= c <= 'Z')
  }

  /** `[0-9]` */
  predicate IsDigit(c: char) {
    '0' <= c <= '9'
  }

  /** `[a-zA-Z0-9._%+-]`: the characters of the part before `@` */
  predicate IsLocalChar(c: char) {
    IsLetter(c) || IsDigit(c) || c == '.' || c == '_' || c == '%' || c == '+' || c == '-'
  }

  /** `[a-zA-Z0-9.-]`: the characters of the domain before its last dot */
  predicate IsDomainChar(c: char) {
    IsLetter(c) || IsDigit(c) || c == '.' || c == '-'
  }

  predicate AllLocal(t: string) {
    forall k :: 0 <= k < |t| ==> IsLocalChar(t[k])
  }

  predicate AllDomain(t: string) {
    forall k :: 0 <= k < |t| ==> IsDomainChar(t[k])
  }

  predicate AllLetters(t: string) {
    forall k :: 0 <= k < |t| ==> IsLetter(t[k])
  }

  // ---------------------------------------------------------------------------
  // The pattern, read as a split of the whole string
  // ---------------------------------------------------------------------------

  /** `s` splits as `s[..at]` (one or more local characters), `@` at index `at`,
      `s[at+1..dot]` (one or more domain characters), `.` at index `dot`, and
      `s[dot+1..]` (two or more letters). Both anchors are implied: the three parts
      and the two separators cover `s` exactly. */
  ghost predicate SplitsAt(s: string, at: int, dot: int) {
    && 1 <= at
    && at + 1 < dot
    && dot + 2 < |s|
    && s[at] == '@'
    && s[dot] == '.'
    && AllLocal(s[..at])
    && AllDomain(s[at + 1..dot])
    && AllLetters(s[dot + 1..])
  }

  /** The language of the pattern. */
  ghost predicate MatchesPattern(s: string) {
    exists at, dot :: SplitsAt(s, at, dot)
  }

  // ---------------------------------------------------------------------------
  // The scan
  // ---------------------------------------------------------------------------

  /** Index of the first occurrence of `c` in `s`, or `|s|` when there is none. */
  function FirstIndex(s: string, c: char): (r: nat)
    ensures r <= |s|
    ensures r < |s| ==> s[r] == c
    ensures forall k :: 0 <= k < r ==> s[k] != c
  {
    if s == [] then 0
    else if s[0] == c then 0
    else 1 + FirstIndex(s[1..], c)
  }

  /** Index of the last occurrence of `c` in `s`, or `-1` when there is none. */
  function LastIndex(s: string, c: char): (r: int)
    ensures -1 <= r < |s|
    ensures 0 <= r ==> s[r] == c
    ensures forall k :: r < k < |s| ==> s[k] != c
  {
    if s == [] then -1
    else if s[|s| - 1] == c then |s| - 1
    else LastIndex(s[..|s| - 1], c)
  }

  /** The address is accepted by the pattern. The separating `@` must be the first one,
      because the local class before it admits no `@`; the dot that opens the top-level
      label must be the last one, because the label after it admits no `.`. */
  function IsValidEmail(s: string): bool {
    var at := FirstIndex(s, '@');
    var dot := LastIndex(s, '.');
    && at < |s|
    && 1 <= at
    && at + 1 < dot
    && dot + 2 < |s|
    && AllLocal(s[..at])
    && AllDomain(s[at + 1..dot])
    && AllLetters(s[dot + 1..])
  }

  /** Any split of `s` that the pattern admits is the one the scan finds: the local part
      holds no `@`, and the label holds no `.`. */
  lemma SplitIsScan(s: string, at: int, dot: int)
    requires SplitsAt(s, at, dot)
    ensures at == FirstIndex(s, '@') && dot == LastIndex(s, '.')
  {
  }

  /** The scan accepts exactly the strings of the pattern's language. */
  lemma IsValidEmailMatchesPattern(s: string)
    ensures IsValidEmail(s) <==> MatchesPattern(s)
  {
    if IsValidEmail(s) {
      assert SplitsAt(s, FirstIndex(s, '@'), LastIndex(s, '.'));
    }
    if MatchesPattern(s) {
      var at, dot :| SplitsAt(s, at, dot);
      SplitIsScan(s, at, dot);
    }
  }

  /** The pattern can match a string in one way only. */
  lemma SplitIsUnique(s: string, at: int, dot: int, at': int, dot': int)
    requires SplitsAt(s, at, dot) && SplitsAt(s, at', dot')
    ensures at == at' && dot == dot'
  {
    SplitIsScan(s, at, dot);
    SplitIsScan(s, at', dot');
  }

  // ---------------------------------------------------------------------------
  // Consequences of the pattern
  // ---------------------------------------------------------------------------

  /** Number of occurrences of `c` in `s`. */
  function Occurrences(s: string, c: char): nat {
    if s == [] then 0 else (if s[0] == c then 1 else 0) + Occurrences(s[1..], c)
  }

  lemma {:induction false} OccurrencesAbsent(s: string, c: char)
    requires forall k :: 0 <= k < |s| ==> s[k] != c
    ensures Occurrences(s, c) == 0
  {
    if s != [] {
      assert forall k :: 0 <= k < |s[1..]| ==> s[1..][k] == s[k + 1];
      OccurrencesAbsent(s[1..], c);
    }
  }

  lemma {:induction false} OccurrencesSingle(s: string, i: nat, c: char)
    requires i < |s| && s[i] == c
    requires forall k :: 0 <= k < |s| && k != i ==> s[k] != c
    ensures Occurrences(s, c) == 1
  {
    if i == 0 {
      OccurrencesAbsent(s[1..], c);
    } else {
      OccurrencesSingle(s[1..], i - 1, c);
    }
  }

  /** In a split string, the separating `@` is the only one. */
  lemma AtOnlyAtSplit(s: string, at: int, dot: int)
    requires SplitsAt(s, at, dot)
    ensures forall k :: 0 <= k < |s| && k != at ==> s[k] != '@'
  {
    forall k | 0 <= k < |s| && k != at ensures s[k] != '@' {
      if k < at {
        assert s[..at][k] == s[k];
      } else if at < k < dot {
        assert s[at + 1..dot][k - at - 1] == s[k];
      } else if dot < k {
        assert s[dot + 1..][k - dot - 1] == s[k];
      }
    }
  }

  /** Neither character class admits `@`, so a valid address has exactly one. */
  lemma ValidHasOneAt(s: string)
    requires IsValidEmail(s)
    ensures Occurrences(s, '@') == 1
  {
    var at := FirstIndex(s, '@');
    var dot := LastIndex(s, '.');
    assert SplitsAt(s, at, dot);
    AtOnlyAtSplit(s, at, dot);
    OccurrencesSingle(s, at, '@');
  }

  /** A valid address ends with a dot followed by two or more letters, each after the `@`. */
  lemma ValidEndsWithLabel(s: string)
    requires IsValidEmail(s)
    ensures |s| >= 6
    ensures IsLetter(s[|s| - 1]) && IsLetter(s[|s| - 2])
    ensures exists dot :: 0 <= dot < |s| - 2 && s[dot] == '.' && AllLetters(s[dot + 1..])
  {
    var dot := LastIndex(s, '.');
    assert s[dot + 1..][|s| - dot - 2] == s[|s| - 1];
    assert s[dot + 1..][|s| - dot - 3] == s[|s| - 2];
  }

  /** Every character of a valid address is printable ASCII other than space. */
  lemma ValidIsVisibleAscii(s: string)
    requires IsValidEmail(s)
    ensures forall k :: 0 <= k < |s| ==> '!' <= s[k] <= '~'
  {
    var at := FirstIndex(s, '@');
    var dot := LastIndex(s, '.');
    forall k | 0 <= k < |s| ensures '!' <= s[k] <= '~' {
      if k < at {
        assert s[..at][k] == s[k];
      } else if at < k < dot {
        assert s[at + 1..dot][k - at - 1] == s[k];
      } else if dot < k {
        assert s[dot + 1..][k - dot - 1] == s[k];
      }
    }
  }

  /** The empty string, a string without `@`, and a string with a space or a character
      outside ASCII are all rejected. */
  lemma InvalidInputs(s: string)
    ensures s == [] ==> !IsValidEmail(s)
    ensures (forall k :: 0 <= k < |s| ==> s[k] != '@') ==> !IsValidEmail(s)
    ensures (exists k :: 0 <= k < |s| && (s[k] == ' ' || s[k] > '\U{7F}')) ==> !IsValidEmail(s)
  {
    if IsValidEmail(s) {
      ValidHasOneAt(s);
      ValidIsVisibleAscii(s);
      if forall k :: 0 <= k < |s| ==> s[k] != '@' {
        OccurrencesAbsent(s, '@');
      }
    }
  }

  lemma ExampleAccepted()
    ensures IsValidEmail("user@example.com")
  {
    var s := "user@example.com";
    assert s[4] == '@' && s[12] == '.';
    assert s[..4] == "user" && AllLocal("user");
    assert s[5..12] == "example" && AllDomain("example");
    assert s[13..] == "com" && AllLetters("com");
    assert SplitsAt(s, 4, 12);
    IsValidEmailMatchesPattern(s);
  }

  lemma ExampleShortLabelRejected()
    ensures !IsValidEmail("user@example.c")
  {
    if IsValidEmail("user@example.c") {
      ValidEndsWithLabel("user@example.c");
    }
  }

  // ---------------------------------------------------------------------------
  // Reporting invalid addresses
  // ---------------------------------------------------------------------------

  /** The line reported for one invalid address. */
  function Segment(e: string): string {
    "email: " + e + " не валиден;\n"
  }

  /** The invalid entries of `emails`, in input order, duplicates kept. */
  function Invalid(emails: seq<string>): seq<string> {
    if emails == [] then []
    else (if IsValidEmail(emails[0]) then [] else [emails[0]]) + Invalid(emails[1..])
  }

  /** The segments of `invalid`, concatenated in order. */
  function Message(invalid: seq<string>): string {
    if invalid == [] then "" else Segment(invalid[0]) + Message(invalid[1..])
  }

  lemma {:induction false} InvalidAppend(a: seq<string>, b: seq<string>)
    ensures Invalid(a + b) == Invalid(a) + Invalid(b)
  {
    if a == [] {
      assert a + b == b;
    } else {
      assert (a + b)[1..] == a[1..] + b;
      InvalidAppend(a[1..], b);
    }
  }

  lemma {:induction false} MessageAppend(a: seq<string>, b: seq<string>)
    ensures Message(a + b) == Message(a) + Message(b)
  {
    if a == [] {
      assert a + b == b;
    } else {
      assert (a + b)[1..] == a[1..] + b;
      MessageAppend(a[1..], b);
    }
  }

  /** Every segment is non-empty, so the message is empty exactly when nothing is reported. */
  lemma MessageEmptyIff(invalid: seq<string>)
    ensures Message(invalid) == "" <==> invalid == []
  {
    if invalid != [] {
      assert Message(invalid)[0] == 'e';
    }
  }

  /** Nothing is reported exactly when every address is valid. */
  lemma {:induction false} InvalidEmptyIff(emails: seq<string>)
    ensures Invalid(emails) == [] <==> forall e :: e in emails ==> IsValidEmail(e)
  {
    if emails != [] {
      InvalidEmptyIff(emails[1..]);
      assert forall e :: e in emails <==> e == emails[0] || e in emails[1..];
    }
  }

  /** Each invalid address is reported as often as it occurs; a valid one never. */
  lemma {:induction false} InvalidCounts(emails: seq<string>, e: string)
    ensures multiset(Invalid(emails))[e] == if IsValidEmail(e) then 0 else multiset(emails)[e]
  {
    if emails != [] {
      InvalidCounts(emails[1..], e);
      assert emails == [emails[0]] + emails[1..];
    }
  }

  /** Inserting a valid address anywhere leaves the message unchanged. */
  lemma ValidContributesNothing(a: seq<string>, e: string, b: seq<string>)
    requires IsValidEmail(e)
    ensures Message(Invalid(a + [e] + b)) == Message(Invalid(a + b))
  {
    InvalidAppend(a + [e], b);
    InvalidAppend(a, [e]);
    InvalidAppend(a, b);
    assert Invalid([e]) == [];
    assert Invalid(a) + [] == Invalid(a);
  }

  /** Appending one address to the input extends the message by its segment, or by
      nothing when the address is valid. */
  lemma MessageStep(prefix: seq<string>, e: string)
    ensures Message(Invalid(prefix + [e]))
         == Message(Invalid(prefix)) + (if IsValidEmail(e) then "" else Segment(e))
  {
    InvalidAppend(prefix, [e]);
    assert [e][1..] == [];
    MessageAppend(Invalid(prefix), Invalid([e]));
    if IsValidEmail(e) {
      assert Invalid([e]) == [];
    } else {
      assert Invalid([e]) == [e];
      assert Message([e]) == Segment(e);
    }
  }

  /** Returns `None` (Go's nil error) when every address is valid; otherwise an error whose
      text is the segments of the invalid addresses, in input order. */
  method ValidEmails(emails: seq<string>) returns (err: Option<string>)
    ensures err.None? <==> forall e :: e in emails ==> IsValidEmail(e)
    ensures err.Some? ==> err.value == Message(Invalid(emails)) && err.value != ""
  {
    var errtext := "";
    for i := 0 to |emails|
      invariant errtext == Message(Invalid(emails[..i]))
    {
      assert emails[..i + 1] == emails[..i] + [emails[i]];
      MessageStep(emails[..i], emails[i]);
      if !IsValidEmail(emails[i]) {
        errtext := errtext + Segment(emails[i]);
      }
    }
    assert emails[..|emails|] == emails;
    InvalidEmptyIff(emails);
    MessageEmptyIff(Invalid(emails));
    if errtext != "" {
      err := Some(errtext);
    } else {
      err := None;
    }
  }
}
