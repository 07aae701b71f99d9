/** The e-mail chip field: a list of e-mail addresses edited as chips, kept in sync with a
    comma-separated string value. Covers the address validator, adding and removing
    chips, the Backspace shortcut, and the conversion between the list and the string. */
module EmailInput {
  import opened Wrappers
  import opened Seqs

  // ---------------------------------------------------------------------------
  // Characters and strings

  /** The characters of JavaScript's `\s` class, which are also the ones
      `String.prototype.trim` strips. */
  predicate IsWhitespace(c: char) {
    || c == '\t' || c == '\n' || c == '\U{000B}' || c == '\U{000C}' || c == '\r' || c == ' '
    || c == '\U{00A0}' || c == '\U{1680}' || ('\U{2000}' <= c <= '\U{200A}')
    || c == '\U{2028}' || c == '\U{2029}' || c == '\U{202F}' || c == '\U{205F}'
    || c == '\U{3000}' || c == '\U{FEFF}'
  }

  /** `s.indexOf(c)`: the first position of `c` in `s`, or -1. */
  function IndexOf(s: string, c: char): (i: int)
    ensures -1 <= i < |s|
    ensures i == -1 ==> forall j :: 0 <= j < |s| ==> s[j] != c
    ensures 0 <= i ==> s[i] == c && forall j :: 0 <= j < i ==> s[j] != c
  {
    if s == [] then -1
    else if s[0] == c then 0
    else
      var i := IndexOf(s[1..], c);
      if i == -1 then -1 else i + 1
  }

  // ---------------------------------------------------------------------------
  // Validation

  /** A character of the class `[^\s@]`. */
  predicate IsAddressChar(c: char) {
    !IsWhitespace(c) && c != '@'
  }

  predicate AllAddressChars(s: string) {
    forall i :: 0 <= i < |s| ==> IsAddressChar(s[i])
  }

  /** The strings the pattern `^[^\s@]+@[^\s@]+\.[^\s@]+$` matches: a non-empty run of
      address characters, `@`, a non-empty run, `.`, and a non-empty run. */
  ghost predicate MatchesEmailPattern(s: string) {
    exists at, dot :: 0 < at && at + 1 < dot && dot + 1 < |s| && s[at] == '@' && s[dot] == '.'
      && AllAddressChars(s[..at]) && AllAddressChars(s[at + 1..dot]) && AllAddressChars(s[dot + 1..])
  }

  /** After position `at` there is a `.` that is neither the first nor the last character. */
  predicate HasInnerDot(s: string, at: int) {
    exists i :: 0 <= i && at + 1 < i < |s| - 1 && s[i] == '.'
  }

  /** `isValidEmail`: no whitespace, exactly one `@` with something before it, and a `.`
      inside the part after it that neither starts nor ends that part. */
  function IsValidEmail(email: string): (r: bool)
    ensures r <==> MatchesEmailPattern(email)
  {
    var at := IndexOf(email, '@');
    var r := && (forall i :: 0 <= i < |email| ==> !IsWhitespace(email[i]))
             && at > 0
             && (forall i :: at < i < |email| ==> email[i] != '@')
             && HasInnerDot(email, at);
    if r then
      ValidMatches(email, at);
      true
    else
      assert !MatchesEmailPattern(email) by {
        if MatchesEmailPattern(email) { MatchesValid(email); }
      }
      false
  }

  lemma SliceChars(s: string, lo: int, hi: int)
    requires 0 <= lo <= hi <= |s|
    ensures AllAddressChars(s[lo..hi]) <==> forall j :: lo <= j < hi ==> IsAddressChar(s[j])
  {
    assert forall j :: lo <= j < hi ==> s[j] == s[lo..hi][j - lo];
  }

  lemma ValidMatches(email: string, at: int)
    requires 0 < at < |email| && email[at] == '@'
    requires forall i :: 0 <= i < at ==> email[i] != '@'
    requires forall i :: at < i < |email| ==> email[i] != '@'
    requires forall i :: 0 <= i < |email| ==> !IsWhitespace(email[i])
    requires HasInnerDot(email, at)
    ensures MatchesEmailPattern(email)
  {
    var dot :| at + 1 < dot < |email| - 1 && email[dot] == '.';
    SliceChars(email, 0, at);
    SliceChars(email, at + 1, dot);
    SliceChars(email, dot + 1, |email|);
    assert email[..at] == email[0..at];
    assert email[dot + 1..] == email[dot + 1..|email|];
  }

  /** The pieces of a match, read position by position. */
  predicate SplitsAsEmail(email: string, at: int, dot: int) {
    && 0 < at && at + 1 < dot && dot + 1 < |email| && email[at] == '@' && email[dot] == '.'
    && (forall j :: 0 <= j < at ==> IsAddressChar(email[j]))
    && (forall j :: at + 1 <= j < dot ==> IsAddressChar(email[j]))
    && (forall j :: dot + 1 <= j < |email| ==> IsAddressChar(email[j]))
  }

  lemma MatchSplits(email: string) returns (at: int, dot: int)
    requires MatchesEmailPattern(email)
    ensures SplitsAsEmail(email, at, dot)
  {
    at, dot :| 0 < at && at + 1 < dot && dot + 1 < |email| && email[at] == '@' && email[dot] == '.'
      && AllAddressChars(email[..at]) && AllAddressChars(email[at + 1..dot]) && AllAddressChars(email[dot + 1..]);
    assert email[..at] == email[0..at];
    assert email[dot + 1..] == email[dot + 1..|email|];
    SliceChars(email, 0, at);
    SliceChars(email, at + 1, dot);
    SliceChars(email, dot + 1, |email|);
  }

  lemma MatchHasNoWhitespace(email: string, at: int, dot: int)
    requires SplitsAsEmail(email, at, dot)
    ensures forall i :: 0 <= i < |email| ==> !IsWhitespace(email[i])
  {
    forall i | 0 <= i < |email|
      ensures !IsWhitespace(email[i])
    {
      if i < at {
        assert IsAddressChar(email[i]);
      } else if at < i < dot {
        assert IsAddressChar(email[i]);
      } else if dot < i {
        assert IsAddressChar(email[i]);
      }
    }
  }

  lemma MatchHasOneAt(email: string, at: int, dot: int)
    requires SplitsAsEmail(email, at, dot)
    ensures IndexOf(email, '@') == at
    ensures forall i :: at < i < |email| ==> email[i] != '@'
  {
    assert forall i :: 0 <= i < at ==> email[i] != '@';
    forall i | at < i < |email|
      ensures email[i] != '@'
    {
      if i < dot {
        assert IsAddressChar(email[i]);
      } else if dot < i {
        assert IsAddressChar(email[i]);
      }
    }
  }

  lemma MatchesValid(email: string)
    requires MatchesEmailPattern(email)
    ensures var at := IndexOf(email, '@');
      && (forall i :: 0 <= i < |email| ==> !IsWhitespace(email[i]))
      && at > 0
      && (forall i :: at < i < |email| ==> email[i] != '@')
      && HasInnerDot(email, at)
  {
    var at, dot := MatchSplits(email);
    MatchHasNoWhitespace(email, at, dot);
    MatchHasOneAt(email, at, dot);
    assert HasInnerDot(email, at);
  }

  // ---------------------------------------------------------------------------
  // The string value: split, trim, join

  /** `s.split(sep)`: the pieces between separators, in order. */
  function Split(s: string, sep: char): (r: seq<string>)
    ensures |r| >= 1
    ensures forall i :: 0 <= i < |r| ==> sep !in r[i]
    ensures Join(r, [sep]) == s
    decreases |s|
  {
    var k := IndexOf(s, sep);
    if k == -1 then [s]
    else
      var rest := Split(s[k + 1..], sep);
      assert s == s[..k] + [sep] + s[k + 1..];
      assert ([s[..k]] + rest)[1..] == rest;
      [s[..k]] + rest
  }

  /** `parts.join(sep)`: the pieces with `sep` between neighbours. This is the reference
      definition `Split` is checked against (`Join(Split(s, c), [c]) == s`), and the one
      `ParseJoinRoundTrip` inverts. */
  function Join(parts: seq<string>, sep: string): string {
    if parts == [] then ""
    else if |parts| == 1 then parts[0]
    else parts[0] + sep + Join(parts[1..], sep)
  }

  /** The number of whitespace characters `s` starts with. */
  function LeadingSpace(s: string): (n: nat)
    ensures n <= |s|
    ensures forall k :: 0 <= k < n ==> IsWhitespace(s[k])
    ensures n == |s| || !IsWhitespace(s[n])
  {
    if s != [] && IsWhitespace(s[0]) then 1 + LeadingSpace(s[1..]) else 0
  }

  /** Where the whitespace `s` ends with begins. */
  function TrailingSpaceStart(s: string): (n: nat)
    ensures n <= |s|
    ensures forall k :: n <= k < |s| ==> IsWhitespace(s[k])
    ensures n == 0 || !IsWhitespace(s[n - 1])
  {
    if s != [] && IsWhitespace(s[|s| - 1]) then TrailingSpaceStart(s[..|s| - 1]) else |s|
  }

  /** No whitespace at either end. */
  predicate IsTrimmed(s: string) {
    s == [] || (!IsWhitespace(s[0]) && !IsWhitespace(s[|s| - 1]))
  }

  /** `s.trim()`: drops the whitespace at both ends, and nothing else. */
  function Trim(s: string): (r: string)
    ensures IsTrimmed(r)
    ensures exists i, j :: (0 <= i <= j <= |s| && r == s[i..j]
      && (forall k :: 0 <= k < i ==> IsWhitespace(s[k]))
      && (forall k :: j <= k < |s| ==> IsWhitespace(s[k])))
  {
    var i := LeadingSpace(s);
    var t := s[i..];
    var n := TrailingSpaceStart(t);
    assert forall k :: i + n <= k < |s| ==> s[k] == t[k - i];
    assert t[..n] == s[i..i + n];
    t[..n]
  }

  /** Trimming never introduces a character: one absent from `s` is absent from its trim. */
  lemma TrimKeepsOut(s: string, c: char)
    requires c !in s
    ensures c !in Trim(s)
  {
    var i, j :| 0 <= i <= j <= |s| && Trim(s) == s[i..j];
    assert forall k :: 0 <= k < |Trim(s)| ==> Trim(s)[k] == s[i + k];
  }

  /** A string without whitespace at its ends is its own trim. */
  lemma TrimOfTrimmed(s: string)
    requires IsTrimmed(s)
    ensures Trim(s) == s
  {
  }

  /** One leading space in front of a non-empty trimmed string is trimmed away. */
  lemma TrimAfterSpace(e: string)
    requires e != [] && IsTrimmed(e)
    ensures Trim(" " + e) == e
  {
    assert (" " + e)[1..] == e;
  }

  function TrimAll(parts: seq<string>): (r: seq<string>)
    ensures |r| == |parts|
    ensures forall i :: 0 <= i < |parts| ==> r[i] == Trim(parts[i])
  {
    seq(|parts|, i requires 0 <= i < |parts| => Trim(parts[i]))
  }

  predicate NonEmpty(s: string) {
    s != ""
  }

  /** The list held for a string value: `value.split(',').map(e => e.trim()).filter(Boolean)`,
      and the empty list for the empty string. */
  function ParseEmails(value: string): (r: seq<string>)
    ensures value == "" ==> r == []
    ensures forall i :: 0 <= i < |r| ==> r[i] != "" && ',' !in r[i] && IsTrimmed(r[i])
    ensures IsFilterOf(r, TrimAll(Split(value, ',')), NonEmpty)
  {
    if value == "" then
      []
    else
      var pieces := Split(value, ',');
      TrimAllClean(pieces);
      Filter(TrimAll(pieces), NonEmpty)
  }

  /** Trimming comma-free pieces gives trimmed comma-free pieces. */
  lemma TrimAllClean(pieces: seq<string>)
    requires forall i :: 0 <= i < |pieces| ==> ',' !in pieces[i]
    ensures forall x :: x in TrimAll(pieces) ==> ',' !in x && IsTrimmed(x)
  {
    var trimmed := TrimAll(pieces);
    forall i | 0 <= i < |trimmed|
      ensures ',' !in trimmed[i]
    {
      TrimKeepsOut(pieces[i], ',');
    }
  }

  /** The string value emitted for a list: `emails.join(', ')`. */
  function JoinEmails(emails: seq<string>): string {
    Join(emails, ", ")
  }

  /** Splitting `a + sep + b` cuts at the separator first, when `a` holds none. */
  lemma SplitAtFirst(a: string, b: string, sep: char)
    requires sep !in a
    ensures Split(a + [sep] + b, sep) == [a] + Split(b, sep)
  {
    var s := a + [sep] + b;
    assert s[|a|] == sep;
    assert forall j :: 0 <= j < |a| ==> s[j] == a[j];
    assert IndexOf(s, sep) == |a|;
    assert s[..|a|] == a;
    assert s[|a| + 1..] == b;
  }

  /** The pieces after the first, each with the space `", "` leaves in front of it. */
  function Padded(parts: seq<string>): (r: seq<string>)
    ensures |r| == |parts|
    ensures forall i :: 0 <= i < |parts| ==> r[i] == " " + parts[i]
  {
    seq(|parts|, i requires 0 <= i < |parts| => " " + parts[i])
  }

  lemma {:induction false} SplitJoined(prefix: string, parts: seq<string>)
    requires parts != []
    requires ',' !in prefix
    requires forall i :: 0 <= i < |parts| ==> ',' !in parts[i]
    ensures Split(prefix + Join(parts, ", "), ',') == [prefix + parts[0]] + Padded(parts[1..])
    decreases |parts|
  {
    if |parts| == 1 {
      assert ',' !in prefix + parts[0];
      assert IndexOf(prefix + parts[0], ',') == -1;
    } else {
      var rest := Join(parts[1..], ", ");
      assert prefix + Join(parts, ", ") == (prefix + parts[0]) + [','] + (" " + rest);
      assert ',' !in prefix + parts[0];
      SplitAtFirst(prefix + parts[0], " " + rest, ',');
      assert ',' !in " ";
      SplitJoined(" ", parts[1..]);
      assert [" " + parts[1]] + Padded(parts[2..]) == Padded(parts[1..]);
    }
  }

  /** A list whose entries are non-empty, trimmed and free of commas survives the trip
      through the string value: parsing the joined list gives it back. */
  lemma ParseJoinRoundTrip(emails: seq<string>)
    requires forall i :: 0 <= i < |emails| ==> emails[i] != "" && ',' !in emails[i] && IsTrimmed(emails[i])
    ensures ParseEmails(JoinEmails(emails)) == emails
  {
    if emails != [] {
      assert ',' !in "";
      SplitJoined("", emails);
      assert "" + emails[0] == emails[0];
      assert "" + JoinEmails(emails) == JoinEmails(emails);
      var pieces := Split(JoinEmails(emails), ',');
      assert pieces == [emails[0]] + Padded(emails[1..]);
      assert JoinEmails(emails) != "" by {
        if |emails| > 1 { assert |JoinEmails(emails)| >= |emails[0]|; }
      }
      forall i | 0 <= i < |pieces|
        ensures Trim(pieces[i]) == emails[i]
      {
        if i == 0 {
          TrimOfTrimmed(emails[0]);
        } else {
          assert pieces[i] == " " + emails[i];
          TrimAfterSpace(emails[i]);
        }
      }
      assert TrimAll(pieces) == emails;
      FilterKeepsAll(emails, NonEmpty);
    }
  }

  // ---------------------------------------------------------------------------
  // The chip list

  /** The chips and the text being typed. */
  datatype EmailField = EmailField(emails: seq<string>, input: string)

  /** A field after an event, with the value passed to `onChange`, if any. */
  datatype Update = Update(field: EmailField, emitted: Option<string>)

  datatype Key = Enter | Backspace | OtherKey

  predicate NoDuplicates(s: seq<string>) {
    forall i, j :: 0 <= i < j < |s| ==> s[i] != s[j]
  }

  /** The field as first rendered for a string value. */
  function Initial(value: string): (f: EmailField)
    ensures f.input == ""
    ensures f.emails == ParseEmails(value)
    ensures forall i :: 0 <= i < |f.emails| ==> f.emails[i] != "" && ',' !in f.emails[i]
  {
    EmailField(ParseEmails(value), "")
  }

  /** `addEmail`: a valid address not yet present becomes the last chip, the typed text is
      cleared and the joined list is emitted; anything else changes nothing. */
  function AddEmail(f: EmailField, email: string): (r: Update)
    ensures r.emitted.Some? <==> MatchesEmailPattern(email) && email !in f.emails
    ensures r.emitted.Some? ==>
      && r.field.emails == f.emails + [email]
      && r.field.input == ""
      && r.emitted == Some(JoinEmails(r.field.emails))
    ensures r.emitted.None? ==> r.field == f
    ensures NoDuplicates(f.emails) ==> NoDuplicates(r.field.emails)
  {
    if IsValidEmail(email) && email !in f.emails then
      var emails := f.emails + [email];
      Update(EmailField(emails, ""), Some(JoinEmails(emails)))
    else
      Update(f, None)
  }

  /** `emails.filter((_, i) => i !== index)`. */
  function RemoveAt(s: seq<string>, index: int): (r: seq<string>)
    ensures r == if 0 <= index < |s| then s[..index] + s[index + 1..] else s
  {
    if s == [] then []
    else
      var rest := RemoveAt(s[1..], index - 1);
      if index == 0 then rest
      else
        assert 0 <= index < |s| ==> s[..index] == [s[0]] + s[1..][..index - 1];
        [s[0]] + rest
  }

  /** `removeEmail`: exactly the chip at `index` goes, the rest keep their order, and the
      joined list is emitted. */
  function RemoveEmail(f: EmailField, index: int): (r: Update)
    ensures 0 <= index < |f.emails| ==> r.field.emails == f.emails[..index] + f.emails[index + 1..]
    ensures 0 <= index < |f.emails| ==> |r.field.emails| == |f.emails| - 1
    ensures !(0 <= index < |f.emails|) ==> r.field.emails == f.emails
    ensures r.field.input == f.input
    ensures r.emitted == Some(JoinEmails(r.field.emails))
  {
    var emails := RemoveAt(f.emails, index);
    Update(EmailField(emails, f.input), Some(JoinEmails(emails)))
  }

  /** `handleKeyDown`: Enter adds the trimmed typed text when it is a new valid address;
      Backspace on empty text removes the last chip. */
  function KeyDown(f: EmailField, key: Key): (r: Update)
    ensures key == Backspace && f.input == "" && f.emails != [] ==>
      && r.field.emails == f.emails[..|f.emails| - 1]
      && r.field.input == f.input
      && r.emitted == Some(JoinEmails(f.emails[..|f.emails| - 1]))
    ensures key == Backspace && (f.input != "" || f.emails == []) ==> r == Update(f, None)
    ensures key == Enter ==>
      var typed := Trim(f.input);
      if typed != "" && MatchesEmailPattern(typed) && typed !in f.emails then
        r.field == EmailField(f.emails + [typed], "") && r.emitted == Some(JoinEmails(f.emails + [typed]))
      else
        r == Update(f, None)
    ensures key == OtherKey ==> r == Update(f, None)
  {
    match key
    case Enter =>
      var email := Trim(f.input);
      if email != "" && IsValidEmail(email) && email !in f.emails then AddEmail(f, email)
      else Update(f, None)
    case Backspace =>
      if f.input == "" && |f.emails| > 0 then RemoveEmail(f, |f.emails| - 1)
      else Update(f, None)
    case OtherKey =>
      Update(f, None)
  }

  /** A valid address has no whitespace, so it is non-empty and trimmed. */
  lemma ValidEmailIsTrimmed(email: string)
    requires MatchesEmailPattern(email)
    ensures email != "" && IsTrimmed(email)
  {
    MatchesValid(email);
  }

  /** When the chips are valid comma-free addresses, the value `addEmail` emits parses
      back to the new chip list, so re-reading the value keeps the field as it is. */
  lemma AddEmailValueReparses(f: EmailField, email: string)
    requires forall i :: 0 <= i < |f.emails| ==> MatchesEmailPattern(f.emails[i]) && ',' !in f.emails[i]
    requires ',' !in email
    requires AddEmail(f, email).emitted.Some?
    ensures ParseEmails(AddEmail(f, email).emitted.value) == AddEmail(f, email).field.emails
  {
    var emails := f.emails + [email];
    forall i | 0 <= i < |emails|
      ensures emails[i] != "" && ',' !in emails[i] && IsTrimmed(emails[i])
    {
      ValidEmailIsTrimmed(emails[i]);
    }
    ParseJoinRoundTrip(emails);
  }

  /** The validator admits commas (they are neither whitespace nor `@`), so an address such
      as `a,b@c.d` is added as one chip, but the value emitted for it splits at the comma
      when it is read back: the chip list and the string value fall out of step. */
  lemma CommaAddressSplitsOnReparse()
    ensures
      var r := AddEmail(EmailField([], ""), "a,b@c.d");
      && r.emitted == Some("a,b@c.d")
      && r.field.emails == ["a,b@c.d"]
      && ParseEmails(r.emitted.value) == ["a", "b@c.d"]
  {
    var email := "a,b@c.d";
    CommaAddressMatches();
    assert IsValidEmail(email);
    var r := AddEmail(EmailField([], ""), email);
    assert r.field.emails == [email];
    assert JoinEmails([email]) == email;
    CommaValueParses();
  }

  lemma CommaAddressMatches()
    ensures MatchesEmailPattern("a,b@c.d")
  {
    var email := "a,b@c.d";
    assert IsAddressChar('a') && IsAddressChar(',') && IsAddressChar('b');
    assert IsAddressChar('c') && IsAddressChar('d');
    SliceChars(email, 0, 3);
    SliceChars(email, 3 + 1, 5);
    SliceChars(email, 5 + 1, 7);
    assert email[..3] == email[0..3] && email[5 + 1..] == email[5 + 1..7];
    assert 0 < 3 && 3 + 1 < 5 && 5 + 1 < |email| && email[3] == '@' && email[5] == '.'
      && AllAddressChars(email[..3]) && AllAddressChars(email[3 + 1..5]) && AllAddressChars(email[5 + 1..]);
  }

  lemma CommaValueParses()
    ensures ParseEmails("a,b@c.d") == ["a", "b@c.d"]
  {
    var pieces := ["a", "b@c.d"];
    CommaValueSplits();
    TrimOfTrimmed(pieces[0]);
    TrimOfTrimmed(pieces[1]);
    assert TrimAll(pieces) == pieces;
    FilterKeepsAll(pieces, NonEmpty);
    assert ParseEmails("a,b@c.d") == Filter(TrimAll(pieces), NonEmpty);
  }

  lemma CommaValueSplits()
    ensures Split("a,b@c.d", ',') == ["a", "b@c.d"]
  {
    assert "a,b@c.d" == "a" + [','] + "b@c.d";
    SplitAtFirst("a", "b@c.d", ',');
    assert IndexOf("b@c.d", ',') == -1;
  }

  /** A chip address: valid, and free of the comma that separates chips in the value. */
  predicate IsChipAddress(email: string) {
    IsValidEmail(email) && ',' !in email
  }

  /** `addEmail` with the chip separator excluded: a valid, comma-free address not yet
      present becomes the last chip; anything else changes nothing. */
  function AddChip(f: EmailField, email: string): (r: Update)
    ensures r.emitted.Some? <==> MatchesEmailPattern(email) && ',' !in email && email !in f.emails
    ensures r.emitted.Some? ==>
      && r.field.emails == f.emails + [email]
      && r.field.input == ""
      && r.emitted == Some(JoinEmails(r.field.emails))
    ensures r.emitted.None? ==> r.field == f
    ensures NoDuplicates(f.emails) ==> NoDuplicates(r.field.emails)
  {
    if IsChipAddress(email) && email !in f.emails then
      var emails := f.emails + [email];
      Update(EmailField(emails, ""), Some(JoinEmails(emails)))
    else
      Update(f, None)
  }

  /** With the separator excluded, every emitted value parses back to the chip list, for
      any address offered: chips that are chip addresses stay chip addresses. */
  lemma AddChipValueReparses(f: EmailField, email: string)
    requires forall i :: 0 <= i < |f.emails| ==> MatchesEmailPattern(f.emails[i]) && ',' !in f.emails[i]
    ensures var r := AddChip(f, email);
      && (forall i :: 0 <= i < |r.field.emails| ==> MatchesEmailPattern(r.field.emails[i]) && ',' !in r.field.emails[i])
      && (r.emitted.Some? ==> ParseEmails(r.emitted.value) == r.field.emails)
  {
    var r := AddChip(f, email);
    if r.emitted.Some? {
      var emails := f.emails + [email];
      assert MatchesEmailPattern(email) && ',' !in email;
      assert r.field.emails == emails;
      assert forall i :: 0 <= i < |emails| ==> MatchesEmailPattern(emails[i]) && ',' !in emails[i] by {
        forall i | 0 <= i < |emails|
          ensures MatchesEmailPattern(emails[i]) && ',' !in emails[i]
        {
          if i < |f.emails| { assert emails[i] == f.emails[i]; }
        }
      }
      forall i | 0 <= i < |emails|
        ensures emails[i] != "" && ',' !in emails[i] && IsTrimmed(emails[i])
      {
        ValidEmailIsTrimmed(emails[i]);
      }
      ParseJoinRoundTrip(emails);
    }
  }
}
