/** `extract_contacts`: the phone and e-mail patterns, `findall`'s left-to-right scan, the
    canonicalisation of phone matches and the sorted, de-duplicated result.

    The three regular expressions are matched by hand-written matchers. None of them needs
    backtracking to find the match Python's engine finds: an optional or repeated separator
    is taken exactly when the next character is one (nothing after it could match that
    character instead), the e-mail local part must run up to an '@', and the e-mail domain
    ends at the last '.' of its run that is followed by at least two letters and a word
    boundary. */
module Tools {
  import opened Strings
  import opened Ordering
  import opened Cells

  /** The three patterns of `extract_contacts`. */
  datatype Pattern =
    | PlusOnePhone    // \+1[\s\-\.]?\(?\d{3}\)?[\s\-\.]?\d{3}[\s\-\.]?\d{4}
    | SeparatedPhone  // \(?\d{3}\)?[\s\-\.]+\d{3}[\s\-\.]+\d{4}
    | EmailAddress    // \b[a-zA-Z0-9._%+-]+@[a-zA-Z0-9.-]+\.[a-zA-Z]{2,}\b

  /** The character classes the patterns repeat. */
  datatype CharClass = Separator | LocalPart | DomainPart | Letter

  predicate InClass(c: char, cls: CharClass) {
    match cls
    case Separator => IsSpace(c) || c == '-' || c == '.'
    case LocalPart => IsDigit(c) || IsAsciiLetter(c) || c == '.' || c == '_' || c == '%' || c == '+' || c == '-'
    case DomainPart => IsDigit(c) || IsAsciiLetter(c) || c == '.' || c == '-'
    case Letter => IsAsciiLetter(c)
  }

  /** End of the longest run of `cls` characters starting at `i`. */
  function RunEnd(text: string, i: nat, cls: CharClass): (j: nat)
    requires i <= |text|
    ensures i <= j <= |text|
    ensures forall k :: i <= k < j ==> InClass(text[k], cls)
    ensures j == |text| || !InClass(text[j], cls)
    decreases |text| - i
  {
    if i < |text| && InClass(text[i], cls) then RunEnd(text, i + 1, cls) else i
  }

  /** An optional single character `c` at `i` (`\(?`, `\)?`). */
  function SkipChar(text: string, i: nat, c: char): (j: nat)
    requires i <= |text|
    ensures j <= |text|
  {
    if i < |text| && text[i] == c then i + 1 else i
  }

  /** An optional separator at `i` (`[\s\-\.]?`). */
  function SkipSeparator(text: string, i: nat): (j: nat)
    requires i <= |text|
    ensures j <= |text|
  {
    if i < |text| && InClass(text[i], Separator) then i + 1 else i
  }

  /** `n` digits start at `i` (`\d{n}`). */
  predicate DigitsAt(text: string, i: nat, n: nat) {
    i + n <= |text| && forall k :: i <= k < i + n ==> IsDigit(text[k])
  }

  /** `\b` at `i`: exactly one of the characters around it is a word character. */
  predicate WordBoundary(text: string, i: nat) {
    (0 < i <= |text| && IsWordChar(text[i - 1])) != (i < |text| && IsWordChar(text[i]))
  }

  /** A '.' at `dot` followed by two or more letters and a word boundary (`\.[a-zA-Z]{2,}\b`,
      where the greedy letter run cannot give back letters: a boundary never falls between
      two letters). */
  predicate TldAt(text: string, dot: nat) {
    dot < |text| && text[dot] == '.' &&
    var e := RunEnd(text, dot + 1, Letter);
    e - (dot + 1) >= 2 && WordBoundary(text, e)
  }

  /** The last position in [lo, hi) where `TldAt` holds: the greedy domain run gives back
      characters from the right until the rest of the pattern matches. */
  function LastTldDot(text: string, lo: nat, hi: nat): (r: Option<nat>)
    requires hi <= |text|
    ensures r.Some? ==> lo <= r.value < hi && TldAt(text, r.value)
    ensures r.None? ==> forall k :: lo <= k < hi ==> !TldAt(text, k)
    decreases hi
  {
    if hi <= lo then None
    else if TldAt(text, hi - 1) then Some(hi - 1)
    else LastTldDot(text, lo, hi - 1)
  }

  function MatchPlusOne(text: string, i: nat): (e: Option<nat>)
    requires i <= |text|
    ensures e.Some? ==> i + 12 <= e.value <= |text| && text[i] == '+' && text[i + 1] == '1'
  {
    if !(i + 2 <= |text| && text[i] == '+' && text[i + 1] == '1') then None
    else
      var a := SkipChar(text, SkipSeparator(text, i + 2), '(');
      if !DigitsAt(text, a, 3) then None
      else
        var b := SkipSeparator(text, SkipChar(text, a + 3, ')'));
        if !DigitsAt(text, b, 3) then None
        else
          var c := SkipSeparator(text, b + 3);
          if !DigitsAt(text, c, 4) then None else Some(c + 4)
  }

  function MatchSeparated(text: string, i: nat): (e: Option<nat>)
    requires i <= |text|
    ensures e.Some? ==> i + 12 <= e.value <= |text|
  {
    var a := SkipChar(text, i, '(');
    if !DigitsAt(text, a, 3) then None
    else
      var s1 := SkipChar(text, a + 3, ')');
      var b := RunEnd(text, s1, Separator);
      if b == s1 || !DigitsAt(text, b, 3) then None
      else
        var c := RunEnd(text, b + 3, Separator);
        if c == b + 3 || !DigitsAt(text, c, 4) then None else Some(c + 4)
  }

  function MatchEmail(text: string, i: nat): (e: Option<nat>)
    requires i <= |text|
    ensures e.Some? ==> i + 6 <= e.value <= |text| && text[i] != '@'
  {
    if !(i < |text| && InClass(text[i], LocalPart) && WordBoundary(text, i)) then None
    else
      var at := RunEnd(text, i, LocalPart);
      if !(at < |text| && text[at] == '@') then None
      else
        var domainEnd := RunEnd(text, at + 1, DomainPart);
        match LastTldDot(text, at + 2, domainEnd)
        case None => None
        case Some(dot) => Some(RunEnd(text, dot + 1, Letter))
  }

  /** Where the match of `p` that starts at `i` ends, if one does. */
  function MatchAt(p: Pattern, text: string, i: nat): (e: Option<nat>)
    requires i <= |text|
    ensures e.Some? ==> i < e.value <= |text|
  {
    match p
    case PlusOnePhone => MatchPlusOne(text, i)
    case SeparatedPhone => MatchSeparated(text, i)
    case EmailAddress => MatchEmail(text, i)
  }

  /** `pattern.findall(text[i:])`: leftmost matches, each scan resuming where the last match
      ended. */
  function FindAll(p: Pattern, text: string, i: nat): (r: seq<string>)
    requires i <= |text|
    ensures |r| <= |text| - i
    ensures forall m :: m in r ==> m != ""
    decreases |text| - i
  {
    if i == |text| then []
    else
      match MatchAt(p, text, i)
      case Some(e) => [text[i..e]] + FindAll(p, text, e)
      case None => FindAll(p, text, i + 1)
  }

  /** Lines 70-76: the digits of a match, given a `+1` when there are ten of them or a `+`
      when there are eleven starting with 1; kept only if the result has the E.164 shape. */
  function CanonicalMatch(m: string): (r: Option<string>)
    ensures r.Some? <==> |DigitsOnly(m)| == 10 || (|DigitsOnly(m)| == 11 && DigitsOnly(m)[0] == '1')
    ensures r.Some? ==> IsCanonicalPhone(r.value) && r.value == "+1" + DigitsOnly(m)[|DigitsOnly(m)| - 10..]
  {
    var digits := DigitsOnly(m);
    var num := if |digits| == 10 then "+1" + digits
               else if |digits| == 11 && digits[0] == '1' then "+" + digits
               else digits;
    if |num| == 12 && StartsWith(num, "+1") then Some(num) else None
  }

  /** The canonical forms of the matches that have one, in match order. */
  function CanonicalPhones(ms: seq<string>): (r: seq<string>)
  {
    if ms == [] then []
    else
      CanonicalPhones(ms[..|ms| - 1]) + match CanonicalMatch(ms[|ms| - 1]) case Some(p) => [p] case None => []
  }

  /** Every phone `extract_contacts` collects is `+1` and ten digits. */
  lemma {:induction false} CanonicalPhonesAreCanonical(ms: seq<string>)
    ensures forall y :: y in CanonicalPhones(ms) ==> IsCanonicalPhone(y)
  {
    if ms != [] {
      CanonicalPhonesAreCanonical(ms[..|ms| - 1]);
    }
  }

  lemma CanonicalPhonesSnoc(ms: seq<string>, m: string)
    ensures forall y :: y in CanonicalPhones(ms + [m]) <==> y in CanonicalPhones(ms) || CanonicalMatch(m) == Some(y)
  {
    assert (ms + [m])[..|ms|] == ms;
  }

  /** A phone is collected exactly when some match canonicalises to it. */
  lemma {:induction false} CanonicalPhonesMembers(ms: seq<string>)
    ensures forall y :: y in CanonicalPhones(ms) <==> exists m :: m in ms && CanonicalMatch(m) == Some(y)
  {
    if ms != [] {
      var init := ms[..|ms| - 1];
      var last := ms[|ms| - 1];
      assert ms == init + [last];
      CanonicalPhonesMembers(init);
      CanonicalPhonesSnoc(init, last);
      forall y | (exists m :: m in ms && CanonicalMatch(m) == Some(y))
        ensures y in CanonicalPhones(ms)
      {
        var m :| m in ms && CanonicalMatch(m) == Some(y);
        if m != last {
          assert m in init;
        }
      }
    }
  }

  /** When every phone match, and at least one, stands for the same number, the result is
      that one number: the set removes the repeats. */
  lemma SamePhoneEverywhere(text: string, phone: string)
    requires PhoneMatches(text) != []
    requires forall m :: m in PhoneMatches(text) ==> CanonicalMatch(m) == Some(phone)
    ensures ExtractedPhones(text) == [phone]
  {
    var ms := PhoneMatches(text);
    CanonicalPhonesMembers(ms);
    assert ms[0] in ms;
    SortedUnique(ExtractedPhones(text), [phone]);
  }

  /** Every match of both phone patterns, the `+1` pattern's first. */
  function PhoneMatches(text: string): seq<string> {
    FindAll(PlusOnePhone, text, 0) + FindAll(SeparatedPhone, text, 0)
  }

  /** `result["phones"]` */
  function ExtractedPhones(text: string): seq<string> {
    SortUnique(CanonicalPhones(PhoneMatches(text)))
  }

  /** `result["emails"]` */
  function ExtractedEmails(text: string): seq<string> {
    SortUnique(FindAll(EmailAddress, text, 0))
  }

  lemma {:induction false} CanonicalPhonesAppend(a: seq<string>, b: seq<string>)
    ensures forall y :: y in CanonicalPhones(a + b) <==> y in CanonicalPhones(a) || y in CanonicalPhones(b)
    decreases |b|
  {
    if b != [] {
      var init := b[..|b| - 1];
      var m := b[|b| - 1];
      assert a + b == (a + init) + [m];
      assert b == init + [m];
      CanonicalPhonesAppend(a, init);
      CanonicalPhonesSnoc(a + init, m);
      CanonicalPhonesSnoc(init, m);
    } else {
      assert a + b == a;
    }
  }

  /** Lines 69-76, the inner loop: adds the canonical form of each match to the set. */
  method AddCanonicalMatches(phoneSet: set<string>, matches: seq<string>) returns (r: set<string>)
    ensures forall y :: y in r <==> y in phoneSet || y in CanonicalPhones(matches)
  {
    r := phoneSet;
    for k := 0 to |matches|
      invariant forall y :: y in r <==> y in phoneSet || y in CanonicalPhones(matches[..k])
    {
      var num := CanonicalMatch(matches[k]);
      if num.Some? {
        r := r + {num.value};
      }
      assert matches[..k + 1] == matches[..k] + [matches[k]];
      CanonicalPhonesSnoc(matches[..k], matches[k]);
    }
    assert matches[..|matches|] == matches;
  }

  /** Lines 67-76: the loop over both phone patterns that fills the `phones` set. */
  method CollectPhones(text: string) returns (phoneSet: set<string>)
    ensures forall y :: y in phoneSet <==> y in CanonicalPhones(PhoneMatches(text))
  {
    var patterns := [PlusOnePhone, SeparatedPhone];
    phoneSet := {};
    for pi := 0 to |patterns|
      invariant forall y :: y in phoneSet <==> y in CanonicalPhones(if pi == 0 then [] else FindAll(PlusOnePhone, text, 0))
                                                || (pi == 2 && y in CanonicalPhones(FindAll(SeparatedPhone, text, 0)))
    {
      phoneSet := AddCanonicalMatches(phoneSet, FindAll(patterns[pi], text, 0));
    }
    CanonicalPhonesAppend(FindAll(PlusOnePhone, text, 0), FindAll(SeparatedPhone, text, 0));
  }

  /** `extract_contacts(text)`: both lists come back sorted, without repeats. */
  method ExtractContacts(text: string) returns (phones: seq<string>, emails: seq<string>)
    ensures phones == ExtractedPhones(text) && emails == ExtractedEmails(text)
    ensures StrictlySorted(phones) && StrictlySorted(emails)
    ensures forall p :: p in phones ==> IsCanonicalPhone(p)
    ensures forall y :: y in emails <==> y in FindAll(EmailAddress, text, 0)
  {
    var emailSet := set m | m in FindAll(EmailAddress, text, 0);
    var phoneSet := CollectPhones(text);
    CanonicalPhonesAreCanonical(PhoneMatches(text));
    phones := SortedList(phoneSet);
    emails := SortedList(emailSet);
    SortedUnique(phones, ExtractedPhones(text));
    SortedUnique(emails, ExtractedEmails(text));
  }

  /** Positions where no match starts are skipped by the scan. */
  lemma {:induction false} FindAllSkip(p: Pattern, text: string, i: nat, j: nat)
    requires i <= j <= |text|
    requires forall k :: i <= k < j ==> MatchAt(p, text, k).None?
    ensures FindAll(p, text, i) == FindAll(p, text, j)
    decreases j - i
  {
    if i < j {
      FindAllNoMatch(p, text, i);
      FindAllSkip(p, text, i + 1, j);
    }
  }

  /** A position where no match starts is skipped. */
  lemma FindAllNoMatch(p: Pattern, text: string, i: nat)
    requires i < |text| && MatchAt(p, text, i).None?
    ensures FindAll(p, text, i) == FindAll(p, text, i + 1)
  {
  }

  /** Text with no '+' and no separator character (whitespace, '-', '.') holds no phone:
      the first pattern needs the "+1" and the second a separator in both gaps. */
  lemma NoSeparatorNoPhone(text: string)
    requires forall k :: 0 <= k < |text| ==> text[k] != '+' && !InClass(text[k], Separator)
    ensures ExtractedPhones(text) == []
  {
    forall k | 0 <= k < |text|
      ensures MatchAt(PlusOnePhone, text, k).None? && MatchAt(SeparatedPhone, text, k).None?
    {
      var a := SkipChar(text, k, '(');
      if DigitsAt(text, a, 3) {
        var s1 := SkipChar(text, a + 3, ')');
        assert RunEnd(text, s1, Separator) == s1;
      }
    }
    FindAllSkip(PlusOnePhone, text, 0, |text|);
    FindAllSkip(SeparatedPhone, text, 0, |text|);
    assert PhoneMatches(text) == [];
  }

  predicate DigitFree(text: string, i: nat, j: nat)
    requires i <= j <= |text|
  {
    forall k :: i <= k < j ==> !IsDigit(text[k])
  }

  lemma {:induction false} DigitFreeDigits(text: string, i: nat, j: nat)
    requires i <= j <= |text| && DigitFree(text, i, j)
    ensures DigitsOnly(text[i..j]) == ""
    decreases j - i
  {
    if i < j {
      assert text[i..j][1..] == text[i + 1..j];
      DigitFreeDigits(text, i + 1, j);
    }
  }

  lemma GapThenGroup(text: string, i: nat, a: nat, n: nat, e: nat)
    requires i <= a && a + n <= e <= |text|
    requires DigitFree(text, i, a) && DigitsAt(text, a, n)
    ensures DigitsOnly(text[i..e]) == text[a..a + n] + DigitsOnly(text[a + n..e])
  {
    DigitFreeDigits(text, i, a);
    assert AllDigits(text[a..a + n]);
    DigitsOnlyOfDigits(text[a..a + n]);
    DigitsOnlySlice(text, i, a, e);
    DigitsOnlySlice(text, a, a + n, e);
  }

  /** A three-, three- and n-digit group with digit-free gaps before and between them. */
  lemma ThreeGroups(text: string, i: nat, a: nat, b: nat, c: nat, n: nat)
    requires i <= a && a + 3 <= b && b + 3 <= c && c + n <= |text|
    requires DigitFree(text, i, a) && DigitFree(text, a + 3, b) && DigitFree(text, b + 3, c)
    requires DigitsAt(text, a, 3) && DigitsAt(text, b, 3) && DigitsAt(text, c, n)
    ensures DigitsOnly(text[i..c + n]) == text[a..a + 3] + text[b..b + 3] + text[c..c + n]
  {
    var e := c + n;
    var g1, g2, g3 := text[a..a + 3], text[b..b + 3], text[c..e];
    GapThenGroup(text, b + 3, c, n, e);
    assert text[e..e] == [];
    assert DigitsOnly(text[b + 3..e]) == g3;
    GapThenGroup(text, a + 3, b, 3, e);
    assert DigitsOnly(text[a + 3..e]) == g2 + g3;
    GapThenGroup(text, i, a, 3, e);
    assert DigitsOnly(text[i..e]) == g1 + (g2 + g3);
    assert g1 + (g2 + g3) == g1 + g2 + g3;
  }

  lemma SkipCharDigitFree(text: string, i: nat, c: char)
    requires i <= |text| && !IsDigit(c)
    ensures i <= SkipChar(text, i, c) && DigitFree(text, i, SkipChar(text, i, c))
  {
  }

  lemma SkipSeparatorDigitFree(text: string, i: nat)
    requires i <= |text|
    ensures i <= SkipSeparator(text, i) && DigitFree(text, i, SkipSeparator(text, i))
  {
  }

  lemma SeparatorRunDigitFree(text: string, i: nat)
    requires i <= |text|
    ensures DigitFree(text, i, RunEnd(text, i, Separator))
  {
    var j := RunEnd(text, i, Separator);
    forall k | i <= k < j
      ensures !IsDigit(text[k])
    {
      assert InClass(text[k], Separator);
    }
  }

  lemma DigitFreeJoin(text: string, i: nat, j: nat, k: nat)
    requires i <= j <= k <= |text| && DigitFree(text, i, j) && DigitFree(text, j, k)
    ensures DigitFree(text, i, k)
  {
  }

  /** Every match of the separated pattern carries exactly ten digits. */
  lemma SeparatedMatchDigits(text: string, i: nat)
    requires i <= |text| && MatchSeparated(text, i).Some?
    ensures |DigitsOnly(text[i..MatchSeparated(text, i).value])| == 10
  {
    var a, b, c := SeparatedLayout(text, i);
    SeparatedGaps(text, i, a, b, c);
    ThreeGroups(text, i, a, b, c, 4);
  }

  /** The separated pattern's rule: every match is three digit groups with at least one
      separator character in each of the two gaps, so the digits of a match never form a
      single run. */
  lemma SeparatedMatchGaps(text: string, i: nat) returns (a: nat, s: nat, b: nat, t: nat, c: nat)
    requires i <= |text| && MatchSeparated(text, i).Some?
    ensures i <= a && DigitsAt(text, a, 3)
    ensures DigitsAt(text, b, 3) && a + 3 <= s < b && InClass(text[s], Separator)
    ensures DigitsAt(text, c, 4) && b + 3 <= t < c && InClass(text[t], Separator)
    ensures MatchSeparated(text, i).value == c + 4
  {
    a, b, c := SeparatedLayout(text, i);
    s := SkipChar(text, a + 3, ')');
    t := b + 3;
  }

  /** The group starts of a separated match. */
  lemma SeparatedLayout(text: string, i: nat) returns (a: nat, b: nat, c: nat)
    requires i <= |text| && MatchSeparated(text, i).Some?
    ensures a == SkipChar(text, i, '(') && DigitsAt(text, a, 3)
    ensures b == RunEnd(text, SkipChar(text, a + 3, ')'), Separator) && DigitsAt(text, b, 3)
    ensures c == RunEnd(text, b + 3, Separator) && DigitsAt(text, c, 4)
    ensures MatchSeparated(text, i).value == c + 4
  {
    a := SkipChar(text, i, '(');
    b := RunEnd(text, SkipChar(text, a + 3, ')'), Separator);
    c := RunEnd(text, b + 3, Separator);
  }

  lemma SeparatedGaps(text: string, i: nat, a: nat, b: nat, c: nat)
    requires i <= |text| && a + 3 <= |text| && b + 3 <= |text|
    requires a == SkipChar(text, i, '(')
    requires b == RunEnd(text, SkipChar(text, a + 3, ')'), Separator)
    requires c == RunEnd(text, b + 3, Separator)
    ensures i <= a && a + 3 <= b && b + 3 <= c
    ensures DigitFree(text, i, a) && DigitFree(text, a + 3, b) && DigitFree(text, b + 3, c)
  {
    var s1 := SkipChar(text, a + 3, ')');
    SkipCharDigitFree(text, i, '(');
    SkipCharDigitFree(text, a + 3, ')');
    SeparatorRunDigitFree(text, s1);
    DigitFreeJoin(text, a + 3, s1, b);
    SeparatorRunDigitFree(text, b + 3);
  }

  /** Every match of the `+1` pattern carries eleven digits, the first of them the 1. */
  lemma PlusOneMatchDigits(text: string, i: nat)
    requires i <= |text| && MatchPlusOne(text, i).Some?
    ensures var d := DigitsOnly(text[i..MatchPlusOne(text, i).value]); |d| == 11 && d[0] == '1'
  {
    var a, b, c := PlusOneLayout(text, i);
    PlusOneGaps(text, i, a, b, c);
    PlusOneGroups(text, i, a, b, c);
  }

  /** The group starts of a `+1` match. */
  lemma PlusOneLayout(text: string, i: nat) returns (a: nat, b: nat, c: nat)
    requires i <= |text| && MatchPlusOne(text, i).Some?
    ensures i + 2 <= |text| && text[i] == '+' && text[i + 1] == '1'
    ensures a == SkipChar(text, SkipSeparator(text, i + 2), '(') && DigitsAt(text, a, 3)
    ensures b == SkipSeparator(text, SkipChar(text, a + 3, ')')) && DigitsAt(text, b, 3)
    ensures c == SkipSeparator(text, b + 3) && DigitsAt(text, c, 4)
    ensures MatchPlusOne(text, i).value == c + 4
  {
    a := SkipChar(text, SkipSeparator(text, i + 2), '(');
    b := SkipSeparator(text, SkipChar(text, a + 3, ')'));
    c := SkipSeparator(text, b + 3);
  }

  lemma PlusOneGaps(text: string, i: nat, a: nat, b: nat, c: nat)
    requires i + 2 <= |text| && a + 3 <= |text| && b + 3 <= |text|
    requires a == SkipChar(text, SkipSeparator(text, i + 2), '(')
    requires b == SkipSeparator(text, SkipChar(text, a + 3, ')'))
    requires c == SkipSeparator(text, b + 3)
    ensures i + 2 <= a && a + 3 <= b && b + 3 <= c
    ensures DigitFree(text, i + 2, a) && DigitFree(text, a + 3, b) && DigitFree(text, b + 3, c)
  {
    var a0 := SkipSeparator(text, i + 2);
    var b0 := SkipChar(text, a + 3, ')');
    SkipSeparatorDigitFree(text, i + 2);
    SkipCharDigitFree(text, a0, '(');
    DigitFreeJoin(text, i + 2, a0, a);
    SkipCharDigitFree(text, a + 3, ')');
    SkipSeparatorDigitFree(text, b0);
    DigitFreeJoin(text, a + 3, b0, b);
    SkipSeparatorDigitFree(text, b + 3);
  }

  lemma PlusOneGroups(text: string, i: nat, a: nat, b: nat, c: nat)
    requires i + 2 <= a && a + 3 <= b && b + 3 <= c && c + 4 <= |text|
    requires text[i] == '+' && text[i + 1] == '1'
    requires DigitFree(text, i + 2, a) && DigitFree(text, a + 3, b) && DigitFree(text, b + 3, c)
    requires DigitsAt(text, a, 3) && DigitsAt(text, b, 3) && DigitsAt(text, c, 4)
    ensures var d := DigitsOnly(text[i..c + 4]); |d| == 11 && d[0] == '1'
  {
    var e := c + 4;
    ThreeGroups(text, i + 2, a, b, c, 4);
    DigitsOnlySlice(text, i, i + 2, e);
    PlusOneDigit(text[i..i + 2]);
    var d2 := DigitsOnly(text[i + 2..e]);
    assert |d2| == 10;
    var d := DigitsOnly(text[i..e]);
    assert d == [text[i + 1]] + d2;
  }

  lemma PlusOneDigit(t: string)
    requires |t| == 2 && t[0] == '+' && IsDigit(t[1])
    ensures DigitsOnly(t) == [t[1]]
  {
    assert t[1..][1..] == [];
  }

  lemma {:induction false} FindAllPhonesCanonicalise(p: Pattern, text: string, i: nat)
    requires p != EmailAddress && i <= |text|
    ensures forall m :: m in FindAll(p, text, i) ==> CanonicalMatch(m).Some?
    decreases |text| - i
  {
    if i < |text| {
      match MatchAt(p, text, i)
      case Some(e) =>
        if p == PlusOnePhone { PlusOneMatchDigits(text, i); } else { SeparatedMatchDigits(text, i); }
        FindAllPhonesCanonicalise(p, text, e);
      case None =>
        FindAllPhonesCanonicalise(p, text, i + 1);
    }
  }

  /** The digit-count filter of lines 71-76 never drops a match: a `+1` match has eleven
      digits starting with 1 and a separated match ten, so every match yields one phone. */
  lemma EveryPhoneMatchCanonicalises(text: string)
    ensures forall m :: m in PhoneMatches(text) ==> CanonicalMatch(m).Some?
  {
    FindAllPhonesCanonicalise(PlusOnePhone, text, 0);
    FindAllPhonesCanonicalise(SeparatedPhone, text, 0);
  }

  /** One '@', and a '.' followed only by two or more letters at the end. */
  predicate HasEmailShape(e: string) {
    Count(e, '@') == 1 &&
    exists k :: 0 <= k && k + 3 <= |e| && e[k] == '.' && forall j :: k < j < |e| ==> IsAsciiLetter(e[j])
  }

  lemma EmailMatchShape(text: string, i: nat)
    requires i <= |text| && MatchEmail(text, i).Some?
    ensures HasEmailShape(text[i..MatchEmail(text, i).value])
  {
    var at := RunEnd(text, i, LocalPart);
    var domainEnd := RunEnd(text, at + 1, DomainPart);
    var dot := LastTldDot(text, at + 2, domainEnd).value;
    var e := RunEnd(text, dot + 1, Letter);
    assert MatchEmail(text, i).value == e;
    forall k | i <= k < e && k != at
      ensures text[k] != '@'
    {
      if k < at {
        assert InClass(text[k], LocalPart);
      } else if k <= dot {
        assert InClass(text[k], DomainPart);
      } else {
        assert InClass(text[k], Letter);
      }
    }
    OneAt(text, i, at, e);
    TldEnding(text, i, dot, e);
  }

  lemma OneAt(text: string, i: nat, at: nat, e: nat)
    requires i <= at < e <= |text| && text[at] == '@'
    requires forall k :: i <= k < e && k != at ==> text[k] != '@'
    ensures Count(text[i..e], '@') == 1
  {
    assert text[i..e] == text[i..at] + [text[at]] + text[at + 1..e];
    assert '@' !in text[i..at];
    assert '@' !in text[at + 1..e];
  }

  lemma TldEnding(text: string, i: nat, dot: nat, e: nat)
    requires i <= dot && dot + 3 <= e <= |text| && text[dot] == '.'
    requires forall k :: dot < k < e ==> IsAsciiLetter(text[k])
    ensures exists k :: 0 <= k && k + 3 <= |text[i..e]| && text[i..e][k] == '.'
                        && forall j :: k < j < |text[i..e]| ==> IsAsciiLetter(text[i..e][j])
  {
    var m := text[i..e];
    var k := dot - i;
    assert m[k] == '.';
    assert forall j :: k < j < |m| ==> m[j] == text[i + j];
  }

  lemma {:induction false} FindAllEmailsShape(text: string, i: nat)
    requires i <= |text|
    ensures forall m :: m in FindAll(EmailAddress, text, i) ==> HasEmailShape(m)
    decreases |text| - i
  {
    if i < |text| {
      match MatchAt(EmailAddress, text, i)
      case Some(e) =>
        EmailMatchShape(text, i);
        FindAllEmailsShape(text, e);
      case None =>
        FindAllEmailsShape(text, i + 1);
    }
  }

  /** Every e-mail `extract_contacts` returns has exactly one '@' and ends in '.' followed
      by at least two letters. */
  lemma ExtractedEmailsShape(text: string)
    ensures forall m :: m in ExtractedEmails(text) ==> HasEmailShape(m)
  {
    FindAllEmailsShape(text, 0);
  }
}
