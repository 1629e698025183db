/** Character classes and the few Python string operations the contact pipeline relies on.
    Digits, letters and word characters are the ASCII ones; whitespace is the exact set
    Python's `str.isspace` accepts, which is also what `str.strip()` removes and what the
    regular-expression class `\s` matches. */
module Strings {

  /** ASCII decimal digit. */
  predicate IsDigit(c: char) { '0' <= c <= '9' }

  predicate IsAsciiLetter(c: char) { 'a' <= c <= 'z' || 'A' <= c <= 'Z' }

  /** A regular-expression word character (`\w`), restricted to ASCII. */
  predicate IsWordChar(c: char) { IsDigit(c) || IsAsciiLetter(c) || c == '_' }

  /** Python's whitespace: what `str.isspace()` accepts. */
  predicate IsSpace(c: char) {
    c == ' ' || '\t' <= c <= '\r' || '\U{1c}' <= c <= '\U{1f}' || c == '\U{85}' || c == '\U{a0}'
    || c == '\U{1680}' || '\U{2000}' <= c <= '\U{200a}' || c == '\U{2028}' || c == '\U{2029}'
    || c == '\U{202f}' || c == '\U{205f}' || c == '\U{3000}'
  }

  predicate AllDigits(s: string) { forall i :: 0 <= i < |s| ==> IsDigit(s[i]) }

  predicate NoDigits(s: string) { forall i :: 0 <= i < |s| ==> !IsDigit(s[i]) }

  /** `re.sub(r"\D", "", s)`: the decimal digits of `s`, in order. */
  function DigitsOnly(s: string): (r: string)
    ensures AllDigits(r)
    ensures |r| <= |s|
  {
    if s == [] then [] else (if IsDigit(s[0]) then [s[0]] else []) + DigitsOnly(s[1..])
  }

  /** A string of digits is its own digit string. */
  lemma {:induction false} DigitsOnlyOfDigits(s: string)
    requires AllDigits(s)
    ensures DigitsOnly(s) == s
  {
    if s != [] {
      DigitsOnlyOfDigits(s[1..]);
    }
  }

  /** A string without digits has an empty digit string. */
  lemma {:induction false} DigitsOnlyOfNonDigits(s: string)
    requires NoDigits(s)
    ensures DigitsOnly(s) == ""
  {
    if s != [] {
      DigitsOnlyOfNonDigits(s[1..]);
    }
  }

  lemma {:induction false} DigitsOnlyAppend(a: string, b: string)
    ensures DigitsOnly(a + b) == DigitsOnly(a) + DigitsOnly(b)
  {
    if a == [] {
      assert a + b == b;
    } else {
      var h: string := if IsDigit(a[0]) then [a[0]] else [];
      assert (a + b)[0] == a[0];
      assert (a + b)[1..] == a[1..] + b;
      DigitsOnlyAppend(a[1..], b);
      calc {
        DigitsOnly(a + b);
        h + DigitsOnly(a[1..] + b);
        h + (DigitsOnly(a[1..]) + DigitsOnly(b));
        (h + DigitsOnly(a[1..])) + DigitsOnly(b);
        DigitsOnly(a) + DigitsOnly(b);
      }
    }
  }

  lemma DigitsOnlySlice(text: string, i: nat, j: nat, k: nat)
    requires i <= j <= k <= |text|
    ensures DigitsOnly(text[i..k]) == DigitsOnly(text[i..j]) + DigitsOnly(text[j..k])
  {
    assert text[i..k] == text[i..j] + text[j..k];
    DigitsOnlyAppend(text[i..j], text[j..k]);
  }

  /** `+1` followed by exactly ten digits: the E.164 form of a US number that every
      script writes. */
  predicate IsCanonicalPhone(p: string) {
    |p| == 12 && p[0] == '+' && p[1] == '1' && AllDigits(p[2..])
  }

  function StartsWith(s: string, prefix: string): bool {
    |prefix| <= |s| && s[..|prefix|] == prefix
  }

  /** The first index at or after `i` that does not hold whitespace. */
  function SkipSpaces(s: string, i: nat): (j: nat)
    requires i <= |s|
    ensures i <= j <= |s|
    ensures forall k :: i <= k < j ==> IsSpace(s[k])
    ensures j == |s| || !IsSpace(s[j])
    decreases |s| - i
  {
    if i < |s| && IsSpace(s[i]) then SkipSpaces(s, i + 1) else i
  }

  /** The end of `s[lo..hi]` once its trailing whitespace is dropped. */
  function TrimEnd(s: string, lo: nat, hi: nat): (j: nat)
    requires lo <= hi <= |s|
    ensures lo <= j <= hi
    ensures forall k :: j <= k < hi ==> IsSpace(s[k])
    ensures j == lo || !IsSpace(s[j - 1])
    decreases hi
  {
    if lo < hi && IsSpace(s[hi - 1]) then TrimEnd(s, lo, hi - 1) else hi
  }

  /** `str.strip()`: the slice between the leading and the trailing whitespace run. */
  function Strip(s: string): (r: string)
    ensures exists i, j :: 0 <= i <= j <= |s| && r == s[i..j]
                           && (forall k :: 0 <= k < i ==> IsSpace(s[k]))
                           && (forall k :: j <= k < |s| ==> IsSpace(s[k]))
  {
    var i := SkipSpaces(s, 0);
    s[i..TrimEnd(s, i, |s|)]
  }

  /** Every character of `strip(s)` is a character of `s`. */
  lemma StripIsSlice(s: string)
    ensures forall c :: c in Strip(s) ==> c in s
  {
    var i := SkipSpaces(s, 0);
    var r := Strip(s);
    forall c | c in r ensures c in s {
      var k :| 0 <= k < |r| && r[k] == c;
      assert r[k] == s[i + k];
    }
  }

  predicate IsStripped(s: string) {
    s == [] || (!IsSpace(s[0]) && !IsSpace(s[|s| - 1]))
  }

  /** What `strip` returns has no whitespace at either end, and stripping again changes
      nothing. */
  lemma StripSpec(s: string)
    ensures IsStripped(Strip(s))
    ensures Strip(Strip(s)) == Strip(s)
  {
    var i := SkipSpaces(s, 0);
    var j := TrimEnd(s, i, |s|);
    if i < j {
      assert Strip(s)[0] == s[i];
      assert Strip(s)[j - i - 1] == s[j - 1];
    }
    StrippedFixed(Strip(s));
  }

  lemma StrippedFixed(s: string)
    requires IsStripped(s)
    ensures Strip(s) == s
  {
    assert SkipSpaces(s, 0) == 0;
    assert TrimEnd(s, 0, |s|) == |s|;
  }

  /** A slice with only whitespace before and after it keeps every digit of the string. */
  lemma {:induction false} StripKeepsDigits(s: string)
    ensures DigitsOnly(Strip(s)) == DigitsOnly(s)
  {
    var i := SkipSpaces(s, 0);
    var j := TrimEnd(s, i, |s|);
    SpacesHaveNoDigits(s, 0, i);
    SpacesHaveNoDigits(s, j, |s|);
    DigitsOnlySlice(s, 0, i, |s|);
    DigitsOnlySlice(s, i, j, |s|);
    assert s[0..|s|] == s;
  }

  lemma {:induction false} SpacesHaveNoDigits(s: string, i: nat, j: nat)
    requires i <= j <= |s| && forall k :: i <= k < j ==> IsSpace(s[k])
    ensures DigitsOnly(s[i..j]) == ""
    decreases j - i
  {
    if i < j {
      assert s[i..j][1..] == s[i + 1..j];
      SpacesHaveNoDigits(s, i + 1, j);
    }
  }

  /** `s.replace(c, "")` for a single character `c`. */
  function RemoveChar(s: string, c: char): (r: string)
    ensures c !in r
    ensures forall d :: d != c ==> multiset(r)[d] == multiset(s)[d]
  {
    if s == [] then []
    else
      var rest := RemoveChar(s[1..], c);
      assert s == [s[0]] + s[1..];
      if s[0] == c then rest else [s[0]] + rest
  }

  /** Removing a non-digit leaves the digits alone. */
  lemma {:induction false} RemoveCharKeepsDigits(s: string, c: char)
    requires !IsDigit(c)
    ensures DigitsOnly(RemoveChar(s, c)) == DigitsOnly(s)
  {
    if s != [] {
      RemoveCharKeepsDigits(s[1..], c);
      if s[0] != c {
        var rest := RemoveChar(s[1..], c);
        assert ([s[0]] + rest)[1..] == rest;
      }
    }
  }

  /** ASCII `str.lower()`. */
  function ToLower(s: string): (r: string)
    ensures |r| == |s|
    ensures forall k :: 0 <= k < |s| ==> r[k] == if 'A' <= s[k] <= 'Z' then (s[k] as int + 32) as char else s[k]
  {
    if s == [] then []
    else [if 'A' <= s[0] <= 'Z' then (s[0] as int + 32) as char else s[0]] + ToLower(s[1..])
  }

  /** `s.count(c)` for a single character `c`. */
  function Count(s: string, c: char): (n: nat)
    ensures n == multiset(s)[c]
  {
    if s == [] then 0
    else
      assert s == [s[0]] + s[1..];
      (if s[0] == c then 1 else 0) + Count(s[1..], c)
  }

  /** `s.split(sep)` for a one-character separator: the pieces between separators. */
  function Split(s: string, sep: char): (pieces: seq<string>)
    ensures |pieces| >= 1
    ensures forall k :: 0 <= k < |pieces| ==> sep !in pieces[k]
  {
    if s == [] then [""]
    else if s[0] == sep then [""] + Split(s[1..], sep)
    else
      var rest := Split(s[1..], sep);
      [[s[0]] + rest[0]] + rest[1..]
  }

  /** `sep.join(xs)` */
  function Join(xs: seq<string>, sep: string): string {
    if xs == [] then ""
    else if |xs| == 1 then xs[0]
    else xs[0] + sep + Join(xs[1..], sep)
  }

  /** A join whose first piece is non-empty is non-empty. */
  lemma JoinNonEmpty(xs: seq<string>, sep: string)
    requires xs != [] && xs[0] != ""
    ensures Join(xs, sep) != ""
  {
    if |xs| > 1 {
      assert |Join(xs, sep)| >= |xs[0]|;
    }
  }

  /** Splitting on `sep` and joining with `sep` gives the string back. */
  lemma {:induction false} SplitJoin(s: string, sep: char)
    ensures Join(Split(s, sep), [sep]) == s
  {
    if s != [] {
      SplitJoin(s[1..], sep);
      var rest := Split(s[1..], sep);
      if s[0] != sep {
        var ps := Split(s, sep);
        assert ps[0] == [s[0]] + rest[0];
        assert ps[1..] == rest[1..];
        if |rest| > 1 {
          assert rest == [rest[0]] + rest[1..];
          assert Join(rest, [sep]) == rest[0] + [sep] + Join(rest[1..], [sep]);
        }
      }
    }
  }

  /** A string without the separator is one piece. */
  lemma {:induction false} SplitNoSep(s: string, sep: char)
    requires sep !in s
    ensures Split(s, sep) == [s]
  {
    if s != [] {
      assert sep !in s[1..];
      SplitNoSep(s[1..], sep);
      assert [s[0]] + s[1..] == s;
    }
  }

  /** The first separator ends the first piece. */
  lemma {:induction false} SplitAtSep(a: string, sep: char, b: string)
    requires sep !in a
    ensures Split(a + [sep] + b, sep) == [a] + Split(b, sep)
  {
    var s := a + [sep] + b;
    if a == [] {
      assert s[0] == sep && s[1..] == b;
    } else {
      assert s[0] == a[0] && s[1..] == a[1..] + [sep] + b;
      assert sep !in a[1..];
      SplitAtSep(a[1..], sep, b);
      assert [a[0]] + a[1..] == a;
    }
  }

  /** `[x.strip() for x in xs]` */
  function StripAll(xs: seq<string>): (r: seq<string>)
    ensures |r| == |xs|
  {
    if xs == [] then [] else [Strip(xs[0])] + StripAll(xs[1..])
  }

  /** `strip` is the slice between whitespace runs when that slice starts and ends with
      non-whitespace. */
  lemma StripBetween(s: string, i: nat, j: nat)
    requires i < j <= |s| && !IsSpace(s[i]) && !IsSpace(s[j - 1])
    requires forall k :: 0 <= k < i ==> IsSpace(s[k])
    requires forall k :: j <= k < |s| ==> IsSpace(s[k])
    ensures Strip(s) == s[i..j]
  {
    assert SkipSpaces(s, 0) == i;
    assert TrimEnd(s, i, |s|) == j;
  }

  /** Leading whitespace makes no difference to `strip`. */
  lemma StripLeadingSpace(c: char, s: string)
    requires IsSpace(c)
    ensures Strip([c] + s) == Strip(s)
  {
    var t := [c] + s;
    var i := SkipSpaces(s, 0);
    var j := TrimEnd(s, i, |s|);
    if i < j {
      ShiftedSlice(c, s, i, j);
    } else {
      AllSpacesStrip(t);
    }
  }

  lemma ShiftedSlice(c: char, s: string, i: nat, j: nat)
    requires IsSpace(c) && i < j <= |s| && !IsSpace(s[i]) && !IsSpace(s[j - 1])
    requires forall k :: 0 <= k < i ==> IsSpace(s[k])
    requires forall k :: j <= k < |s| ==> IsSpace(s[k])
    ensures Strip([c] + s) == s[i..j]
  {
    var t := [c] + s;
    assert forall k :: 1 <= k < |t| ==> t[k] == s[k - 1];
    StripBetween(t, i + 1, j + 1);
    assert t[i + 1..j + 1] == s[i..j];
  }

  lemma AllSpacesStrip(s: string)
    requires forall k :: 0 <= k < |s| ==> IsSpace(s[k])
    ensures Strip(s) == ""
  {
    assert SkipSpaces(s, 0) == |s|;
  }

  lemma SplitLeadingSpace(c: char, s: string, sep: char)
    requires IsSpace(c) && c != sep
    ensures StripAll(Split([c] + s, sep)) == StripAll(Split(s, sep))
  {
    assert ([c] + s)[1..] == s;
    var ps := Split(s, sep);
    StripLeadingSpace(c, ps[0]);
  }

  /** Joining stripped pieces with a separator and a space (", ", "; ") and splitting on
      the separator, then stripping each piece, gives the pieces back. */
  lemma {:induction false} JoinSplit(xs: seq<string>, sep: char)
    requires xs != [] && !IsSpace(sep)
    requires forall k :: 0 <= k < |xs| ==> sep !in xs[k] && IsStripped(xs[k])
    ensures StripAll(Split(Join(xs, [sep, ' ']), sep)) == xs
  {
    var joined := Join(xs, [sep, ' ']);
    if |xs| == 1 {
      assert joined == xs[0];
      SplitNoSep(xs[0], sep);
      StripAllCons(xs[0], []);
      StrippedFixed(xs[0]);
      assert xs == [xs[0]];
    } else {
      var rest := Join(xs[1..], [sep, ' ']);
      assert joined == xs[0] + [sep] + ([' '] + rest);
      JoinSplitHead(xs[0], rest, sep);
      JoinSplit(xs[1..], sep);
      assert StripAll(Split(joined, sep)) == [xs[0]] + xs[1..];
      assert xs == [xs[0]] + xs[1..];
    }
  }

  /** The first piece splits off at the first separator and the space after it goes. */
  lemma JoinSplitHead(x: string, rest: string, sep: char)
    requires !IsSpace(sep) && sep !in x && IsStripped(x)
    ensures StripAll(Split(x + [sep] + ([' '] + rest), sep)) == [x] + StripAll(Split(rest, sep))
  {
    StrippedFixed(x);
    SplitAtSep(x, sep, [' '] + rest);
    SplitLeadingSpace(' ', rest, sep);
    StripAllCons(x, Split([' '] + rest, sep));
  }

  lemma StripAllCons(x: string, ys: seq<string>)
    ensures StripAll([x] + ys) == [Strip(x)] + StripAll(ys)
  {
    assert ([x] + ys)[1..] == ys;
  }

  /** `xs` occurs inside `ys` in the same order, possibly with gaps. */
  predicate IsSubsequence<T(==)>(xs: seq<T>, ys: seq<T>)
    decreases |ys|
  {
    xs == [] || (ys != [] && if xs[0] == ys[0] then IsSubsequence(xs[1..], ys[1..]) else IsSubsequence(xs, ys[1..]))
  }

  lemma {:induction false} SubsequenceOfTail<T>(xs: seq<T>, ys: seq<T>)
    requires ys != [] && IsSubsequence(xs, ys[1..])
    ensures IsSubsequence(xs, ys)
    decreases |ys|, 0
  {
    if xs != [] && xs[0] == ys[0] {
      // xs[1..] is a subsequence of ys[1..] because xs is.
      SubsequenceDropHead(xs, ys[1..]);
    }
  }

  lemma {:induction false} SubsequenceDropHead<T>(xs: seq<T>, ys: seq<T>)
    requires xs != [] && IsSubsequence(xs, ys)
    ensures IsSubsequence(xs[1..], ys)
    decreases |ys|, 1
  {
    if xs[0] == ys[0] {
      if xs[1..] != [] {
        SubsequenceOfTail(xs[1..], ys);
      }
    } else {
      SubsequenceDropHead(xs, ys[1..]);
      SubsequenceOfTail(xs[1..], ys);
    }
  }
}
