/** The enricher's phone and URL helpers and the per-row merge of `enrich_csv`: a row's
    CSV phone and the contacts found on its website become the `Phone`,
    `Additional Phones` and `Email` columns. */
module Crawler {
  import opened Strings
  import opened Cells
  import opened Tools
  import Ordering

  /** `digits_only` is `Strings.DigitsOnly`; applying it twice changes nothing. */
  lemma DigitsOnlyIdempotent(s: string)
    ensures DigitsOnly(DigitsOnly(s)) == DigitsOnly(s)
  {
    DigitsOnlyOfDigits(DigitsOnly(s));
  }

  /** `clean_csv_phone_for_save`: NaN becomes "", a string loses its dashes and its
      surrounding whitespace and keeps every digit. */
  function CleanCsvPhoneForSave(c: Cell): (r: string)
    ensures c.Missing? ==> r == ""
    ensures '-' !in r
    ensures IsStripped(r)
    ensures c.Text? ==> DigitsOnly(r) == DigitsOnly(c.s)
  {
    match c
    case Missing => ""
    case Text(s) =>
      CleanText(s);
      Strip(RemoveChar(s, '-'))
  }

  lemma CleanText(s: string)
    ensures '-' !in Strip(RemoveChar(s, '-'))
    ensures IsStripped(Strip(RemoveChar(s, '-')))
    ensures DigitsOnly(Strip(RemoveChar(s, '-'))) == DigitsOnly(s)
  {
    var noDash := RemoveChar(s, '-');
    StripSpec(noDash);
    StripKeepsDigits(noDash);
    RemoveCharKeepsDigits(s, '-');
    StripIsSlice(noDash);
  }

  // ---------------------------------------------------------------------------------
  // dedupe_preserve_order

  /** The loop of `dedupe_preserve_order` from the point where the keys in `seen` have
      been taken: a value is kept when its digit key is non-empty and new. */
  function DedupeFrom(values: seq<string>, seen: set<string>): (r: seq<string>)
    ensures |r| <= |values|
  {
    if values == [] then []
    else
      var key := DigitsOnly(values[0]);
      if key == "" || key in seen then DedupeFrom(values[1..], seen)
      else [values[0]] + DedupeFrom(values[1..], seen + {key})
  }

  /** What is kept has a non-empty key not seen before. */
  lemma {:induction false} DedupeFromFresh(values: seq<string>, seen: set<string>)
    ensures forall x :: x in DedupeFrom(values, seen) ==> DigitsOnly(x) != "" && DigitsOnly(x) !in seen
  {
    if values != [] {
      var key := DigitsOnly(values[0]);
      if key == "" || key in seen {
        DedupeFromFresh(values[1..], seen);
      } else {
        DedupeFromFresh(values[1..], seen + {key});
      }
    }
  }

  /** No key is kept twice. */
  lemma {:induction false} DedupeFromDistinct(values: seq<string>, seen: set<string>)
    ensures forall j, k :: 0 <= j < k < |DedupeFrom(values, seen)| ==>
              DigitsOnly(DedupeFrom(values, seen)[j]) != DigitsOnly(DedupeFrom(values, seen)[k])
  {
    if values != [] {
      var key := DigitsOnly(values[0]);
      if key == "" || key in seen {
        DedupeFromDistinct(values[1..], seen);
      } else {
        var rest := DedupeFrom(values[1..], seen + {key});
        DedupeFromDistinct(values[1..], seen + {key});
        DedupeFromFresh(values[1..], seen + {key});
        var r := [values[0]] + rest;
        forall j, k | 0 <= j < k < |r| ensures DigitsOnly(r[j]) != DigitsOnly(r[k]) {
          assert r[k] == rest[k - 1];
          if j > 0 {
            assert r[j] == rest[j - 1];
          }
        }
      }
    }
  }

  /** `dedupe_preserve_order(values)` */
  function Dedupe(values: seq<string>): (r: seq<string>)
    ensures |r| <= |values|
    ensures forall x :: x in r ==> DigitsOnly(x) != ""
  {
    DedupeFromFresh(values, {});
    DedupeFrom(values, {})
  }

  /** `values[k]` is the first value with its digit key. */
  predicate FirstOfKey(values: seq<string>, k: nat)
    requires k < |values|
  {
    forall j :: 0 <= j < k ==> DigitsOnly(values[j]) != DigitsOnly(values[k])
  }

  /** What is kept is a subsequence of the input. */
  lemma {:induction false} DedupeFromSubsequence(values: seq<string>, seen: set<string>)
    ensures IsSubsequence(DedupeFrom(values, seen), values)
  {
    if values != [] {
      var key := DigitsOnly(values[0]);
      if key == "" || key in seen {
        DedupeFromSubsequence(values[1..], seen);
        if DedupeFrom(values, seen) != [] {
          SubsequenceOfTail(DedupeFrom(values, seen), values);
        }
      } else {
        DedupeFromSubsequence(values[1..], seen + {key});
        assert DedupeFrom(values, seen)[1..] == DedupeFrom(values[1..], seen + {key});
      }
    }
  }

  /** The first value carrying a key that is non-empty and not yet seen is kept. */
  lemma {:induction false} DedupeFromKeepsFirst(values: seq<string>, seen: set<string>, k: nat)
    requires k < |values| && FirstOfKey(values, k)
    requires DigitsOnly(values[k]) != "" && DigitsOnly(values[k]) !in seen
    ensures values[k] in DedupeFrom(values, seen)
  {
    var key := DigitsOnly(values[0]);
    if k > 0 {
      assert values[1..][k - 1] == values[k];
      var seen' := if key == "" || key in seen then seen else seen + {key};
      assert DigitsOnly(values[k]) !in seen' by {
        assert DigitsOnly(values[0]) != DigitsOnly(values[k]);
      }
      assert FirstOfKey(values[1..], k - 1) by {
        forall j | 0 <= j < k - 1 ensures DigitsOnly(values[1..][j]) != DigitsOnly(values[k]) {
          assert values[1..][j] == values[j + 1];
        }
      }
      DedupeFromKeepsFirst(values[1..], seen', k - 1);
    }
  }

  /** Everything kept is the first value with its key. */
  lemma {:induction false} DedupeFromOnlyFirsts(values: seq<string>, seen: set<string>, x: string)
    requires x in DedupeFrom(values, seen)
    ensures exists k :: 0 <= k < |values| && values[k] == x && FirstOfKey(values, k)
  {
    var key := DigitsOnly(values[0]);
    var r := DedupeFrom(values, seen);
    if key == "" || key in seen || x != values[0] {
      var seen' := if key == "" || key in seen then seen else seen + {key};
      assert x in DedupeFrom(values[1..], seen');
      DedupeFromOnlyFirsts(values[1..], seen', x);
      var k :| 0 <= k < |values[1..]| && values[1..][k] == x && FirstOfKey(values[1..], k);
      assert values[k + 1] == x;
      DedupeFromFresh(values[1..], seen');
      assert DigitsOnly(x) != "" && DigitsOnly(x) !in seen';
      assert FirstOfKey(values, k + 1) by {
        forall j | 0 <= j < k + 1 ensures DigitsOnly(values[j]) != DigitsOnly(x) {
          if j > 0 {
            assert values[1..][j - 1] == values[j];
          }
        }
      }
    } else {
      assert values[0] == x && FirstOfKey(values, 0);
    }
  }

  /** `dedupe_preserve_order`: the result is a subsequence of the input, holds no value
      whose key is empty, no two values with the same key, and exactly the first
      occurrences of the non-empty keys. */
  lemma DedupeSpec(values: seq<string>)
    ensures IsSubsequence(Dedupe(values), values)
    ensures forall x :: x in Dedupe(values) ==> DigitsOnly(x) != ""
    ensures forall j, k :: 0 <= j < k < |Dedupe(values)| ==> DigitsOnly(Dedupe(values)[j]) != DigitsOnly(Dedupe(values)[k])
    ensures forall k :: 0 <= k < |values| && DigitsOnly(values[k]) != "" && FirstOfKey(values, k) ==> values[k] in Dedupe(values)
    ensures forall x :: x in Dedupe(values) ==> exists k :: 0 <= k < |values| && values[k] == x && FirstOfKey(values, k)
  {
    DedupeFromSubsequence(values, {});
    DedupeFromFresh(values, {});
    DedupeFromDistinct(values, {});
    forall k | 0 <= k < |values| && DigitsOnly(values[k]) != "" && FirstOfKey(values, k)
      ensures values[k] in Dedupe(values)
    {
      DedupeFromKeepsFirst(values, {}, k);
    }
    forall x | x in Dedupe(values)
      ensures exists k :: 0 <= k < |values| && values[k] == x && FirstOfKey(values, k)
    {
      DedupeFromOnlyFirsts(values, {}, x);
    }
  }

  /** One step of the loop: the value at `i` is skipped or kept. */
  lemma DedupeFromStep(values: seq<string>, i: nat, seen: set<string>)
    requires i < |values|
    ensures DigitsOnly(values[i]) == "" || DigitsOnly(values[i]) in seen ==>
              DedupeFrom(values[i..], seen) == DedupeFrom(values[i + 1..], seen)
    ensures DigitsOnly(values[i]) != "" && DigitsOnly(values[i]) !in seen ==>
              DedupeFrom(values[i..], seen) == [values[i]] + DedupeFrom(values[i + 1..], seen + {DigitsOnly(values[i])})
  {
    assert values[i..][0] == values[i] && values[i..][1..] == values[i + 1..];
  }

  /** Lines 131-143: the loop, with its `seen` set and its `result` list. */
  method DedupePreserveOrder(values: seq<string>) returns (result: seq<string>)
    ensures result == Dedupe(values)
  {
    var seen: set<string> := {};
    result := [];
    var i := 0;
    while i < |values|
      invariant 0 <= i <= |values|
      invariant result + DedupeFrom(values[i..], seen) == Dedupe(values)
    {
      var v := values[i];
      DedupeFromStep(values, i, seen);
      var key := DigitsOnly(v);
      if key == "" {
        i := i + 1;
        continue;
      }
      if key in seen {
        i := i + 1;
        continue;
      }
      assert result + DedupeFrom(values[i..], seen) == (result + [v]) + DedupeFrom(values[i + 1..], seen + {key});
      seen := seen + {key};
      result := result + [v];
      i := i + 1;
    }
    assert values[i..] == [];
  }

  // ---------------------------------------------------------------------------------
  // format_us_phone_e164

  /** Lines 146-164. The last branch, a value starting with `+1` whose key has eleven
      digits, is kept as written; `FormatReachable` shows it is never taken. */
  function FormatUsPhoneE164(value: string): (r: Option<string>)
    ensures |DigitsOnly(value)| == 10 ==> r == Some("+1" + DigitsOnly(value))
    ensures |DigitsOnly(value)| == 11 && DigitsOnly(value)[0] == '1' ==> r == Some("+" + DigitsOnly(value))
  {
    var d := DigitsOnly(value);
    if d == "" then None
    else if |d| == 10 then Some("+1" + d)
    else if |d| == 11 && d[0] == '1' then Some("+" + d)
    else if StartsWith(value, "+1") && |d| == 11 then Some(value)
    else None
  }

  /** A value starting with `+1` has `1` as its first digit. */
  lemma PlusOneFirstDigit(value: string)
    requires StartsWith(value, "+1")
    ensures DigitsOnly(value) != "" && DigitsOnly(value)[0] == '1'
  {
    assert value[0] == '+' && value[1] == '1';
    assert value == value[..2] + value[2..];
    DigitsOnlyAppend(value[..2], value[2..]);
    PlusOneDigit(value[..2]);
  }

  /** The `startswith("+1")` branch is unreachable: such a value with eleven digits already
      took the branch for eleven digits led by 1. So the result is None exactly when the
      key is neither ten digits nor eleven led by 1. */
  lemma FormatReachable(value: string)
    ensures FormatUsPhoneE164(value).None? <==>
            !(|DigitsOnly(value)| == 10 || (|DigitsOnly(value)| == 11 && DigitsOnly(value)[0] == '1'))
  {
    if StartsWith(value, "+1") {
      PlusOneFirstDigit(value);
    }
  }

  /** Every number produced is `+1` followed by the last ten digits of the input. */
  lemma FormatIsCanonical(value: string)
    requires FormatUsPhoneE164(value).Some?
    ensures |DigitsOnly(value)| >= 10
    ensures FormatUsPhoneE164(value).value == "+1" + DigitsOnly(value)[|DigitsOnly(value)| - 10..]
    ensures IsCanonicalPhone(FormatUsPhoneE164(value).value)
  {
    var d := DigitsOnly(value);
    FormatReachable(value);
    var tail := d[|d| - 10..];
    if |d| == 10 {
      assert tail == d;
    } else {
      LeadingOne(d);
    }
    PlusOneCanonical(tail);
  }

  lemma LeadingOne(d: string)
    requires |d| == 11 && d[0] == '1'
    ensures "+" + d == "+1" + d[1..]
  {
    assert d == [d[0]] + d[1..];
  }

  lemma PlusOneCanonical(t: string)
    requires |t| == 10 && AllDigits(t)
    ensures IsCanonicalPhone("+1" + t)
  {
    assert ("+1" + t)[2..] == t;
  }

  /** The digits of a canonical phone: `1` and its last ten characters. */
  lemma CanonicalDigits(p: string)
    requires IsCanonicalPhone(p)
    ensures DigitsOnly(p) == ['1'] + p[2..]
  {
    assert p == p[..2] + p[2..];
    DigitsOnlyAppend(p[..2], p[2..]);
    PlusOneDigit(p[..2]);
    DigitsOnlyOfDigits(p[2..]);
  }

  /** The result depends on the digit key alone, so differently written forms of one
      number format alike. */
  lemma FormatByKey(a: string, b: string)
    requires DigitsOnly(a) == DigitsOnly(b)
    ensures FormatUsPhoneE164(a) == FormatUsPhoneE164(b)
  {
    FormatReachable(a);
    FormatReachable(b);
  }

  /** Formatting a formatted number gives it back. */
  lemma FormatIdempotent(value: string)
    requires FormatUsPhoneE164(value).Some?
    ensures FormatUsPhoneE164(FormatUsPhoneE164(value).value) == FormatUsPhoneE164(value)
  {
    FormatIsCanonical(value);
    FormatKeepsCanonical(FormatUsPhoneE164(value).value);
  }

  /** A number already written `+1XXXXXXXXXX` is kept as it is. */
  lemma FormatKeepsCanonical(p: string)
    requires IsCanonicalPhone(p)
    ensures FormatUsPhoneE164(p) == Some(p)
  {
    CanonicalDigits(p);
    var d := DigitsOnly(p);
    assert |d| == 11 && d[0] == '1';
    assert "+" + d == p by {
      assert p == [p[0]] + ([p[1]] + p[2..]);
    }
  }

  // ---------------------------------------------------------------------------------
  // verify_phone and int(digits)

  /** `len(str(m))` for a natural number. */
  function NumDigits(m: nat): (n: nat)
    ensures n >= 1
  {
    if m < 10 then 1 else 1 + NumDigits(m / 10)
  }

  function Pow10(k: nat): (p: nat)
    ensures p >= 1
  {
    if k == 0 then 1 else 10 * Pow10(k - 1)
  }

  /** `m` has more than `k` decimal digits exactly when it is at least `10^k`. */
  lemma {:induction false} NumDigitsBound(m: nat, k: nat)
    requires k >= 1
    ensures NumDigits(m) > k <==> m >= Pow10(k)
  {
    if k > 1 && m >= 10 {
      NumDigitsBound(m / 10, k - 1);
    }
    if m < 10 {
      PowMonotone(1, k);
    }
  }

  /** Lines 49-62: `len(str(abs(int(number)))) >= 10`; `int` of an `int` cannot fail.
      The stub keeps exactly the numbers whose magnitude is at least 10^9. */
  function VerifyPhone(n: int): (r: bool)
    ensures r <==> n >= 1000000000 || n <= -1000000000
  {
    NumDigitsBound(if n < 0 then -n else n, 9);
    assert Pow10(9) == 1000000000;
    NumDigits(if n < 0 then -n else n) >= 10
  }

  function DigitValue(c: char): nat
    requires IsDigit(c)
  {
    c as nat - '0' as nat
  }

  /** `int(d)` for a string of ASCII digits. */
  function Value(d: string): (v: nat)
    requires AllDigits(d)
    ensures v < Pow10(|d|)
  {
    if d == [] then 0 else Value(d[..|d| - 1]) * 10 + DigitValue(d[|d| - 1])
  }

  /** Without a leading zero, `d` is at least `10^(|d|-1)`. */
  lemma {:induction false} ValueLowerBound(d: string)
    requires AllDigits(d) && d != [] && d[0] != '0'
    ensures Value(d) >= Pow10(|d| - 1)
  {
    if |d| > 1 {
      var init := d[..|d| - 1];
      assert init[0] == d[0];
      ValueLowerBound(init);
    }
  }

  /** A digit string without a leading zero prints back with as many digits, so the stub
      accepts it exactly when it has ten digits or more. */
  lemma VerifyDigits(d: string)
    requires AllDigits(d) && d != [] && d[0] != '0'
    ensures VerifyPhone(Value(d)) <==> |d| >= 10
  {
    ValueLowerBound(d);
    NumDigitsBound(Value(d), 9);
    if |d| >= 10 {
      PowMonotone(9, |d| - 1);
    } else {
      PowMonotone(|d|, 9);
    }
  }

  lemma {:induction false} PowMonotone(i: nat, j: nat)
    requires i <= j
    ensures Pow10(i) <= Pow10(j)
  {
    if i < j {
      PowMonotone(i, j - 1);
    }
  }

  // ---------------------------------------------------------------------------------
  // normalize_url

  /** The first index at or after `i` holding one of `stops`, or the end of `s`. */
  function FindAny(s: string, i: nat, stops: set<char>): (j: nat)
    requires i <= |s|
    ensures i <= j <= |s|
    ensures forall k :: i <= k < j ==> s[k] !in stops
    ensures j == |s| || s[j] in stops
    decreases |s| - i
  {
    if i == |s| || s[i] in stops then i else FindAny(s, i + 1, stops)
  }

  /** `s.rfind(c)`, None for -1. */
  function LastIndex(s: string, c: char): (r: Option<nat>)
    ensures r.Some? ==> r.value < |s| && s[r.value] == c && forall k :: r.value < k < |s| ==> s[k] != c
    ensures r.None? ==> c !in s
  {
    if s == [] then None
    else if s[|s| - 1] == c then Some(|s| - 1)
    else
      var r := LastIndex(s[..|s| - 1], c);
      assert s == s[..|s| - 1] + [s[|s| - 1]];
      r
  }

  /** `urlparse`'s `_splitparams`: the path up to the first `;` in its last segment. */
  function CutParams(path: string): (r: string)
    ensures StartsWith(path, r)
  {
    var from := match LastIndex(path, '/') case Some(k) => k case None => 0;
    path[..FindAny(path, from, {';'})]
  }

  /** `netloc` and `path` of `urlparse(s)`, where the scheme and its `//` end at `start`:
      the location runs to the first `/`, `?` or `#`, the path from there to the first `?`
      or `#`, less its parameters. */
  datatype UrlParts = UrlParts(netloc: string, path: string)

  function ParseUrl(s: string, start: nat): (r: UrlParts)
    requires start <= |s|
    ensures '/' !in r.netloc && '?' !in r.netloc && '#' !in r.netloc
    ensures '?' !in r.path && '#' !in r.path
    ensures r.path == [] || r.path[0] == '/'
  {
    var netEnd := FindAny(s, start, {'/', '?', '#'});
    var pathEnd := FindAny(s, netEnd, {'?', '#'});
    var netloc := s[start..netEnd];
    var path := s[netEnd..pathEnd];
    var cut := CutParams(path);
    assert forall k :: 0 <= k < |netloc| ==> netloc[k] == s[start + k];
    assert forall k :: 0 <= k < |cut| ==> cut[k] == s[netEnd + k];
    UrlParts(netloc, cut)
  }

  /** `s.lower() in {"nan", "none", "null"}` */
  predicate IsNullWord(s: string) {
    var l := ToLower(s);
    l == "nan" || l == "none" || l == "null"
  }

  predicate HasWebScheme(s: string) {
    StartsWith(s, "http://") || StartsWith(s, "https://")
  }

  /** A host `example.com` the normaliser completes with `www.`: exactly one dot and no
      `www.` in front, in any case. */
  predicate IsBareDomain(host: string) {
    !StartsWith(ToLower(host), "www.") && Count(host, '.') == 1
  }

  function WithWww(host: string): string {
    if IsBareDomain(host) then "www." + host else host
  }

  /** `urlparse` drops tabs, carriage returns and line feeds before splitting. */
  function RemoveUnsafe(s: string): string {
    RemoveChar(RemoveChar(RemoveChar(s, '\t'), '\r'), '\n')
  }

  /** Lines 67-103. `raw` is the website cell; `None` cannot come from a frame cell, and
      NaN reaches the same `None` through the text "nan". */
  function NormalizeUrl(raw: Cell): (r: Option<string>)
    ensures r.Some? ==> StartsWith(r.value, "https://")
  {
    var s := Strip(Str(raw));
    if s == "" || IsNullWord(s) then None
    else
      var withScheme := if HasWebScheme(s) then s else "https://" + s;
      SchemeSurvives(withScheme);
      Reassemble(RemoveUnsafe(withScheme))
  }

  /** `urlparse`, the fix-up of an empty location, the `www.` rule and `urlunparse` with
      scheme `https`, the path or `/`, and nothing after it. */
  function Reassemble(url: string): Option<string>
    requires HasWebScheme(url)
  {
    var start := if StartsWith(url, "https://") then 8 else 7;
    var p := ParseUrl(url, start);
    var netloc := if p.netloc == "" && p.path != "" then p.path else p.netloc;
    var path := if p.netloc == "" && p.path != "" then "" else p.path;
    if netloc == "" then None
    else Some("https://" + WithWww(netloc) + (if path == "" then "/" else path))
  }

  /** Removing characters the prefix does not hold keeps the prefix. */
  lemma {:induction false} RemoveCharKeepsPrefix(s: string, c: char, n: nat)
    requires n <= |s| && forall k :: 0 <= k < n ==> s[k] != c
    ensures n <= |RemoveChar(s, c)| && RemoveChar(s, c)[..n] == s[..n]
  {
    if n > 0 {
      RemoveCharKeepsPrefix(s[1..], c, n - 1);
      assert RemoveChar(s, c) == [s[0]] + RemoveChar(s[1..], c);
    }
  }

  /** The scheme put in front of the website survives `RemoveUnsafe`. */
  lemma SchemeSurvives(s: string)
    requires HasWebScheme(s)
    ensures HasWebScheme(RemoveUnsafe(s))
  {
    var n := if StartsWith(s, "https://") then 8 else 7;
    var scheme := s[..n];
    SchemeNoSpaces(scheme);
    var s1 := RemoveChar(s, '\t');
    var s2 := RemoveChar(s1, '\r');
    SpacesKeepPrefix(s, n, '\t');
    SpacesKeepPrefix(s1, n, '\r');
    SpacesKeepPrefix(s2, n, '\n');
  }

  /** Removing a whitespace character keeps a prefix without whitespace. */
  lemma SpacesKeepPrefix(s: string, n: nat, c: char)
    requires n <= |s| && NoSpaces(s[..n]) && IsSpace(c)
    ensures n <= |RemoveChar(s, c)| && RemoveChar(s, c)[..n] == s[..n]
  {
    forall k | 0 <= k < n
      ensures s[k] != c
    {
      assert s[k] == s[..n][k];
    }
    RemoveCharKeepsPrefix(s, c, n);
  }

  /** A NaN website cell gives no URL. */
  lemma NanWebsite()
    ensures NormalizeUrl(Missing).None?
  {
    var s := Str(Missing);
    assert IsStripped(s);
    StrippedFixed(s);
    assert ToLower(s) == "nan";
  }

  /** A blank website, or one that reads `nan`, `none` or `null` in any case once
      stripped, gives no URL. */
  lemma NullWebsite(s: string)
    requires Strip(s) == "" || IsNullWord(Strip(s))
    ensures NormalizeUrl(Text(s)).None?
  {
  }

  /** A host the normaliser has completed is never bare any more. */
  lemma WithWwwNotBare(host: string)
    ensures !IsBareDomain(WithWww(host))
  {
    if IsBareDomain(host) {
      var h := "www." + host;
      var l := ToLower(h);
      assert h[0] == 'w' && h[1] == 'w' && h[2] == 'w' && h[3] == '.';
      assert l[0] == 'w' && l[1] == 'w' && l[2] == 'w' && l[3] == '.';
      assert l[..4] == "www.";
    }
  }

  /** Every URL produced is `https://`, a host that is not a bare `domain.tld`, and a path
      starting with `/`; no query and no fragment is left. */
  lemma NormalizeUrlShape(raw: Cell)
    requires NormalizeUrl(raw).Some?
    ensures UrlShaped(NormalizeUrl(raw).value)
  {
    var s := Strip(Str(raw));
    var withScheme := if HasWebScheme(s) then s else "https://" + s;
    SchemeSurvives(withScheme);
    ReassembleShape(RemoveUnsafe(withScheme));
  }

  lemma ReassembleShape(url: string)
    requires HasWebScheme(url) && Reassemble(url).Some?
    ensures UrlShaped(Reassemble(url).value)
  {
    var start := if StartsWith(url, "https://") then 8 else 7;
    var p := ParseUrl(url, start);
    var netloc := if p.netloc == "" && p.path != "" then p.path else p.netloc;
    var path := if p.netloc == "" && p.path != "" then "" else p.path;
    Assembled(netloc, path);
  }

  ghost predicate UrlShaped(u: string) {
    exists host, path :: u == "https://" + host + path
      && host != "" && !IsBareDomain(host)
      && path != "" && path[0] == '/'
      && '?' !in host + path && '#' !in host + path
  }

  lemma Assembled(netloc: string, path: string)
    requires netloc != "" && '?' !in netloc && '#' !in netloc
    requires (path == "" || path[0] == '/') && '?' !in path && '#' !in path
    ensures UrlShaped("https://" + WithWww(netloc) + (if path == "" then "/" else path))
  {
    var host := WithWww(netloc);
    var path' := if path == "" then "/" else path;
    WithWwwNotBare(netloc);
    assert host == netloc || host == "www." + netloc;
    assert '?' !in host + path' && '#' !in host + path';
  }

  predicate NoSpaces(s: string) {
    forall k :: 0 <= k < |s| ==> !IsSpace(s[k])
  }

  /** A character that is absent is not removed. */
  lemma {:induction false} RemoveAbsent(s: string, c: char)
    requires c !in s
    ensures RemoveChar(s, c) == s
  {
    if s != [] {
      assert c !in s[1..];
      RemoveAbsent(s[1..], c);
    }
  }

  /** A web address without whitespace reaches the parser unchanged. */
  lemma NoSpacesUnchanged(s: string)
    requires NoSpaces(s)
    ensures Strip(s) == s && RemoveUnsafe(s) == s
  {
    if s != [] {
      assert !IsSpace(s[0]) && !IsSpace(s[|s| - 1]);
    }
    StrippedFixed(s);
    assert '\t' !in s && '\r' !in s && '\n' !in s;
    RemoveAbsent(s, '\t');
    RemoveAbsent(s, '\r');
    RemoveAbsent(s, '\n');
  }

  lemma FindAnyStops(s: string, i: nat, j: nat, stops: set<char>)
    requires i <= j <= |s|
    requires forall k :: i <= k < j ==> s[k] !in stops
    requires j == |s| || s[j] in stops
    ensures FindAny(s, i, stops) == j
  {
  }

  /** `w[o..h]` is a host and `w[h..q]` a path, followed by nothing or by a query or a
      fragment: the host has no `/`, `?` or `#`, the path is empty or starts with `/`
      and has no `?`, `#` or `;`. */
  predicate WebsiteLayout(w: string, o: nat, h: nat, q: nat) {
    o < h <= q <= |w|
    && (forall k :: o <= k < h ==> w[k] != '/' && w[k] != '?' && w[k] != '#')
    && (h == q || w[h] == '/')
    && (forall k :: h <= k < q ==> w[k] != '?' && w[k] != '#' && w[k] != ';')
    && (q == |w| || w[q] == '?' || w[q] == '#')
  }

  /** The parser finds the host and the path of such a layout. */
  lemma ParseLayout(url: string, o: nat, h: nat, q: nat)
    requires WebsiteLayout(url, o, h, q)
    ensures ParseUrl(url, o) == UrlParts(url[o..h], url[h..q])
  {
    FindAnyStops(url, o, h, {'/', '?', '#'});
    FindAnyStops(url, h, q, {'?', '#'});
    var path := url[h..q];
    assert forall k :: 0 <= k < |path| ==> path[k] == url[h + k];
    FindAnyStops(path, 0, |path|, {';'});
    match LastIndex(path, '/')
    case None =>
    case Some(k) => FindAnyStops(path, k, |path|, {';'});
  }

  /** A layout after `http://` or `https://` becomes `https://`, the host, with `www.` if
      it is a bare domain, and the path or `/`. */
  lemma ReassembleLayout(url: string, o: nat, h: nat, q: nat, host: string, path: string)
    requires HasWebScheme(url) && o == (if StartsWith(url, "https://") then 8 else 7)
    requires WebsiteLayout(url, o, h, q) && host == url[o..h] && path == url[h..q]
    ensures Reassemble(url) == Some("https://" + WithWww(host) + (if path == "" then "/" else path))
  {
    ParseLayout(url, o, h, q);
  }

  lemma SchemeChars(w: string, o: nat)
    requires o <= |w| && (o == 0 || (o == 7 && StartsWith(w, "http://")) || (o == 8 && StartsWith(w, "https://")))
    ensures forall k :: 0 <= k < o ==> !IsSpace(w[k])
    ensures o > 0 ==> HasWebScheme(w) && o == (if StartsWith(w, "https://") then 8 else 7)
  {
    forall k | 0 <= k < o ensures !IsSpace(w[k]) {
      assert w[k] == w[..o][k];
    }
    if o == 7 {
      assert w[4] == ':';
    }
  }

  /** How a website is normalised when it is an optional `http://` or `https://` (ending at
      `o`), a host `w[o..h]`, a path `w[h..q]` and a query or fragment, with no
      whitespace anywhere: the scheme becomes `https`, a bare `domain.tld` gains `www.`, an
      empty path becomes `/`, and the query or fragment is dropped. */
  lemma NormalizeWebsite(w: string, o: nat, h: nat, q: nat)
    requires (o == 0 && !HasWebScheme(w)) || (o == 7 && StartsWith(w, "http://")) || (o == 8 && StartsWith(w, "https://"))
    requires WebsiteLayout(w, o, h, q) && NoSpaces(w) && !IsNullWord(w)
    ensures NormalizeUrl(Text(w)) == Some("https://" + WithWww(w[o..h]) + (if w[h..q] == "" then "/" else w[h..q]))
  {
    NoSpacesUnchanged(w);
    SchemeChars(w, o);
    SchemedUnchanged(w);
    NormalizeClean(w);
    if o == 0 {
      ReassemblePrefixed(w, h, q);
    } else {
      ReassembleLayout(w, o, h, q, w[o..h], w[h..q]);
    }
  }

  /** A website without whitespace loses nothing when its scheme is put in front. */
  lemma SchemedUnchanged(w: string)
    requires NoSpaces(w)
    ensures RemoveUnsafe(if HasWebScheme(w) then w else "https://" + w) == (if HasWebScheme(w) then w else "https://" + w)
  {
    if !HasWebScheme(w) {
      SchemeNoSpaces("https://");
      NoSpacesAppend("https://", w);
      NoSpacesUnchanged("https://" + w);
    } else {
      NoSpacesUnchanged(w);
    }
  }

  lemma ReassemblePrefixed(w: string, h: nat, q: nat)
    requires WebsiteLayout(w, 0, h, q)
    ensures HasWebScheme("https://" + w)
    ensures Reassemble("https://" + w) == Some("https://" + WithWww(w[0..h]) + (if w[h..q] == "" then "/" else w[h..q]))
  {
    PrefixedLayout(w, h, q);
    ReassembleLayout("https://" + w, 8, h + 8, q + 8, w[0..h], w[h..q]);
  }

  lemma NoSpacesAppend(a: string, b: string)
    requires NoSpaces(a) && NoSpaces(b)
    ensures NoSpaces(a + b)
  {
    assert forall k :: |a| <= k < |a + b| ==> (a + b)[k] == b[k - |a|];
  }

  lemma SchemeNoSpaces(scheme: string)
    requires scheme == "http://" || scheme == "https://"
    ensures NoSpaces(scheme)
  {
    forall k | 0 <= k < |scheme| ensures !IsSpace(scheme[k]) {
      assert scheme[k] in "https:/";
    }
  }

  /** Putting `https://` in front moves the layout along. */
  lemma PrefixedLayout(w: string, h: nat, q: nat)
    requires WebsiteLayout(w, 0, h, q)
    ensures WebsiteLayout("https://" + w, 8, h + 8, q + 8)
    ensures HasWebScheme("https://" + w) && StartsWith("https://" + w, "https://")
    ensures ("https://" + w)[8..h + 8] == w[0..h] && ("https://" + w)[h + 8..q + 8] == w[h..q]
  {
    var url := "https://" + w;
    assert url[8..] == w;
    assert url[..8] == "https://";
    assert url[8..h + 8] == url[8..][..h];
    assert url[h + 8..q + 8] == url[8..][h..q];
  }

  /** A website cell that needs no stripping and no removal goes straight to the parser. */
  lemma NormalizeClean(w: string)
    requires w != "" && Strip(w) == w && !IsNullWord(w)
    requires RemoveUnsafe(if HasWebScheme(w) then w else "https://" + w) == (if HasWebScheme(w) then w else "https://" + w)
    ensures HasWebScheme(if HasWebScheme(w) then w else "https://" + w)
    ensures NormalizeUrl(Text(w)) == Reassemble(if HasWebScheme(w) then w else "https://" + w)
  {
    var withScheme := if HasWebScheme(w) then w else "https://" + w;
    SchemeSurvives(withScheme);
  }

  // ---------------------------------------------------------------------------------
  // The row merge of enrich_csv

  /** Lines 188-211: the cleaned CSV phone first, when it is not empty, then the phones
      found on the website. */
  function Candidates(rawCsvPhone: Cell, extractedPhones: seq<string>): seq<string> {
    var c := CleanCsvPhoneForSave(rawCsvPhone);
    (if c != "" then [c] else []) + extractedPhones
  }

  /** Lines 217-229 for one de-duplicated phone: its digits must be non-empty, `int` of
      them must pass `verify_phone`, and `format_us_phone_e164` must give a number. */
  function Accepted(phone: string): (r: Option<string>)
    ensures r.Some? <==> DigitsOnly(phone) != "" && VerifyPhone(Value(DigitsOnly(phone)))
                         && FormatUsPhoneE164(phone).Some?
    ensures r.Some? ==> r == FormatUsPhoneE164(phone) && IsCanonicalPhone(r.value)
  {
    var d := DigitsOnly(phone);
    if d == "" then None
    else if !VerifyPhone(Value(d)) then None
    else
      match FormatUsPhoneE164(phone)
      case None => None
      case Some(p) =>
        FormatIsCanonical(phone);
        Some(p)
  }

  /** Lines 214-229: the accepted phones, formatted, in order. */
  function FilterPhones(phones: seq<string>): (r: seq<string>)
    ensures forall p :: p in r ==> IsCanonicalPhone(p)
  {
    if phones == [] then []
    else (match Accepted(phones[0]) case Some(p) => [p] case None => []) + FilterPhones(phones[1..])
  }

  lemma FilterPhonesStep(phones: seq<string>, i: nat)
    requires i < |phones|
    ensures FilterPhones(phones[i..])
            == (match Accepted(phones[i]) case Some(p) => [p] case None => []) + FilterPhones(phones[i + 1..])
  {
    assert phones[i..][0] == phones[i] && phones[i..][1..] == phones[i + 1..];
  }

  lemma FilterPhonesCons(x: string, rest: seq<string>)
    ensures FilterPhones([x] + rest) == (match Accepted(x) case Some(p) => [p] case None => []) + FilterPhones(rest)
  {
    assert ([x] + rest)[0] == x && ([x] + rest)[1..] == rest;
  }

  /** The three columns a row gains. */
  datatype Enriched = Enriched(phone: string, additionalPhones: string, email: string)

  /** Lines 213-244 once the page has been read: de-duplicate the candidates, keep the
      accepted ones, put the first in `Phone` and the others, joined by ", ", in
      `Additional Phones`; `Email` is the first extracted email. */
  function MergeRow(rawCsvPhone: Cell, extractedPhones: seq<string>, extractedEmails: seq<string>): (r: Enriched)
    ensures r.phone == "" || IsCanonicalPhone(r.phone)
    ensures r.phone == "" ==> r.additionalPhones == ""
    ensures r.email == "" <==> extractedEmails == [] || extractedEmails[0] == ""
  {
    var filtered := FilterPhones(Dedupe(Candidates(rawCsvPhone, extractedPhones)));
    ColumnsOf(filtered, extractedEmails);
    assert filtered != [] ==> filtered[0] in filtered;
    Columns(filtered, extractedEmails)
  }

  /** Lines 231-244: the first phone, the others joined by ", ", the first email. */
  function Columns(filtered: seq<string>, extractedEmails: seq<string>): Enriched {
    Enriched(
      if filtered == [] then "" else filtered[0],
      if |filtered| <= 1 then "" else Join(filtered[1..], ", "),
      if extractedEmails == [] then "" else extractedEmails[0])
  }

  /** The two cells of a row that the merge reads. */
  datatype Row = Row(phoneNumber: Cell, website: Cell)

  /** What `fetch_page_text` (lines 106-116) returns for each URL: the pages that load
      are in `pages`; any other URL fails and gives "". */
  function Fetch(pages: map<string, string>, url: string): string {
    if url in pages then pages[url] else ""
  }

  /** Lines 186-244 for one row, with the web as `pages`. */
  function EnrichRow(row: Row, pages: map<string, string>): (r: Enriched)
    ensures r.phone == "" || IsCanonicalPhone(r.phone)
    ensures r.phone == "" ==> r.additionalPhones == ""
    ensures PageText(row, pages) == "" ==> r.email == ""
  {
    var html := PageText(row, pages);
    MergeRow(row.phoneNumber,
             if html != "" then ExtractedPhones(html) else [],
             if html != "" then ExtractedEmails(html) else [])
  }

  /** Lines 197-204: the page of the row's website, "" when the website gives no URL. */
  function PageText(row: Row, pages: map<string, string>): string {
    var url := if Truthy(row.website) then NormalizeUrl(row.website) else None;
    if url.Some? then Fetch(pages, url.value) else ""
  }

  /** The phones a row's two phone columns hold: `Phone`, then the pieces of
      `Additional Phones` split on ',' and stripped. */
  function PhoneColumns(r: Enriched): seq<string> {
    (if r.phone == "" then [] else [r.phone])
    + (if r.additionalPhones == "" then [] else StripAll(Split(r.additionalPhones, ',')))
  }

  lemma CanonicalPlain(p: string)
    requires IsCanonicalPhone(p)
    ensures p != "" && ',' !in p && IsStripped(p)
  {
    assert !IsSpace(p[0]);
    assert p[11] == p[2..][9];
    forall k | 0 <= k < |p| ensures p[k] != ',' {
      if k >= 2 {
        assert p[k] == p[2..][k - 2];
      }
    }
  }

  /** The columns give back exactly the accepted phones, in order, and every one of them
      is `+1` and ten digits; `Additional Phones` is empty when `Phone` is. */
  lemma MergeRowColumns(rawCsvPhone: Cell, extractedPhones: seq<string>, extractedEmails: seq<string>)
    ensures PhoneColumns(MergeRow(rawCsvPhone, extractedPhones, extractedEmails))
            == FilterPhones(Dedupe(Candidates(rawCsvPhone, extractedPhones)))
    ensures forall p :: p in PhoneColumns(MergeRow(rawCsvPhone, extractedPhones, extractedEmails)) ==> IsCanonicalPhone(p)
    ensures MergeRow(rawCsvPhone, extractedPhones, extractedEmails).phone == "" ==>
            MergeRow(rawCsvPhone, extractedPhones, extractedEmails).additionalPhones == ""
  {
    ColumnsOf(FilterPhones(Dedupe(Candidates(rawCsvPhone, extractedPhones))), extractedEmails);
  }

  /** Splitting a list of phones into the two columns loses nothing. */
  lemma ColumnsOf(fs: seq<string>, emails: seq<string>)
    requires forall p :: p in fs ==> IsCanonicalPhone(p)
    ensures PhoneColumns(Columns(fs, emails)) == fs
    ensures Columns(fs, emails).phone == "" ==> Columns(fs, emails).additionalPhones == ""
  {
    if fs != [] {
      assert fs[0] in fs;
      CanonicalPlain(fs[0]);
    }
    if |fs| > 1 {
      var rest := fs[1..];
      forall k | 0 <= k < |rest| ensures ',' !in rest[k] && IsStripped(rest[k]) && rest[k] != "" {
        assert rest[k] in fs;
        CanonicalPlain(rest[k]);
      }
      JoinSplit(rest, ',');
      JoinNonEmpty(rest, ", ");
      assert fs == [fs[0]] + rest;
    }
  }

  /** A CSV phone that is accepted is always `Phone`: it is the first candidate. */
  lemma CsvPhoneFirst(rawCsvPhone: Cell, extractedPhones: seq<string>, extractedEmails: seq<string>)
    requires Accepted(CleanCsvPhoneForSave(rawCsvPhone)).Some?
    ensures MergeRow(rawCsvPhone, extractedPhones, extractedEmails).phone
            == Accepted(CleanCsvPhoneForSave(rawCsvPhone)).value
  {
    var c := CleanCsvPhoneForSave(rawCsvPhone);
    assert Candidates(rawCsvPhone, extractedPhones) == [c] + extractedPhones;
    FirstCandidateFirst(c, extractedPhones);
  }

  lemma FirstCandidateFirst(c: string, rest: seq<string>)
    requires Accepted(c).Some?
    ensures FilterPhones(Dedupe([c] + rest)) != []
    ensures FilterPhones(Dedupe([c] + rest))[0] == Accepted(c).value
  {
    var vs := [c] + rest;
    assert vs[0] == c && vs[1..] == rest && vs[0..] == vs;
    DedupeFromStep(vs, 0, {});
    var tail := DedupeFrom(rest, {} + {DigitsOnly(c)});
    assert Dedupe(vs) == [c] + tail;
    var ws := [c] + tail;
    assert ws[0] == c && ws[1..] == tail;
    assert FilterPhones(ws) == [Accepted(c).value] + FilterPhones(tail);
  }

  /** Without a usable website only the CSV phone is a candidate: `Additional Phones` and
      `Email` stay empty, and `Phone` is the CSV phone when it is accepted. */
  lemma NoWebsiteOnlyCsvPhone(row: Row, pages: map<string, string>)
    requires !Truthy(row.website) || NormalizeUrl(row.website).None?
    ensures EnrichRow(row, pages) == Enriched(
              match Accepted(CleanCsvPhoneForSave(row.phoneNumber)) case Some(p) => p case None => "",
              "", "")
  {
    assert EnrichRow(row, pages) == MergeRow(row.phoneNumber, [], []);
    OnlyCsvPhone(row.phoneNumber);
  }

  lemma OnlyCsvPhone(rawCsvPhone: Cell)
    ensures MergeRow(rawCsvPhone, [], []) == Enriched(
              match Accepted(CleanCsvPhoneForSave(rawCsvPhone)) case Some(p) => p case None => "",
              "", "")
  {
    var c := CleanCsvPhoneForSave(rawCsvPhone);
    var cands := Candidates(rawCsvPhone, []);
    if c != "" {
      assert cands == [c];
      assert cands[1..] == [];
      if DigitsOnly(c) != "" {
        assert Dedupe(cands) == [c];
        assert FilterPhones([c]) == (match Accepted(c) case Some(p) => [p] case None => []) + FilterPhones([]);
      }
    } else {
      assert cands == [];
    }
  }

  /** `Email` is the first of the page's sorted emails: the smallest address found, ""
      exactly when the page has none. */
  lemma EmailIsSmallestFound(row: Row, pages: map<string, string>)
    requires Truthy(row.website) && NormalizeUrl(row.website).Some?
    ensures var page := Fetch(pages, NormalizeUrl(row.website).value);
            var e := EnrichRow(row, pages).email;
            var found := FindAll(EmailAddress, page, 0);
            (e == "" <==> found == [])
            && (e != "" ==> e in found && forall y :: y in found ==> y == e || Ordering.Less(e, y))
  {
    var page := Fetch(pages, NormalizeUrl(row.website).value);
    var emails := if page != "" then ExtractedEmails(page) else [];
    assert EnrichRow(row, pages).email == if emails == [] then "" else emails[0];
    FirstEmail(page, emails);
  }

  lemma FirstEmail(page: string, emails: seq<string>)
    requires emails == if page != "" then ExtractedEmails(page) else []
    ensures var e := if emails == [] then "" else emails[0];
            var found := FindAll(EmailAddress, page, 0);
            (e == "" <==> found == [])
            && (e != "" ==> e in found && forall y :: y in found ==> y == e || Ordering.Less(e, y))
  {
    var found := FindAll(EmailAddress, page, 0);
    assert page == "" ==> found == [];
    FindAllEmailsShape(page, 0);
    if emails != [] {
      assert emails[0] in emails;
      assert HasEmailShape(emails[0]);
      forall y | y in found ensures y == emails[0] || Ordering.Less(emails[0], y) {
        var k :| 0 <= k < |emails| && emails[k] == y;
      }
    } else if page != "" {
      assert forall y :: y in found ==> y in emails;
    }
  }

  /** A key no value carries changes nothing when it is already seen. */
  lemma {:induction false} DedupeFromUnusedKey(values: seq<string>, seen: set<string>, k: string)
    requires forall x :: x in values ==> DigitsOnly(x) != k
    ensures DedupeFrom(values, seen + {k}) == DedupeFrom(values, seen)
  {
    if values != [] {
      var key := DigitsOnly(values[0]);
      assert key != k;
      DedupeFromUnusedKey(values[1..], seen, k);
      if key != "" && key !in seen {
        DedupeFromUnusedKey(values[1..], seen + {key}, k);
        assert seen + {k} + {key} == seen + {key} + {k};
      }
    }
  }

  /** A CSV phone that is not accepted, and whose digits no extracted phone shares, leaves
      the row as if the cell were empty. */
  lemma UnacceptedCsvPhoneIgnored(rawCsvPhone: Cell, extractedPhones: seq<string>, extractedEmails: seq<string>)
    requires Accepted(CleanCsvPhoneForSave(rawCsvPhone)).None?
    requires forall x :: x in extractedPhones ==> DigitsOnly(x) != DigitsOnly(CleanCsvPhoneForSave(rawCsvPhone))
    ensures MergeRow(rawCsvPhone, extractedPhones, extractedEmails) == MergeRow(Missing, extractedPhones, extractedEmails)
  {
    var c := CleanCsvPhoneForSave(rawCsvPhone);
    assert Candidates(Missing, extractedPhones) == extractedPhones;
    if c != "" {
      assert Candidates(rawCsvPhone, extractedPhones) == [c] + extractedPhones;
      UnacceptedFirstIgnored(c, extractedPhones);
    }
  }

  lemma UnacceptedFirstIgnored(c: string, rest: seq<string>)
    requires Accepted(c).None?
    requires forall x :: x in rest ==> DigitsOnly(x) != DigitsOnly(c)
    ensures FilterPhones(Dedupe([c] + rest)) == FilterPhones(Dedupe(rest))
  {
    var vs := [c] + rest;
    assert vs[0..] == vs && vs[1..] == rest;
    DedupeFromStep(vs, 0, {});
    var key := DigitsOnly(c);
    if key != "" {
      DedupeFromUnusedKey(rest, {}, key);
      assert {} + {key} == {key};
      FilterPhonesCons(c, Dedupe(rest));
    }
  }

  /** The phone column can repeat in the additional phones: a CSV value of ten bare digits
      and the same number found on the page as `+1` and ten digits have different digit
      keys, so both survive de-duplication, and both format to the same number. */
  lemma PhoneReappears(d: string, extractedEmails: seq<string>)
    requires |d| == 10 && AllDigits(d) && d[0] != '0'
    ensures MergeRow(Text(d), ["+1" + d], extractedEmails).phone == "+1" + d
    ensures MergeRow(Text(d), ["+1" + d], extractedEmails).additionalPhones == "+1" + d
  {
    var p := "+1" + d;
    ReappearingFiltered(d);
    assert [p, p][1..] == [p];
    assert Join([p], ", ") == p;
  }

  /** Both candidates of such a row survive the filter as the same number. */
  lemma ReappearingFiltered(d: string)
    requires |d| == 10 && AllDigits(d) && d[0] != '0'
    ensures FilterPhones(Dedupe(Candidates(Text(d), ["+1" + d]))) == ["+1" + d, "+1" + d]
  {
    var p := "+1" + d;
    ReappearingKept(d);
    PlusOneCanonical(d);
    AcceptTen(d);
    AcceptCanonical(p);
    TwoAccepted(d, p);
  }

  /** The CSV digits and the page's `+1` form have different keys, so both are kept. */
  lemma ReappearingKept(d: string)
    requires |d| == 10 && AllDigits(d) && d[0] != '0'
    ensures Candidates(Text(d), ["+1" + d]) == [d, "+1" + d]
    ensures Dedupe([d, "+1" + d]) == [d, "+1" + d]
  {
    var p := "+1" + d;
    PlusOneCanonical(d);
    CleanDigits(d);
    CanonicalDigits(p);
    DigitsOnlyOfDigits(d);
    assert |DigitsOnly(d)| != |DigitsOnly(p)|;
    TwoKept(d, p);
  }

  /** A string of digits is saved as it is. */
  lemma CleanDigits(d: string)
    requires d != "" && AllDigits(d)
    ensures CleanCsvPhoneForSave(Text(d)) == d
  {
    assert '-' !in d;
    RemoveAbsent(d, '-');
    assert !IsSpace(d[0]) && !IsSpace(d[|d| - 1]);
    StrippedFixed(d);
  }

  /** Ten digits without a leading zero are accepted as `+1` and the ten digits. */
  lemma AcceptTen(d: string)
    requires |d| == 10 && AllDigits(d) && d[0] != '0'
    ensures Accepted(d) == Some("+1" + d)
  {
    DigitsOnlyOfDigits(d);
    VerifyDigits(d);
  }

  /** A canonical number is accepted as it is. */
  lemma AcceptCanonical(p: string)
    requires IsCanonicalPhone(p)
    ensures Accepted(p) == Some(p)
  {
    CanonicalDigits(p);
    var k := DigitsOnly(p);
    assert k[0] == '1' && |k| == 11;
    VerifyDigits(k);
    FormatKeepsCanonical(p);
  }

  lemma TwoKept(a: string, b: string)
    requires DigitsOnly(a) != "" && DigitsOnly(b) != "" && DigitsOnly(a) != DigitsOnly(b)
    ensures Dedupe([a, b]) == [a, b]
  {
    var vs := [a, b];
    assert vs[0..] == vs && vs[2..] == [];
    DedupeFromStep(vs, 0, {});
    DedupeFromStep(vs, 1, {} + {DigitsOnly(a)});
  }

  lemma TwoAccepted(a: string, b: string)
    requires Accepted(a).Some? && Accepted(b).Some?
    ensures FilterPhones([a, b]) == [Accepted(a).value, Accepted(b).value]
  {
    var vs := [a, b];
    assert vs[0..] == vs && vs[2..] == [];
    FilterPhonesStep(vs, 0);
    FilterPhonesStep(vs, 1);
  }

  /** Lines 214-229: the loop over the de-duplicated candidates. */
  method FilterCandidates(candidates: seq<string>) returns (filtered: seq<string>)
    ensures filtered == FilterPhones(Dedupe(candidates))
  {
    var unique := DedupePreserveOrder(candidates);
    filtered := [];
    var i := 0;
    while i < |unique|
      invariant 0 <= i <= |unique|
      invariant filtered + FilterPhones(unique[i..]) == FilterPhones(unique)
    {
      var kept := CheckPhone(unique[i]);
      FilterPhonesAppend(filtered, unique, i);
      filtered := filtered + kept;
      i := i + 1;
    }
    assert unique[i..] == [];
  }

  /** One more phone checked: what it gives moves from the phones still to check to the
      phones kept. */
  lemma FilterPhonesAppend(filtered: seq<string>, phones: seq<string>, i: nat)
    requires i < |phones|
    ensures filtered + FilterPhones(phones[i..])
            == (filtered + match Accepted(phones[i]) case Some(p) => [p] case None => []) + FilterPhones(phones[i + 1..])
  {
    FilterPhonesStep(phones, i);
  }

  /** Lines 217-229 for one phone: its formatted value when it passes, nothing otherwise. */
  method CheckPhone(phone: string) returns (kept: seq<string>)
    ensures |kept| <= 1
    ensures kept != [] <==> DigitsOnly(phone) != "" && VerifyPhone(Value(DigitsOnly(phone)))
                            && FormatUsPhoneE164(phone).Some?
    ensures kept != [] ==> kept[0] == FormatUsPhoneE164(phone).value && IsCanonicalPhone(kept[0])
    ensures kept == match Accepted(phone) case Some(p) => [p] case None => []
  {
    kept := [];
    var d := DigitsOnly(phone);
    if d != "" {
      var n := Value(d);
      if VerifyPhone(n) {
        var normalized := FormatUsPhoneE164(phone);
        if normalized.Some? {
          kept := [normalized.value];
        }
      }
    }
  }

  /** The rows' new cells, row by row. */
  function EnrichAll(rows: seq<Row>, pages: map<string, string>): (r: seq<Enriched>)
    ensures |r| == |rows|
  {
    if rows == [] then [] else EnrichAll(rows[..|rows| - 1], pages) + [EnrichRow(rows[|rows| - 1], pages)]
  }

  /** Row `i` of the output is the enrichment of row `i` of the input. */
  lemma {:induction false} EnrichAllIndex(rows: seq<Row>, pages: map<string, string>, i: nat)
    requires i < |rows|
    ensures EnrichAll(rows, pages)[i] == EnrichRow(rows[i], pages)
  {
    if i < |rows| - 1 {
      EnrichAllIndex(rows[..|rows| - 1], pages, i);
    }
  }

  /** The three columns read row by row. */
  function Zip(phones: seq<string>, addl: seq<string>, emails: seq<string>): (r: seq<Enriched>)
    requires |phones| == |addl| == |emails|
    ensures |r| == |phones|
    ensures forall i :: 0 <= i < |r| ==> r[i] == Enriched(phones[i], addl[i], emails[i])
  {
    seq(|phones|, i requires 0 <= i < |phones| => Enriched(phones[i], addl[i], emails[i]))
  }

  lemma ZipSnoc(phones: seq<string>, addl: seq<string>, emails: seq<string>, e: Enriched)
    requires |phones| == |addl| == |emails|
    ensures Zip(phones + [e.phone], addl + [e.additionalPhones], emails + [e.email]) == Zip(phones, addl, emails) + [e]
  {
  }

  lemma EnrichAllSnoc(rows: seq<Row>, r: nat, pages: map<string, string>)
    requires r < |rows|
    ensures EnrichAll(rows[..r + 1], pages) == EnrichAll(rows[..r], pages) + [EnrichRow(rows[r], pages)]
  {
    assert rows[..r + 1][..r] == rows[..r];
  }

  /** Lines 186-244: the loop over the rows, appending to the three new columns. */
  method EnrichRows(rows: seq<Row>, pages: map<string, string>)
    returns (phonesCol: seq<string>, addlPhonesCol: seq<string>, emailCol: seq<string>)
    ensures |phonesCol| == |rows| && |addlPhonesCol| == |rows| && |emailCol| == |rows|
    ensures Zip(phonesCol, addlPhonesCol, emailCol) == EnrichAll(rows, pages)
  {
    phonesCol, addlPhonesCol, emailCol := [], [], [];
    for r := 0 to |rows|
      invariant |phonesCol| == r && |addlPhonesCol| == r && |emailCol| == r
      invariant Zip(phonesCol, addlPhonesCol, emailCol) == EnrichAll(rows[..r], pages)
    {
      var e := EnrichOne(rows[r], pages);
      EnrichAllSnoc(rows, r, pages);
      ZipSnoc(phonesCol, addlPhonesCol, emailCol, e);
      phonesCol, addlPhonesCol, emailCol := phonesCol + [e.phone], addlPhonesCol + [e.additionalPhones], emailCol + [e.email];
    }
    assert rows[..|rows|] == rows;
  }

  /** The body of the row loop, lines 187-244. */
  method EnrichOne(row: Row, pages: map<string, string>) returns (e: Enriched)
    ensures e == EnrichRow(row, pages)
  {
    var candidates: seq<string> := [];
    var csvPhoneForSave := CleanCsvPhoneForSave(row.phoneNumber);
    if csvPhoneForSave != "" {
      candidates := candidates + [csvPhoneForSave];
      assert candidates == [csvPhoneForSave];
    }
    var extractedPhones, extractedEmails := FetchContacts(row, pages);
    candidates := candidates + extractedPhones;
    assert candidates == Candidates(row.phoneNumber, extractedPhones);
    assert EnrichRow(row, pages) == MergeRow(row.phoneNumber, extractedPhones, extractedEmails);
    var filtered := FilterCandidates(candidates);
    e := FillColumns(filtered, extractedEmails);
  }

  /** Lines 196-211: the phones and emails found on the row's website, none when it has
      no usable URL or the page is empty. */
  method FetchContacts(row: Row, pages: map<string, string>)
    returns (extractedPhones: seq<string>, extractedEmails: seq<string>)
    ensures var html := PageText(row, pages);
            extractedPhones == (if html != "" then ExtractedPhones(html) else [])
            && extractedEmails == (if html != "" then ExtractedEmails(html) else [])
    ensures Ordering.StrictlySorted(extractedPhones) && Ordering.StrictlySorted(extractedEmails)
    ensures forall p :: p in extractedPhones ==> IsCanonicalPhone(p)
    ensures Truthy(row.website) && NormalizeUrl(row.website).None? ==> extractedPhones == [] && extractedEmails == []
  {
    var normUrl := if Truthy(row.website) then NormalizeUrl(row.website) else None;
    extractedEmails, extractedPhones := [], [];
    if normUrl.Some? {
      var html := Fetch(pages, normUrl.value);
      if html != "" {
        extractedPhones, extractedEmails := ExtractContacts(html);
      }
    }
  }

  /** Lines 231-244: filling the three new columns of the row. */
  method FillColumns(filtered: seq<string>, extractedEmails: seq<string>) returns (e: Enriched)
    ensures e == Columns(filtered, extractedEmails)
    ensures (forall p :: p in filtered ==> IsCanonicalPhone(p)) ==> PhoneColumns(e) == filtered
    ensures (forall p :: p in filtered ==> IsCanonicalPhone(p)) ==> (e.phone == "" <==> filtered == [])
    ensures e.email == if extractedEmails == [] then "" else extractedEmails[0]
  {
    var phone, additional, email := "", "", "";
    if filtered != [] {
      phone := filtered[0];
      if |filtered| > 1 {
        additional := Join(filtered[1..], ", ");
      }
    }
    if extractedEmails != [] {
      email := extractedEmails[0];
    }
    e := Enriched(phone, additional, email);
    if forall p :: p in filtered ==> IsCanonicalPhone(p) {
      ColumnsOf(filtered, extractedEmails);
    }
  }
}
