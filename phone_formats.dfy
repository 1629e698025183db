/** The US phone layouts `extract_contacts` is written for. For every ten digits `d`, each
    layout below yields exactly one phone, `+1` followed by `d`; ten bare digits yield none. */
module PhoneFormats {
  import opened Strings
  import opened Ordering
  import opened Cells
  import opened Tools

  predicate IsSeparator(c: char) { InClass(c, Separator) }

  /** `t[lo..lo + n]` spells `d[dlo..dlo + n]`. */
  predicate Spells(t: string, lo: nat, d: string, dlo: nat, n: nat) {
    lo + n <= |t| && dlo + n <= |d| && forall k :: lo <= k < lo + n ==> t[k] == d[dlo + k - lo]
  }

  /** A spelled stretch of `t` is the slice of `d` it spells. */
  lemma SpelledSlice(t: string, lo: nat, d: string, dlo: nat, n: nat)
    requires Spells(t, lo, d, dlo, n)
    ensures t[lo..lo + n] == d[dlo..dlo + n]
  {
    var spelled, source := t[lo..lo + n], d[dlo..dlo + n];
    forall k | 0 <= k < n
      ensures spelled[k] == source[k]
    {
      assert t[lo + k] == d[dlo + lo + k - lo];
    }
  }

  /** `ddd-ddd-dddd` from offset `o` to the end of `t`; either dash may be any one
      separator character. */
  predicate DashedAt(t: string, o: nat, d: string) {
    |t| == o + 12 && |d| == 10 && AllDigits(d)
    && IsSeparator(t[o + 3]) && IsSeparator(t[o + 7])
    && Spells(t, o, d, 0, 3) && Spells(t, o + 4, d, 3, 3) && Spells(t, o + 8, d, 6, 4)
  }

  /** `(ddd) ddd-dddd` from offset `o` to the end of `t`; the space and the dash may be any
      one separator character. */
  predicate ParenthesisedAt(t: string, o: nat, d: string) {
    |t| == o + 14 && |d| == 10 && AllDigits(d)
    && t[o] == '(' && t[o + 4] == ')' && IsSeparator(t[o + 5]) && IsSeparator(t[o + 9])
    && Spells(t, o + 1, d, 0, 3) && Spells(t, o + 6, d, 3, 3) && Spells(t, o + 10, d, 6, 4)
  }

  /** `+1` and one separator character. */
  predicate PlusOnePrefix(t: string) {
    |t| >= 3 && t[0] == '+' && t[1] == '1' && IsSeparator(t[2])
  }

  lemma CanonicalOfDigits(m: string, d: string)
    requires DigitsOnly(m) == d && |d| == 10
    ensures CanonicalMatch(m) == Some("+1" + d)
  {
    assert d[|d| - 10..] == d;
  }

  lemma CanonicalOfPlusOneDigits(m: string, d: string)
    requires DigitsOnly(m) == "1" + d && |d| == 10
    ensures CanonicalMatch(m) == Some("+1" + d)
  {
    assert ("1" + d)[1..] == d;
  }

  lemma NoPlusOneMatch(t: string)
    requires '+' !in t
    ensures FindAll(PlusOnePhone, t, 0) == []
  {
    FindAllSkip(PlusOnePhone, t, 0, |t|);
  }

  /** The separated pattern matches at `i` with its groups at `a`, `b` and `c`. */
  lemma SeparatedFrom(t: string, i: nat, a: nat, b: nat, c: nat)
    requires i <= |t| && a + 3 <= |t|
    requires a == SkipChar(t, i, '(') && DigitsAt(t, a, 3)
    requires b == RunEnd(t, SkipChar(t, a + 3, ')'), Separator) && b != SkipChar(t, a + 3, ')')
    requires DigitsAt(t, b, 3)
    requires c == RunEnd(t, b + 3, Separator) && c != b + 3 && DigitsAt(t, c, 4)
    ensures MatchSeparated(t, i) == Some(c + 4)
  {
  }

  lemma DashedSeparatedMatch(t: string, o: nat, d: string)
    requires DashedAt(t, o, d)
    ensures FindAll(SeparatedPhone, t, o) == [t[o..]]
  {
    DashedLayout(t, o, d);
    SeparatedFrom(t, o, o, o + 4, o + 8);
    assert MatchAt(SeparatedPhone, t, o) == Some(o + 12);
    assert FindAll(SeparatedPhone, t, o + 12) == [];
    assert t[o..o + 12] == t[o..];
  }

  lemma DashedLayout(t: string, o: nat, d: string)
    requires DashedAt(t, o, d)
    ensures SkipChar(t, o, '(') == o && DigitsAt(t, o, 3)
    ensures RunEnd(t, SkipChar(t, o + 3, ')'), Separator) == o + 4 && DigitsAt(t, o + 4, 3)
    ensures RunEnd(t, o + 7, Separator) == o + 8 && DigitsAt(t, o + 8, 4)
  {
    assert SkipChar(t, o + 3, ')') == o + 3;
    assert RunEnd(t, o + 4, Separator) == o + 4;
    assert RunEnd(t, o + 8, Separator) == o + 8;
  }

  lemma DashedDigits(t: string, o: nat, d: string)
    requires DashedAt(t, o, d)
    ensures DigitsOnly(t[o..]) == d
  {
    assert DigitFree(t, o, o) && DigitFree(t, o + 3, o + 4) && DigitFree(t, o + 7, o + 8);
    assert DigitsAt(t, o, 3) && DigitsAt(t, o + 4, 3) && DigitsAt(t, o + 8, 4);
    ThreeGroups(t, o, o, o + 4, o + 8, 4);
    assert t[o..o + 12] == t[o..];
    SpelledSlice(t, o, d, 0, 3);
    SpelledSlice(t, o + 4, d, 3, 3);
    SpelledSlice(t, o + 8, d, 6, 4);
    assert d == d[0..3] + d[3..6] + d[6..10];
  }

  lemma ParenthesisedSeparatedMatch(t: string, o: nat, d: string)
    requires ParenthesisedAt(t, o, d)
    ensures FindAll(SeparatedPhone, t, o) == [t[o..]]
  {
    ParenthesisedLayout(t, o, d);
    SeparatedFrom(t, o, o + 1, o + 6, o + 10);
    assert MatchAt(SeparatedPhone, t, o) == Some(o + 14);
    assert FindAll(SeparatedPhone, t, o + 14) == [];
    assert t[o..o + 14] == t[o..];
  }

  lemma ParenthesisedLayout(t: string, o: nat, d: string)
    requires ParenthesisedAt(t, o, d)
    ensures SkipChar(t, o, '(') == o + 1 && DigitsAt(t, o + 1, 3)
    ensures RunEnd(t, SkipChar(t, o + 4, ')'), Separator) == o + 6 && DigitsAt(t, o + 6, 3)
    ensures RunEnd(t, o + 9, Separator) == o + 10 && DigitsAt(t, o + 10, 4)
  {
    assert SkipChar(t, o + 4, ')') == o + 5;
    assert RunEnd(t, o + 6, Separator) == o + 6;
    assert RunEnd(t, o + 10, Separator) == o + 10;
  }

  lemma ParenthesisedDigits(t: string, o: nat, d: string)
    requires ParenthesisedAt(t, o, d)
    ensures DigitsOnly(t[o..]) == d
  {
    assert DigitFree(t, o, o + 1) && DigitFree(t, o + 4, o + 6) && DigitFree(t, o + 9, o + 10);
    assert DigitsAt(t, o + 1, 3) && DigitsAt(t, o + 6, 3) && DigitsAt(t, o + 10, 4);
    ThreeGroups(t, o, o + 1, o + 6, o + 10, 4);
    assert t[o..o + 14] == t[o..];
    SpelledSlice(t, o + 1, d, 0, 3);
    SpelledSlice(t, o + 6, d, 3, 3);
    SpelledSlice(t, o + 10, d, 6, 4);
    assert d == d[0..3] + d[3..6] + d[6..10];
  }

  /** A `ddd-ddd-dddd` layout holds no '+'. */
  lemma DashedNoPlus(t: string, d: string)
    requires DashedAt(t, 0, d)
    ensures '+' !in t
  {
    forall k | 0 <= k < |t|
      ensures t[k] != '+'
    {
      if k == 3 || k == 7 {
        assert IsSeparator(t[k]);
      } else if k < 3 {
        assert t[k] == d[k];
      } else if k < 7 {
        assert t[k] == d[k - 1];
      } else {
        assert t[k] == d[k - 2];
      }
    }
  }

  /** A `(ddd) ddd-dddd` layout holds no '+'. */
  lemma ParenthesisedNoPlus(t: string, d: string)
    requires ParenthesisedAt(t, 0, d)
    ensures '+' !in t
  {
    forall k | 0 <= k < |t|
      ensures t[k] != '+'
    {
      if k == 0 || k == 4 {
      } else if k == 5 || k == 9 {
        assert IsSeparator(t[k]);
      } else if k < 4 {
        assert t[k] == d[k - 1];
      } else if k < 9 {
        assert t[k] == d[k - 3];
      } else {
        assert t[k] == d[k - 4];
      }
    }
  }

  /** `832-810-7822` and every other `ddd-ddd-dddd`. */
  lemma Dashed(t: string, d: string)
    requires DashedAt(t, 0, d)
    ensures ExtractedPhones(t) == ["+1" + d]
  {
    DashedNoPlus(t, d);
    NoPlusOneMatch(t);
    DashedSeparatedMatch(t, 0, d);
    assert t[0..] == t;
    assert PhoneMatches(t) == [t];
    DashedDigits(t, 0, d);
    CanonicalOfDigits(t, d);
    SamePhoneEverywhere(t, "+1" + d);
  }

  /** `(832) 810-7822` and every other `(ddd) ddd-dddd`. */
  lemma Parenthesised(t: string, d: string)
    requires ParenthesisedAt(t, 0, d)
    ensures ExtractedPhones(t) == ["+1" + d]
  {
    ParenthesisedNoPlus(t, d);
    NoPlusOneMatch(t);
    ParenthesisedSeparatedMatch(t, 0, d);
    assert t[0..] == t;
    assert PhoneMatches(t) == [t];
    ParenthesisedDigits(t, 0, d);
    CanonicalOfDigits(t, d);
    SamePhoneEverywhere(t, "+1" + d);
  }

  /** After `+1` and a separator no separated match starts before offset 3. */
  lemma NoEarlySeparatedMatch(t: string)
    requires PlusOnePrefix(t) && |t| >= 4
    ensures FindAll(SeparatedPhone, t, 0) == FindAll(SeparatedPhone, t, 3)
  {
    assert !IsDigit(t[0]) && !IsDigit(t[2]);
    assert SkipChar(t, 0, '(') == 0 && SkipChar(t, 1, '(') == 1 && SkipChar(t, 2, '(') == 2;
    FindAllSkip(SeparatedPhone, t, 0, 3);
  }

  lemma PlusOnePrefixDigits(t: string, d: string)
    requires PlusOnePrefix(t) && DigitsOnly(t[3..]) == d
    ensures DigitsOnly(t) == "1" + d
  {
    DigitsOnlySlice(t, 0, 3, |t|);
    assert t[0..|t|] == t;
    PrefixDigits(t[0..3]);
  }

  lemma PrefixDigits(p: string)
    requires |p| == 3 && p[0] == '+' && p[1] == '1' && !IsDigit(p[2])
    ensures DigitsOnly(p) == "1"
  {
    var q := p[1..];
    assert q[1..] == [p[2]];
    assert DigitsOnly(q[1..]) == [];
    assert DigitsOnly(q) == [q[0]];
  }

  lemma InternationalPlusOneMatch(t: string, d: string)
    requires PlusOnePrefix(t) && ParenthesisedAt(t, 3, d)
    ensures FindAll(PlusOnePhone, t, 0) == [t]
  {
    assert SkipSeparator(t, 2) == 3 && SkipChar(t, 3, '(') == 4 && DigitsAt(t, 4, 3);
    assert SkipChar(t, 7, ')') == 8 && SkipSeparator(t, 8) == 9 && DigitsAt(t, 9, 3);
    assert SkipSeparator(t, 12) == 13 && DigitsAt(t, 13, 4);
    assert MatchPlusOne(t, 0) == Some(17);
    assert FindAll(PlusOnePhone, t, 17) == [];
    assert t[0..17] == t;
  }

  /** `+1 (832) 810-7822`: the `+1` pattern matches the whole text and the separated
      pattern the part after `+1 `; both stand for the same number. */
  lemma International(t: string, d: string)
    requires PlusOnePrefix(t) && ParenthesisedAt(t, 3, d)
    ensures ExtractedPhones(t) == ["+1" + d]
  {
    InternationalMatches(t, d);
    InternationalCanonical(t, d);
    SamePhoneEverywhere(t, "+1" + d);
  }

  lemma InternationalMatches(t: string, d: string)
    requires PlusOnePrefix(t) && ParenthesisedAt(t, 3, d)
    ensures PhoneMatches(t) == [t, t[3..]]
  {
    InternationalPlusOneMatch(t, d);
    NoEarlySeparatedMatch(t);
    ParenthesisedSeparatedMatch(t, 3, d);
  }

  lemma InternationalCanonical(t: string, d: string)
    requires PlusOnePrefix(t) && ParenthesisedAt(t, 3, d)
    ensures CanonicalMatch(t) == Some("+1" + d) && CanonicalMatch(t[3..]) == Some("+1" + d)
  {
    ParenthesisedDigits(t, 3, d);
    PlusOnePrefixDigits(t, d);
    CanonicalOfPlusOneDigits(t, d);
    CanonicalOfDigits(t[3..], d);
  }

  lemma DashedInternationalPlusOneMatch(t: string, d: string)
    requires PlusOnePrefix(t) && DashedAt(t, 3, d)
    ensures FindAll(PlusOnePhone, t, 0) == [t]
  {
    assert SkipSeparator(t, 2) == 3 && SkipChar(t, 3, '(') == 3 && DigitsAt(t, 3, 3);
    assert SkipChar(t, 6, ')') == 6 && SkipSeparator(t, 6) == 7 && DigitsAt(t, 7, 3);
    assert SkipSeparator(t, 10) == 11 && DigitsAt(t, 11, 4);
    assert MatchPlusOne(t, 0) == Some(15);
    assert FindAll(PlusOnePhone, t, 15) == [];
    assert t[0..15] == t;
  }

  /** `+1-832-810-7822`: as above, with the dashed layout after the prefix. */
  lemma DashedInternational(t: string, d: string)
    requires PlusOnePrefix(t) && DashedAt(t, 3, d)
    ensures ExtractedPhones(t) == ["+1" + d]
  {
    DashedInternationalMatches(t, d);
    DashedInternationalCanonical(t, d);
    SamePhoneEverywhere(t, "+1" + d);
  }

  lemma DashedInternationalMatches(t: string, d: string)
    requires PlusOnePrefix(t) && DashedAt(t, 3, d)
    ensures PhoneMatches(t) == [t, t[3..]]
  {
    DashedInternationalPlusOneMatch(t, d);
    NoEarlySeparatedMatch(t);
    DashedSeparatedMatch(t, 3, d);
  }

  lemma DashedInternationalCanonical(t: string, d: string)
    requires PlusOnePrefix(t) && DashedAt(t, 3, d)
    ensures CanonicalMatch(t) == Some("+1" + d) && CanonicalMatch(t[3..]) == Some("+1" + d)
  {
    DashedDigits(t, 3, d);
    PlusOnePrefixDigits(t, d);
    CanonicalOfPlusOneDigits(t, d);
    CanonicalOfDigits(t[3..], d);
  }

  /** `8328107822`: a run of bare digits is no phone, whatever its length. */
  lemma BareDigits(t: string)
    requires AllDigits(t)
    ensures ExtractedPhones(t) == []
  {
    NoSeparatorNoPhone(t);
  }

  /** `Call 8328107822 now`: a bare run of at most ten digits inside ordinary text is no
      phone. The separated pattern needs a separator inside the digits, and the `+1`
      pattern eleven digits. */
  lemma BareNumberInText(pre: string, d: string, post: string)
    requires NoDigits(pre) && AllDigits(d) && |d| <= 10 && NoDigits(post)
    ensures ExtractedPhones(pre + d + post) == []
  {
    var t := pre + d + post;
    var lo, hi := |pre|, |pre| + |d|;
    forall x | 0 <= x < |t| ensures IsDigit(t[x]) <==> lo <= x < hi {
      if x < lo { assert t[x] == pre[x]; }
      else if x < hi { assert t[x] == d[x - lo]; }
      else { assert t[x] == post[x - hi]; }
    }
    TextDigits(pre, d, post);
    forall k | 0 <= k < |t|
      ensures MatchAt(PlusOnePhone, t, k).None? && MatchAt(SeparatedPhone, t, k).None?
    {
      SeparatedNeedsTwoRuns(t, lo, hi, k);
      PlusOneNeedsEleven(t, k);
    }
    FindAllSkip(PlusOnePhone, t, 0, |t|);
    FindAllSkip(SeparatedPhone, t, 0, |t|);
    assert PhoneMatches(t) == [];
  }

  /** Text whose digits form the one run [lo, hi) has no match of the separated pattern. */
  lemma SeparatedNeedsTwoRuns(t: string, lo: nat, hi: nat, k: nat)
    requires k <= |t|
    requires forall x :: 0 <= x < |t| ==> (IsDigit(t[x]) <==> lo <= x < hi)
    ensures MatchSeparated(t, k).None?
  {
    if MatchSeparated(t, k).Some? {
      var a, s, b, _, _ := SeparatedMatchGaps(t, k);
      assert false;
    }
  }

  /** Text with at most ten digits has no match of the `+1` pattern. */
  lemma PlusOneNeedsEleven(t: string, k: nat)
    requires k <= |t| && |DigitsOnly(t)| <= 10
    ensures MatchPlusOne(t, k).None?
  {
    if MatchPlusOne(t, k).Some? {
      var e := MatchPlusOne(t, k).value;
      assert t[0..|t|] == t;
      PlusOneMatchDigits(t, k);
      DigitsOnlySlice(t, 0, k, e);
      DigitsOnlySlice(t, 0, e, |t|);
      assert false;
    }
  }

  lemma TextDigits(pre: string, d: string, post: string)
    requires NoDigits(pre) && AllDigits(d) && NoDigits(post)
    ensures DigitsOnly(pre + d + post) == d
  {
    DigitsOnlyAppend(pre + d, post);
    DigitsOnlyAppend(pre, d);
    DigitsOnlyOfNonDigits(pre);
    DigitsOnlyOfDigits(d);
    DigitsOnlyOfNonDigits(post);
  }
}
