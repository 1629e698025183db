/** How the scripts meet: combined.py writes the merged rows that crawler.py enriches, and
    fix_csv.py rewrites the enriched file. */
module Pipeline {
  import opened Strings
  import opened Cells
  import opened Crawler
  import opened FixCsv
  import opened Combined

  /** Two numbers of one name, as the scraper wrote them, merged by `join_phones` into a
      "; " cell hold twenty digits or more. `format_us_phone_e164` rejects that many digits
      (and `verify_phone` accepts them when the first is not 0), so the cell adds nothing to
      the enriched row: the row comes out as if its phone were NaN. */
  lemma MergedCellIgnored(p: string, q: string, extractedPhones: seq<string>, extractedEmails: seq<string>)
    requires Strip(p) != "" && Strip(q) != "" && Strip(p) != Strip(q)
    requires |DigitsOnly(p)| >= 10 && |DigitsOnly(q)| >= 10
    requires forall x :: x in extractedPhones ==> IsCanonicalPhone(x)
    ensures JoinPhones([Text(p), Text(q)]) == Some(Strip(p) + "; " + Strip(q))
    ensures var c := CleanCsvPhoneForSave(Text(JoinPhones([Text(p), Text(q)]).value));
            && |DigitsOnly(c)| >= 20 && FormatUsPhoneE164(c).None?
            && (DigitsOnly(c)[0] != '0' ==> VerifyPhone(Value(DigitsOnly(c))))
    ensures MergeRow(Text(JoinPhones([Text(p), Text(q)]).value), extractedPhones, extractedEmails)
            == MergeRow(Missing, extractedPhones, extractedEmails)
  {
    DifferentSpellingsKept(p, q);
    var j := Strip(p) + "; " + Strip(q);
    var c := CleanCsvPhoneForSave(Text(j));
    var d := DigitsOnly(c);
    MergedDigits(p, q);
    assert |d| >= 20;
    if d[0] != '0' {
      VerifyDigits(d);
    }
    FormatReachable(c);
    assert Accepted(c).None?;
    forall x | x in extractedPhones ensures DigitsOnly(x) != d {
      CanonicalDigits(x);
    }
    UnacceptedCsvPhoneIgnored(Text(j), extractedPhones, extractedEmails);
  }

  /** The merged cell's digits are those of both phones, one after the other. */
  lemma MergedDigits(p: string, q: string)
    ensures DigitsOnly(Strip(p) + "; " + Strip(q)) == DigitsOnly(p) + DigitsOnly(q)
  {
    var x, y := Strip(p), Strip(q);
    StripKeepsDigits(p);
    StripKeepsDigits(q);
    DigitsOnlyOfNonDigits("; ");
    DigitsOnlyAppend(x, "; ");
    assert DigitsOnly(x + "; ") == DigitsOnly(p);
    DigitsOnlyAppend(x + "; ", y);
  }

  /** A CSV phone of ten digits and the same number found on the site as `+1...` both
      survive de-duplication and come out as the same `+1` number, so Phone reappears in
      Additional Phones; fix_csv.py then removes it and leaves Phone as it is. */
  lemma ReappearingPhoneRemoved(d: string, extractedEmails: seq<string>)
    requires |d| == 10 && AllDigits(d) && d[0] != '0'
    ensures var r := MergeRow(Text(d), ["+1" + d], extractedEmails);
            && r.phone == "+1" + d && r.additionalPhones == "+1" + d
            && AddPlus1(Text(r.phone)) == r.phone
            && CleanAdditionalPhones(AddPlus1(Text(r.phone)), Text(r.additionalPhones)) == ""
  {
    var p := "+1" + d;
    PhoneReappears(d, extractedEmails);
    PlusOneCanonical(d);
    AddPlus1Canonical(p);
    CanonicalPlain(p);
    assert p != "nan" by { assert p[0] == '+'; }
    MainOnlyCleared(p);
  }

  /** On a value without a leading `+`, `add_plus1` gives what `format_us_phone_e164`
      gives, and the stripped value where that gives nothing. */
  lemma AddPlus1MatchesFormat(s: string)
    requires s != "" && !StartsWith(Strip(s), "+")
    ensures FormatUsPhoneE164(Strip(s)).Some? ==> AddPlus1(Text(s)) == FormatUsPhoneE164(Strip(s)).value
    ensures FormatUsPhoneE164(Strip(s)).None? ==> AddPlus1(Text(s)) == Strip(s)
  {
    AddPlus1Cases(s);
    FormatReachable(Strip(s));
  }

  /** fix_csv.py leaves the Phone cell crawler.py writes as it is: it is "" or a `+1`
      number already. */
  lemma FixKeepsEnrichedPhone(rawCsvPhone: Cell, extractedPhones: seq<string>, extractedEmails: seq<string>)
    ensures var phone := MergeRow(rawCsvPhone, extractedPhones, extractedEmails).phone;
            AddPlus1(Text(phone)) == phone
  {
    var r := MergeRow(rawCsvPhone, extractedPhones, extractedEmails);
    MergeRowColumns(rawCsvPhone, extractedPhones, extractedEmails);
    if r.phone != "" {
      assert r.phone in PhoneColumns(r);
      AddPlus1Canonical(r.phone);
    }
  }
}
