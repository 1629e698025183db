/** fix_csv.py: the post-hoc fixers run over a CSV the scraper wrote — `+1` prefixes for
    the phone columns, the main phone removed from the additional ones, and the email
    column split into a first email and the rest. */
module FixCsv {
  import opened Strings
  import opened Cells

  /** Lines 28-40, `add_plus1`: NaN and "" become ""; otherwise the stripped value, with
      `+1` put in front of ten digits and `+` in front of eleven digits starting with 1,
      unless the value already starts with `+`. */
  function AddPlus1(phone: Cell): (r: string)
    ensures IsStripped(r)
    ensures phone.Missing? || phone.s == "" ==> r == ""
  {
    match phone
    case Missing => ""
    case Text(s) =>
      if s == "" then ""
      else
        var t := Strip(s);
        StripSpec(s);
        if !StartsWith(t, "+") then
          var digits := DigitsOnly(t);
          if |digits| == 10 then PlusDigitsStripped("+1", digits); "+1" + digits
          else if |digits| == 11 && digits[0] == '1' then PlusDigitsStripped("+", digits); "+" + digits
          else t
        else t
  }

  /** A `+` prefix followed by digits has no whitespace at either end. */
  lemma PlusDigitsStripped(prefix: string, digits: string)
    requires prefix != "" && prefix[0] == '+' && digits != "" && AllDigits(digits)
    ensures IsStripped(prefix + digits)
  {
    var r := prefix + digits;
    assert r[0] == '+';
    assert r[|r| - 1] == digits[|digits| - 1];
  }

  /** What `add_plus1` does to a non-empty string: it returns the stripped value, or a
      canonical `+1` number whose digits are those of the value, with a 1 added in front
      of ten of them. */
  lemma AddPlus1Cases(s: string)
    requires s != ""
    ensures var t := Strip(s);
            var d := DigitsOnly(t);
            var r := AddPlus1(Text(s));
            (StartsWith(t, "+") ==> r == t)
            && (!StartsWith(t, "+") && |d| == 10 ==> r == "+1" + d && IsCanonicalPhone(r))
            && (!StartsWith(t, "+") && |d| == 11 && d[0] == '1' ==> r == "+" + d && IsCanonicalPhone(r))
            && (!StartsWith(t, "+") && |d| != 10 && !(|d| == 11 && d[0] == '1') ==> r == t)
  {
    var t := Strip(s);
    var d := DigitsOnly(t);
    if !StartsWith(t, "+") && |d| == 11 && d[0] == '1' {
      assert ("+" + d)[2..] == d[1..];
    }
  }

  /** A canonical number passes through `add_plus1` unchanged. */
  lemma AddPlus1Canonical(p: string)
    requires IsCanonicalPhone(p)
    ensures AddPlus1(Text(p)) == p
  {
    assert !IsSpace(p[0]) && !IsSpace(p[|p| - 1]);
    StrippedFixed(p);
    assert p[..1] == "+";
  }

  /** `add_plus1` applied to its own result changes nothing. */
  lemma AddPlus1Idempotent(phone: Cell)
    ensures AddPlus1(Text(AddPlus1(phone))) == AddPlus1(phone)
  {
    var r := AddPlus1(phone);
    if r != "" {
      var s := phone.s;
      AddPlus1Cases(s);
      var t := Strip(s);
      if r == t {
        StrippedFixed(t);
      } else {
        AddPlus1Canonical(r);
      }
    }
  }

  /** `[add_plus1(p.strip()) for p in pieces]` */
  function FixPieces(pieces: seq<string>): (r: seq<string>)
    ensures |r| == |pieces|
  {
    if pieces == [] then [] else [AddPlus1(Text(Strip(pieces[0])))] + FixPieces(pieces[1..])
  }

  /** `[p for p in phones if p and p != main_phone]` */
  function KeepOthers(phones: seq<string>, mainPhone: string): (r: seq<string>)
    ensures |r| <= |phones|
    ensures forall x :: x in r ==> x != "" && x != mainPhone
  {
    if phones == [] then []
    else
      var rest := KeepOthers(phones[1..], mainPhone);
      if phones[0] != "" && phones[0] != mainPhone then [phones[0]] + rest else rest
  }

  /** The kept phones are the non-empty ones other than the main phone, in order, each as
      often as it occurs: only copies of the main phone and empty entries go. */
  lemma {:induction false} KeepOthersSpec(phones: seq<string>, mainPhone: string)
    ensures IsSubsequence(KeepOthers(phones, mainPhone), phones)
    ensures forall p :: p in KeepOthers(phones, mainPhone) ==> p != "" && p != mainPhone
    ensures forall p :: p != "" && p != mainPhone ==>
              multiset(KeepOthers(phones, mainPhone))[p] == multiset(phones)[p]
  {
    if phones != [] {
      var rest := KeepOthers(phones[1..], mainPhone);
      KeepOthersSpec(phones[1..], mainPhone);
      assert phones == [phones[0]] + phones[1..];
      SubsequenceOfTail(rest, phones);
    }
  }

  /** The cell `str(cell).strip()` reads, and whether it counts as no value. */
  predicate NoAdditional(cell: Cell) {
    var a := Strip(Str(cell));
    a == "" || a == "nan"
  }

  /** The phones `clean_additional_phones` keeps for a row, in order. */
  function KeptPhones(fixedPhone: string, additional: Cell): seq<string> {
    KeepOthers(FixPieces(Split(Strip(Str(additional)), ',')), Strip(fixedPhone))
  }

  /** Lines 68-79, `clean_additional_phones`: "" when the cell is blank or "nan";
      otherwise its comma-separated entries, each stripped and given `+1`, without the
      empty ones and those equal to the (already fixed) main phone, joined with ", ". */
  function CleanAdditionalPhones(fixedPhone: string, additional: Cell): (r: string)
    ensures NoAdditional(additional) ==> r == ""
  {
    if NoAdditional(additional) then ""
    else
      var phones := KeptPhones(fixedPhone, additional);
      if phones != [] then Join(phones, ", ") else ""
  }

  /** The entries `add_plus1` gives for comma-split pieces hold no comma and are stripped. */
  lemma {:induction false} FixPiecesClean(pieces: seq<string>)
    requires forall k :: 0 <= k < |pieces| ==> ',' !in pieces[k]
    ensures forall k :: 0 <= k < |FixPieces(pieces)| ==>
              ',' !in FixPieces(pieces)[k] && IsStripped(FixPieces(pieces)[k])
  {
    if pieces != [] {
      FixPiecesClean(pieces[1..]);
      AddPlus1NoComma(Strip(pieces[0]));
      StripIsSlice(pieces[0]);
    }
  }

  lemma AddPlus1NoComma(s: string)
    requires ',' !in s
    ensures ',' !in AddPlus1(Text(s))
  {
    if s != "" {
      var t := Strip(s);
      StripIsSlice(s);
      var d := DigitsOnly(t);
      assert ',' !in d by {
        forall k | 0 <= k < |d| ensures d[k] != ',' { assert IsDigit(d[k]); }
      }
      assert ',' !in "+1" + d && ',' !in "+" + d;
    }
  }

  /** Reading the cleaned cell back — split on ',' and strip each piece — gives exactly
      the kept phones, and the cell is "" exactly when no phone is kept. */
  lemma CleanAdditionalEntries(fixedPhone: string, additional: Cell)
    requires !NoAdditional(additional)
    ensures CleanAdditionalPhones(fixedPhone, additional) == "" <==> KeptPhones(fixedPhone, additional) == []
    ensures CleanAdditionalPhones(fixedPhone, additional) != "" ==>
              StripAll(Split(CleanAdditionalPhones(fixedPhone, additional), ',')) == KeptPhones(fixedPhone, additional)
  {
    var pieces := Split(Strip(Str(additional)), ',');
    var kept := KeepOthers(FixPieces(pieces), Strip(fixedPhone));
    assert kept == KeptPhones(fixedPhone, additional);
    if kept != [] {
      KeptPhonesClean(pieces, Strip(fixedPhone));
      JoinRoundTrip(kept);
    }
  }

  /** An entry that survives a round trip through a ", "-joined cell. */
  predicate CleanEntry(p: string) { p != "" && ',' !in p && IsStripped(p) }

  lemma KeptPhonesClean(pieces: seq<string>, mainPhone: string)
    requires forall k :: 0 <= k < |pieces| ==> ',' !in pieces[k]
    ensures forall k :: 0 <= k < |KeepOthers(FixPieces(pieces), mainPhone)| ==>
              CleanEntry(KeepOthers(FixPieces(pieces), mainPhone)[k])
  {
    FixPiecesClean(pieces);
    KeptClean(FixPieces(pieces), mainPhone);
  }

  /** Non-empty stripped entries without commas, joined with ", ", give a non-empty
      stripped cell that reads back as the entries. */
  lemma JoinRoundTrip(xs: seq<string>)
    requires xs != []
    requires forall k :: 0 <= k < |xs| ==> CleanEntry(xs[k])
    ensures Join(xs, ", ") != "" && IsStripped(Join(xs, ", "))
    ensures StripAll(Split(Join(xs, ", "), ',')) == xs
  {
    JoinSplit(xs, ',');
    JoinHead(xs);
    JoinStripped(xs);
  }

  lemma {:induction false} KeptClean(phones: seq<string>, mainPhone: string)
    requires forall k :: 0 <= k < |phones| ==> ',' !in phones[k] && IsStripped(phones[k])
    ensures forall k :: 0 <= k < |KeepOthers(phones, mainPhone)| ==> CleanEntry(KeepOthers(phones, mainPhone)[k])
  {
    if phones != [] {
      KeptClean(phones[1..], mainPhone);
    }
  }

  /** A join starts with its first piece, so a join of non-empty pieces is non-empty. */
  lemma JoinHead(xs: seq<string>)
    requires xs != []
    ensures |xs[0]| <= |Join(xs, ", ")| && Join(xs, ", ")[..|xs[0]|] == xs[0]
  {
  }

  /** Cleaning a cleaned cell again changes nothing, unless the cell came out as the
      single entry "nan", which the second pass reads as no value. */
  lemma CleanAdditionalIdempotent(fixedPhone: string, additional: Cell)
    requires CleanAdditionalPhones(fixedPhone, additional) != "nan"
    ensures var r := CleanAdditionalPhones(fixedPhone, additional);
            CleanAdditionalPhones(fixedPhone, Text(r)) == r
  {
    var r := CleanAdditionalPhones(fixedPhone, additional);
    if r != "" {
      var pieces := Split(Strip(Str(additional)), ',');
      var main := Strip(fixedPhone);
      var kept := KeepOthers(FixPieces(pieces), main);
      assert kept == KeptPhones(fixedPhone, additional);
      assert r == Join(kept, ", ");
      KeptPhonesClean(pieces, main);
      KeepOthersSpec(FixPieces(pieces), main);
      FixPiecesFixed(pieces);
      KeptFixed(FixPieces(pieces), main);
      JoinRoundTrip(kept);
      ReadBack(r, kept, fixedPhone);
    }
  }

  /** `add_plus1` leaves `p` as it is. */
  predicate IsFixed(p: string) { AddPlus1(Text(p)) == p }

  lemma {:induction false} FixPiecesFixed(pieces: seq<string>)
    ensures forall k :: 0 <= k < |FixPieces(pieces)| ==> IsFixed(FixPieces(pieces)[k])
  {
    if pieces != [] {
      FixPiecesFixed(pieces[1..]);
      AddPlus1Idempotent(Text(Strip(pieces[0])));
    }
  }

  lemma {:induction false} KeptFixed(phones: seq<string>, mainPhone: string)
    requires forall k :: 0 <= k < |phones| ==> IsFixed(phones[k])
    ensures forall k :: 0 <= k < |KeepOthers(phones, mainPhone)| ==> IsFixed(KeepOthers(phones, mainPhone)[k])
  {
    if phones != [] {
      KeptFixed(phones[1..], mainPhone);
    }
  }

  /** A cell holding kept phones, read again, keeps the same phones. */
  lemma ReadBack(r: string, kept: seq<string>, fixedPhone: string)
    requires r != "" && r != "nan" && IsStripped(r) && r == Join(kept, ", ")
    requires StripAll(Split(r, ',')) == kept
    requires forall k :: 0 <= k < |kept| ==> IsFixed(kept[k])
    requires forall p :: p in kept ==> p != "" && p != Strip(fixedPhone)
    ensures CleanAdditionalPhones(fixedPhone, Text(r)) == r
  {
    StrippedFixed(r);
    assert Strip(Str(Text(r))) == r;
    assert !NoAdditional(Text(r));
    var pieces := Split(r, ',');
    FixStripped(pieces, kept);
    KeepAgain(kept, Strip(fixedPhone));
    assert KeptPhones(fixedPhone, Text(r)) == kept;
  }

  /** Stripped non-empty pieces joined with ", " give a stripped string. */
  lemma {:induction false} JoinStripped(xs: seq<string>)
    requires xs != []
    requires forall k :: 0 <= k < |xs| ==> xs[k] != "" && IsStripped(xs[k])
    ensures IsStripped(Join(xs, ", "))
  {
    JoinHead(xs);
    if |xs| > 1 {
      JoinStripped(xs[1..]);
      var rest := Join(xs[1..], ", ");
      assert Join(xs, ", ") == xs[0] + ", " + rest;
      JoinHead(xs[1..]);
    }
  }

  /** Fixing pieces that strip to phones `add_plus1` already fixed gives those phones. */
  lemma {:induction false} FixStripped(pieces: seq<string>, phones: seq<string>)
    requires StripAll(pieces) == phones
    requires forall k :: 0 <= k < |phones| ==> IsFixed(phones[k])
    ensures FixPieces(pieces) == phones
  {
    if pieces != [] {
      assert StripAll(pieces) == [Strip(pieces[0])] + StripAll(pieces[1..]);
      assert Strip(pieces[0]) == phones[0] && StripAll(pieces[1..]) == phones[1..];
      assert IsFixed(phones[0]);
      FixStripped(pieces[1..], phones[1..]);
    }
  }

  /** Filtering the kept phones again keeps them all. */
  lemma {:induction false} KeepAgain(kept: seq<string>, mainPhone: string)
    requires forall p :: p in kept ==> p != "" && p != mainPhone
    ensures KeepOthers(kept, mainPhone) == kept
  {
    if kept != [] {
      assert forall p :: p in kept[1..] ==> p in kept;
      assert kept[0] in kept;
      KeepAgain(kept[1..], mainPhone);
    }
  }

  /** An Additional Phones cell holding just the main phone is cleared. */
  lemma MainOnlyCleared(p: string)
    requires CleanEntry(p) && IsFixed(p) && p != "nan"
    ensures CleanAdditionalPhones(p, Text(p)) == ""
  {
    StrippedFixed(p);
    assert Strip(Str(Text(p))) == p;
    SplitNoSep(p, ',');
    assert FixPieces([p]) == [p];
    assert KeepOthers([p], p) == [];
    assert KeptPhones(p, Text(p)) == [];
  }

  /** `[e.strip() for e in pieces if e.strip()]` */
  function NonBlankStripped(pieces: seq<string>): (r: seq<string>)
    ensures |r| <= |pieces|
    ensures forall k :: 0 <= k < |r| ==> r[k] != ""
  {
    if pieces == [] then []
    else
      var e := Strip(pieces[0]);
      var rest := NonBlankStripped(pieces[1..]);
      if e != "" then [e] + rest else rest
  }

  /** The stripped non-blank entries of an email cell. */
  function EmailPieces(email: Cell): seq<string> {
    NonBlankStripped(Split(Str(email), ','))
  }

  /** Lines 86-97, `split_emails`: NaN and "" give ("", ""); otherwise the first
      non-blank stripped comma-separated entry and the others joined with ", ". */
  function SplitEmails(email: Cell): (r: (string, string))
    ensures email.Missing? || email.s == "" ==> r == ("", "")
    ensures r.0 == "" ==> r.1 == ""
  {
    if email.Missing? || email.s == "" then ("", "")
    else
      var emails := EmailPieces(email);
      if emails == [] then ("", "")
      else if |emails| == 1 then (emails[0], "")
      else (emails[0], Join(emails[1..], ", "))
  }

  /** The kept entries are non-empty, stripped and free of commas. */
  lemma {:induction false} NonBlankClean(pieces: seq<string>)
    requires forall k :: 0 <= k < |pieces| ==> ',' !in pieces[k]
    ensures forall k :: 0 <= k < |NonBlankStripped(pieces)| ==>
              var e := NonBlankStripped(pieces)[k];
              e != "" && ',' !in e && IsStripped(e)
  {
    if pieces != [] {
      NonBlankClean(pieces[1..]);
      StripSpec(pieces[0]);
      StripIsSlice(pieces[0]);
    }
  }

  /** Reading the two email cells back gives the entries of the original cell: the first
      email is the first entry and the additional cell, split on ',' and stripped, holds
      the rest; the first email is "" exactly when the cell has no entry. */
  lemma SplitEmailsRejoin(email: Cell)
    requires email.Text? && email.s != ""
    ensures var r := SplitEmails(email);
            var emails := EmailPieces(email);
            && (r.0 == "" <==> emails == [])
            && (r.0 != "" ==> emails[0] == r.0)
            && (r.1 == "" <==> |emails| <= 1)
            && (r.1 != "" ==> StripAll(Split(r.1, ',')) == emails[1..])
  {
    var emails := EmailPieces(email);
    NonBlankClean(Split(Str(email), ','));
    if |emails| > 1 {
      JoinSplit(emails[1..], ',');
      JoinHead(emails[1..]);
    }
  }

  /** The entries of an email cell are the non-blank stripped pieces: a subsequence of
      the stripped comma-separated pieces that leaves out only blank ones. */
  lemma {:induction false} NonBlankSpec(pieces: seq<string>)
    ensures IsSubsequence(NonBlankStripped(pieces), StripAll(pieces))
    ensures forall e :: e != "" ==> multiset(NonBlankStripped(pieces))[e] == multiset(StripAll(pieces))[e]
    ensures "" !in NonBlankStripped(pieces)
  {
    if pieces != [] {
      NonBlankSpec(pieces[1..]);
      var all := StripAll(pieces);
      assert all == [all[0]] + all[1..];
      SubsequenceOfTail(NonBlankStripped(pieces[1..]), all);
    }
  }

  /** The columns of a fixed CSV that the fixer touches; `None` is a column the file
      lacks. Every present column has one cell per row. */
  datatype Sheet = Sheet(
    phone: Option<seq<Cell>>,
    additionalPhones: Option<seq<Cell>>,
    email: Option<seq<Cell>>,
    additionalEmails: Option<seq<Cell>>)

  predicate HasRows(col: Option<seq<Cell>>, n: nat) { col.None? || |col.value| == n }

  predicate Rectangular(sheet: Sheet, n: nat) {
    HasRows(sheet.phone, n) && HasRows(sheet.additionalPhones, n)
    && HasRows(sheet.email, n) && HasRows(sheet.additionalEmails, n)
  }

  /** Line 63: `df['Phone'].apply(add_plus1)` */
  function FixPhoneColumn(col: seq<Cell>): (r: seq<Cell>)
    ensures |r| == |col|
  {
    seq(|col|, i requires 0 <= i < |col| => Text(AddPlus1(col[i])))
  }

  /** Line 81: `clean_additional_phones` on each row, reading the fixed Phone. */
  function FixAdditionalColumn(phones: seq<Cell>, additional: seq<Cell>): (r: seq<Cell>)
    requires |phones| == |additional|
    ensures |r| == |additional|
  {
    seq(|additional|, i requires 0 <= i < |additional| => Text(CleanAdditionalPhones(Str(phones[i]), additional[i])))
  }

  /** Lines 101-103: the Email column replaced by the first emails, and the rest in a new
      Additional Emails column. */
  function SplitEmailColumn(col: seq<Cell>): (r: (seq<Cell>, seq<Cell>))
    ensures |r.0| == |col| && |r.1| == |col|
  {
    (seq(|col|, i requires 0 <= i < |col| => Text(SplitEmails(col[i]).0)),
     seq(|col|, i requires 0 <= i < |col| => Text(SplitEmails(col[i]).1)))
  }

  /** Lines 62-106 of `fix_csv`: the Phone column gets `+1`; Additional Phones is cleaned
      when there is a Phone column; Email is split unless Additional Emails already
      exists. */
  function FixSheet(sheet: Sheet, n: nat): (r: Sheet)
    requires Rectangular(sheet, n)
    ensures Rectangular(r, n)
    ensures sheet.additionalEmails.Some? ==> r.email == sheet.email && r.additionalEmails == sheet.additionalEmails
    ensures sheet.email.Some? ==> r.additionalEmails.Some?
    ensures sheet.phone.None? ==> r.phone.None? && r.additionalPhones == sheet.additionalPhones
  {
    var phone := if sheet.phone.Some? then Some(FixPhoneColumn(sheet.phone.value)) else None;
    var additional :=
      if sheet.additionalPhones.Some? && phone.Some?
      then Some(FixAdditionalColumn(phone.value, sheet.additionalPhones.value))
      else sheet.additionalPhones;
    if sheet.email.Some? && sheet.additionalEmails.None? then
      var split := SplitEmailColumn(sheet.email.value);
      Sheet(phone, additional, Some(split.0), Some(split.1))
    else
      Sheet(phone, additional, sheet.email, sheet.additionalEmails)
  }

  /** Running the fixer over its own output leaves the Phone, Email and Additional Emails
      columns as they are: the first run created Additional Emails, so the second skips
      the split. */
  lemma FixSheetTwice(sheet: Sheet, n: nat)
    requires Rectangular(sheet, n)
    ensures var once := FixSheet(sheet, n);
            var twice := FixSheet(once, n);
            twice.phone == once.phone && twice.email == once.email
            && twice.additionalEmails == once.additionalEmails
  {
    var once := FixSheet(sheet, n);
    if once.phone.Some? {
      var col := once.phone.value;
      forall i | 0 <= i < |col|
        ensures Text(AddPlus1(col[i])) == col[i]
      {
        AddPlus1Idempotent(sheet.phone.value[i]);
      }
      assert FixPhoneColumn(col) == col;
    }
  }
}
