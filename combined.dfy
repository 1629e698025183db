/** combined.py: merging the listings collected for several search keywords into one row
    per business name, before the rows are enriched. */
module Combined {
  import opened Strings
  import opened Cells
  import opened Ordering

  /** `series.dropna().astype(str).str.strip()` followed by `phones[phones != '']`: the
      stripped text of every non-missing cell, blanks left out. */
  function NonBlank(cells: seq<Cell>): (r: seq<string>)
    ensures |r| <= |cells|
    ensures forall k :: 0 <= k < |r| ==> r[k] != ""
  {
    if cells == [] then []
    else
      var rest := NonBlank(cells[1..]);
      match cells[0]
      case Missing => rest
      case Text(s) => if Strip(s) != "" then [Strip(s)] + rest else rest
  }

  /** What one cell contributes: its stripped text, unless it is missing or blank. */
  function CellValue(c: Cell): seq<string> {
    match c
    case Missing => []
    case Text(s) => if Strip(s) != "" then [Strip(s)] else []
  }

  /** The kept values follow the cells' order: a cell added at the end adds its value at
      the end. */
  lemma {:induction false} NonBlankSnoc(cells: seq<Cell>, c: Cell)
    ensures NonBlank(cells + [c]) == NonBlank(cells) + CellValue(c)
  {
    if cells == [] {
      assert [c][1..] == [];
    } else {
      assert (cells + [c])[1..] == cells[1..] + [c];
      NonBlankSnoc(cells[1..], c);
    }
  }

  /** Some non-missing cell strips to `x`. */
  predicate HoldsStripped(cells: seq<Cell>, x: string) {
    exists i :: 0 <= i < |cells| && cells[i].Text? && Strip(cells[i].s) == x
  }

  /** A value is kept exactly when some cell holds it after stripping. */
  lemma {:induction false} NonBlankMembers(cells: seq<Cell>, x: string)
    ensures x in NonBlank(cells) <==> x != "" && HoldsStripped(cells, x)
  {
    if cells != [] {
      NonBlankMembers(cells[1..], x);
      HoldsStrippedCons(cells, x);
    }
  }

  lemma HoldsStrippedCons(cells: seq<Cell>, x: string)
    requires cells != []
    ensures HoldsStripped(cells, x) <==>
              (cells[0].Text? && Strip(cells[0].s) == x) || HoldsStripped(cells[1..], x)
  {
    if HoldsStripped(cells[1..], x) {
      var i :| 0 <= i < |cells[1..]| && cells[1..][i].Text? && Strip(cells[1..][i].s) == x;
      assert cells[i + 1] == cells[1..][i];
    }
    if HoldsStripped(cells, x) {
      var i :| 0 <= i < |cells| && cells[i].Text? && Strip(cells[i].s) == x;
      if i > 0 {
        assert cells[1..][i - 1] == cells[i];
      }
    }
  }

  /** `Series.unique()`: each value once, in the order of first appearance, skipping the
      values in `seen`. */
  function UniqueFrom(xs: seq<string>, seen: set<string>): (r: seq<string>)
    ensures |r| <= |xs|
  {
    if xs == [] then []
    else if xs[0] in seen then UniqueFrom(xs[1..], seen)
    else [xs[0]] + UniqueFrom(xs[1..], seen + {xs[0]})
  }

  function Unique(xs: seq<string>): seq<string> { UniqueFrom(xs, {}) }

  /** What `UniqueFrom` keeps: the values not in `seen`, each exactly once. */
  lemma {:induction false} UniqueFromMembers(xs: seq<string>, seen: set<string>)
    ensures forall x :: x in UniqueFrom(xs, seen) <==> x in xs && x !in seen
    ensures forall j, k :: 0 <= j < k < |UniqueFrom(xs, seen)| ==> UniqueFrom(xs, seen)[j] != UniqueFrom(xs, seen)[k]
  {
    if xs != [] {
      if xs[0] in seen {
        UniqueFromMembers(xs[1..], seen);
      } else {
        var rest := UniqueFrom(xs[1..], seen + {xs[0]});
        UniqueFromMembers(xs[1..], seen + {xs[0]});
        assert UniqueFrom(xs, seen) == [xs[0]] + rest;
        forall j, k | 0 <= j < k < |[xs[0]] + rest|
          ensures ([xs[0]] + rest)[j] != ([xs[0]] + rest)[k]
        {
          if j == 0 {
            assert ([xs[0]] + rest)[k] == rest[k - 1];
          }
        }
      }
    }
  }

  /** Values already seen or met for the first time: the two ways to extend the input at
      the end. */
  lemma {:induction false} UniqueFromSnoc(xs: seq<string>, seen: set<string>, x: string)
    ensures UniqueFrom(xs + [x], seen) ==
              if x in xs || x in seen then UniqueFrom(xs, seen) else UniqueFrom(xs, seen) + [x]
  {
    if xs == [] {
      assert [] + [x] == [x];
      assert [x][1..] == [];
    } else {
      assert (xs + [x])[0] == xs[0] && (xs + [x])[1..] == xs[1..] + [x];
      var seen' := if xs[0] in seen then seen else seen + {xs[0]};
      UniqueFromSnoc(xs[1..], seen', x);
      assert x in xs <==> x == xs[0] || x in xs[1..] by {
        assert xs == [xs[0]] + xs[1..];
      }
    }
  }

  /** `unique` read from the end: a value is appended when it appears for the first time
      and skipped when it appeared before, so the result lists the distinct values in the
      order of their first appearance. */
  lemma UniqueSnoc(xs: seq<string>, x: string)
    ensures Unique(xs + [x]) == if x in xs then Unique(xs) else Unique(xs) + [x]
  {
    UniqueFromSnoc(xs, {}, x);
  }

  /** Lines 190-193, `join_phones`: the distinct non-blank stripped phones of a group,
      joined with "; ", or `None` when there are none. */
  function JoinPhones(phones: seq<Cell>): (r: Option<string>)
    ensures r.Some? ==> r.value != ""
  {
    var unique := Unique(NonBlank(phones));
    if |unique| > 0 then
      JoinNonEmpty(unique, "; ");
      Some(Join(unique, "; "))
    else None
  }

  /** `join_phones` gives `None` exactly when every phone of the group is missing or
      blank after stripping. */
  lemma JoinPhonesNone(phones: seq<Cell>)
    ensures JoinPhones(phones).None? <==>
              forall i :: 0 <= i < |phones| ==> phones[i].Missing? || Strip(phones[i].s) == ""
  {
    var values := NonBlank(phones);
    UniqueFromMembers(values, {});
    if values != [] {
      assert values[0] in Unique(values);
      NonBlankMembers(phones, values[0]);
    } else {
      forall i | 0 <= i < |phones| && phones[i].Text?
        ensures Strip(phones[i].s) == ""
      {
        NonBlankMembers(phones, Strip(phones[i].s));
      }
    }
  }

  /** The joined phones read back: split on ';' and stripped, the cell gives the distinct
      stripped phones of the group, none blank and none twice, when no phone holds ';'. */
  lemma JoinPhonesEntries(phones: seq<Cell>)
    requires forall i :: 0 <= i < |phones| && phones[i].Text? ==> ';' !in phones[i].s
    requires JoinPhones(phones).Some?
    ensures var entries := StripAll(Split(JoinPhones(phones).value, ';'));
            && (forall x :: x in entries <==>
                  x != "" && exists i :: 0 <= i < |phones| && phones[i].Text? && Strip(phones[i].s) == x)
            && (forall j, k :: 0 <= j < k < |entries| ==> entries[j] != entries[k])
    ensures StripAll(Split(JoinPhones(phones).value, ';')) == Unique(NonBlank(phones))
  {
    var values := NonBlank(phones);
    var unique := Unique(values);
    UniqueFromMembers(values, {});
    NonBlankClean(phones);
    assert forall k :: 0 <= k < |unique| ==> ';' !in unique[k] && IsStripped(unique[k]) by {
      forall k | 0 <= k < |unique| ensures ';' !in unique[k] && IsStripped(unique[k]) {
        assert unique[k] in values;
      }
    }
    JoinSplit(unique, ';');
    forall x ensures x in unique <==> x != "" && exists i :: 0 <= i < |phones| && phones[i].Text? && Strip(phones[i].s) == x {
      NonBlankMembers(phones, x);
    }
  }

  /** The kept values are stripped and, when no cell holds ';', free of it. */
  lemma {:induction false} NonBlankClean(cells: seq<Cell>)
    requires forall i :: 0 <= i < |cells| && cells[i].Text? ==> ';' !in cells[i].s
    ensures forall x :: x in NonBlank(cells) ==> ';' !in x && IsStripped(x)
  {
    if cells != [] {
      NonBlankClean(cells[1..]);
      if cells[0].Text? {
        StripSpec(cells[0].s);
        StripIsSlice(cells[0].s);
      }
    }
  }

  /** Two phones whose stripped texts differ are both kept, in order, however they are
      written: `join_phones` compares text, not numbers. */
  lemma DifferentSpellingsKept(a: string, b: string)
    requires Strip(a) != "" && Strip(b) != "" && Strip(a) != Strip(b)
    ensures JoinPhones([Text(a), Text(b)]) == Some(Strip(a) + "; " + Strip(b))
  {
    var x, y := Strip(a), Strip(b);
    assert NonBlank([Text(b)]) == [y];
    assert NonBlank([Text(a), Text(b)]) == [x, y];
    assert [y][1..] == [] && [x, y][1..] == [y];
    assert UniqueFrom([y], {} + {x}) == [y] + UniqueFrom([], {} + {x} + {y});
    assert Unique([x, y]) == [x, y];
    assert Join([x, y], "; ") == x + "; " + Join([y], "; ");
  }

  /** A listing as the scraper returns it; every field is a cell of the frame. */
  datatype Business = Business(
    name: Cell, address: Cell, website: Cell, phoneNumber: Cell,
    reviewsCount: Cell, reviewsAverage: Cell, latitude: Cell, longitude: Cell)

  /** One row of the merged frame. */
  datatype Merged = Merged(
    name: string, address: Cell, website: Cell, phoneNumber: Cell,
    reviewsCount: Cell, reviewsAverage: Cell, latitude: Cell, longitude: Cell)

  /** The pandas `first` aggregation: the first non-missing value of the group, missing
      when all are. */
  function First(cells: seq<Cell>): (r: Cell)
    ensures r.Missing? <==> forall i :: 0 <= i < |cells| ==> cells[i].Missing?
  {
    if cells == [] then Missing
    else if cells[0].Text? then cells[0]
    else
      var r := First(cells[1..]);
      assert forall i :: 1 <= i < |cells| ==> cells[i] == cells[1..][i - 1];
      r
  }

  /** `first` is the value at the earliest non-missing position. */
  lemma {:induction false} FirstIsEarliest(cells: seq<Cell>)
    requires exists i :: 0 <= i < |cells| && cells[i].Text?
    ensures exists i :: 0 <= i < |cells| && cells[i] == First(cells)
                        && forall j :: 0 <= j < i ==> cells[j].Missing?
  {
    if cells[0].Missing? {
      var i :| 0 <= i < |cells| && cells[i].Text?;
      assert cells[1..][i - 1] == cells[i];
      FirstIsEarliest(cells[1..]);
      var k :| 0 <= k < |cells[1..]| && cells[1..][k] == First(cells[1..])
               && forall j :: 0 <= j < k ==> cells[1..][j].Missing?;
      assert cells[k + 1] == First(cells);
      forall j | 0 <= j < k + 1 ensures cells[j].Missing? {
        if j > 0 {
          assert cells[j] == cells[1..][j - 1];
        }
      }
    }
  }

  /** The names `groupby` forms groups for: names that are NaN are dropped. */
  function Names(rows: seq<Business>): (r: seq<string>)
    ensures forall n :: n in r <==> exists i :: 0 <= i < |rows| && rows[i].name == Text(n)
  {
    if rows == [] then []
    else
      var rest := Names(rows[1..]);
      assert forall i :: 1 <= i < |rows| ==> rows[i] == rows[1..][i - 1];
      if rows[0].name.Text? then [rows[0].name.s] + rest else rest
  }

  /** The rows named `name`, in their original order. */
  function Group(rows: seq<Business>, name: string): (r: seq<Business>)
    ensures forall b :: b in r ==> b.name == Text(name)
  {
    if rows == [] then []
    else if rows[0].name == Text(name) then [rows[0]] + Group(rows[1..], name)
    else Group(rows[1..], name)
  }

  /** Lines 195-203: the group's row — `first` of every field and `join_phones` of the
      phone numbers. */
  function MergeGroup(name: string, group: seq<Business>): (r: Merged)
    ensures r.name == name
    ensures r.phoneNumber.Missing? <==>
              forall i :: 0 <= i < |group| ==> group[i].phoneNumber.Missing? || Strip(group[i].phoneNumber.s) == ""
    ensures r.website.Missing? <==> forall i :: 0 <= i < |group| ==> group[i].website.Missing?
  {
    var phoneCells := seq(|group|, i requires 0 <= i < |group| => group[i].phoneNumber);
    var websites := seq(|group|, i requires 0 <= i < |group| => group[i].website);
    JoinPhonesNone(phoneCells);
    assert forall i :: 0 <= i < |group| ==> phoneCells[i] == group[i].phoneNumber;
    assert forall i :: 0 <= i < |group| ==> websites[i] == group[i].website;
    var phones := JoinPhones(phoneCells);
    Merged(
      name,
      First(seq(|group|, i requires 0 <= i < |group| => group[i].address)),
      First(websites),
      if phones.Some? then Text(phones.value) else Missing,
      First(seq(|group|, i requires 0 <= i < |group| => group[i].reviewsCount)),
      First(seq(|group|, i requires 0 <= i < |group| => group[i].reviewsAverage)),
      First(seq(|group|, i requires 0 <= i < |group| => group[i].latitude)),
      First(seq(|group|, i requires 0 <= i < |group| => group[i].longitude)))
  }

  /** Lines 195-203, `df.groupby('name').agg(...).reset_index()`: one row per distinct
      name, in sorted name order. */
  function GroupByName(rows: seq<Business>): (r: seq<Merged>)
    ensures |r| == |SortUnique(Names(rows))|
  {
    var keys := SortUnique(Names(rows));
    seq(|keys|, i requires 0 <= i < |keys| => MergeGroup(keys[i], Group(rows, keys[i])))
  }

  /** The merged frame has exactly one row per distinct name: the names are strictly
      increasing, hence distinct, and they are the names of the input's rows. Each row
      merges exactly the input rows carrying its name, and no group is empty. */
  lemma GroupByNameRows(rows: seq<Business>)
    ensures var r := GroupByName(rows);
            && (forall j, k :: 0 <= j < k < |r| ==> Less(r[j].name, r[k].name))
            && (forall n :: (exists k :: 0 <= k < |r| && r[k].name == n) <==>
                  (exists i :: 0 <= i < |rows| && rows[i].name == Text(n)))
            && (forall k :: 0 <= k < |r| ==> r[k] == MergeGroup(r[k].name, Group(rows, r[k].name)))
            && (forall k :: 0 <= k < |r| ==> Group(rows, r[k].name) != [])
  {
    var keys := SortUnique(Names(rows));
    var r := GroupByName(rows);
    assert forall k :: 0 <= k < |r| ==> r[k].name == keys[k];
    forall n | exists i :: 0 <= i < |rows| && rows[i].name == Text(n)
      ensures exists k :: 0 <= k < |r| && r[k].name == n
    {
      assert n in keys;
      var k :| 0 <= k < |keys| && keys[k] == n;
      assert r[k].name == n;
    }
    forall k | 0 <= k < |r| ensures Group(rows, r[k].name) != [] {
      assert keys[k] in keys;
      var i :| 0 <= i < |rows| && rows[i].name == Text(keys[k]);
      GroupHas(rows, keys[k], i);
    }
  }

  /** A row carrying the name is in its group. */
  lemma {:induction false} GroupHas(rows: seq<Business>, name: string, i: nat)
    requires i < |rows| && rows[i].name == Text(name)
    ensures rows[i] in Group(rows, name)
  {
    if i > 0 && rows[0].name != Text(name) {
      assert rows[1..][i - 1] == rows[i];
      GroupHas(rows[1..], name, i - 1);
    } else if i > 0 {
      assert rows[1..][i - 1] == rows[i];
      GroupHas(rows[1..], name, i - 1);
    }
  }
}
