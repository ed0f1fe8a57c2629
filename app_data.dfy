/** The enrollment-table loader of `app_data.py`: which columns are grade
    columns, the derived Total Male / Total Female / Total Enrollment
    columns, the grade and region dropdown options, the left join with the
    school registry, the school lookup by name and the in-place "N/A"
    sanitizer. Files are passed in as a map from path to table. */
module AppData {

  import opened Wrappers
  import opened Strings
  import opened Seqs
  import opened Frame

  const SchoolsPath: string := "data_files/schools.csv"
  const SchoolIdColumn: string := "BEIS School ID"
  const RegionColumn: string := "Region"
  const SchoolNameColumn: string := "School Name"

  /** The canonical geographic order of the regions. */
  const RegionOrder: seq<string> := [
    "CAR", "NCR", "Region I", "Region II", "Region III", "Region IV-A",
    "MIMAROPA", "Region V", "Region VI", "Region VII", "Region VIII",
    "Region IX", "Region X", "Region XI", "Region XII", "CARAGA", "BARMM"
  ]

  /** The per-year enrollment file. */
  function DataPath(schoolYear: string): string {
    "data_files/data_" + schoolYear + ".csv"
  }

  /** A dropdown entry. */
  datatype Choice = Choice(caption: string, value: string)

  function ChoiceValues(cs: seq<Choice>): (r: seq<string>)
    ensures |r| == |cs| && forall i :: 0 <= i < |cs| ==> r[i] == cs[i].value
  {
    if cs == [] then [] else [cs[0].value] + ChoiceValues(cs[1..])
  }

  // ------------------------------------------------------------ grade columns

  /** The alternatives of the grade-column pattern, in pattern order. */
  const GradeAlternatives: seq<string> := [
    "K", "G1", "G2", "G3", "G4", "G5", "G6", "G7", "G8", "G9",
    "G10", "G11", "G12", "Elem NG", "JHS NG"
  ]

  /** One alternative matches at the start of the name; "G1" only when no
      digit follows it (the pattern's negative lookahead). */
  predicate MatchesAlternative(col: string, alt: string) {
    alt <= col && (alt == "G1" ==> |col| == 2 || !IsDigit(col[2]))
  }

  /** The grade-column pattern, anchored at the start of the name. */
  predicate IsGradeColumn(col: string) {
    exists i :: 0 <= i < |GradeAlternatives| && MatchesAlternative(col, GradeAlternatives[i])
  }

  /** The grade columns of a table, in column order. */
  function GradeColumns(columns: seq<string>): (r: seq<string>)
    ensures forall c :: c in r <==> c in columns && IsGradeColumn(c)
  {
    if columns == [] then []
    else (if IsGradeColumn(columns[0]) then [columns[0]] else []) + GradeColumns(columns[1..])
  }

  /** A name that does not start with K, G, E or J is no grade column: the
      derived columns ("Total Male", "Selected Grades Total", ...) never are. */
  lemma NotGradeColumn(col: string)
    requires col != [] && col[0] != 'K' && col[0] != 'G' && col[0] != 'E' && col[0] != 'J'
    ensures !IsGradeColumn(col)
  {
    forall i | 0 <= i < |GradeAlternatives| ensures !MatchesAlternative(col, GradeAlternatives[i]) {
      var alt := GradeAlternatives[i];
      assert alt[0] == 'K' || alt[0] == 'G' || alt[0] == 'E' || alt[0] == 'J';
    }
  }

  /** A name starting "G1" and a digit is a grade column exactly when it
      starts G10, G11 or G12: the G1 alternative never matches through the
      first two characters of a two-digit grade, and G13..G19 match nothing. */
  lemma TwoDigitGradesAfterG1(col: string)
    requires "G1" <= col && |col| > 2 && IsDigit(col[2])
    ensures IsGradeColumn(col) <==> col[2] == '0' || col[2] == '1' || col[2] == '2'
  {
    assert col[0] == 'G' && col[1] == '1';
    if col[2] == '0' { assert MatchesAlternative(col, GradeAlternatives[10]); }
    if col[2] == '1' { assert MatchesAlternative(col, GradeAlternatives[11]); }
    if col[2] == '2' { assert MatchesAlternative(col, GradeAlternatives[12]); }
    if IsGradeColumn(col) {
      var i :| 0 <= i < |GradeAlternatives| && MatchesAlternative(col, GradeAlternatives[i]);
      var alt := GradeAlternatives[i];
      assert alt[0] == col[0] && (|alt| > 1 ==> alt[1] == col[1]);
      assert 10 <= i <= 12;
      assert alt[2] == col[2];
    }
  }

  /** The canonical grade keys, in teaching order. */
  const GradeOrder: seq<string> := [
    "K", "G1", "G2", "G3", "G4", "G5", "G6", "Elem NG",
    "G7", "G8", "G9", "G10", "JHS NG", "G11", "G12"
  ]

  /** Every column of the fixed schema, "{grade} {rest}", is a grade column. */
  lemma SchemaColumnsAreGradeColumns(g: string, rest: string)
    requires g in GradeOrder
    ensures IsGradeColumn(g + " " + rest)
  {
    var col := g + " " + rest;
    assert g <= col;
    assert g in GradeAlternatives;
    var i :| 0 <= i < |GradeAlternatives| && GradeAlternatives[i] == g;
    if g == "G1" {
      assert col[2] == ' ';
    }
    assert MatchesAlternative(col, GradeAlternatives[i]);
  }

  // ------------------------------------------------------------ totals

  /** Total Male: the grade columns naming "Male" (case-sensitive, so not the
      "Female" ones), summed with "N/A" and junk as 0. */
  function TotalMale(row: Row, gradeCols: seq<string>): int {
    RowSum(row, ColumnsContaining(gradeCols, "Male"))
  }

  function TotalFemale(row: Row, gradeCols: seq<string>): int {
    RowSum(row, ColumnsContaining(gradeCols, "Female"))
  }

  /** A row with the three derived columns written into it. */
  function WithTotals(row: Row, gradeCols: seq<string>): Row {
    var male := TotalMale(row, gradeCols);
    var female := TotalFemale(row, gradeCols);
    row["Total Male" := Num(male)]["Total Female" := Num(female)]["Total Enrollment" := Num(male + female)]
  }

  /** The three derived cells hold the totals; every other cell is kept. */
  lemma WithTotalsCells(row: Row, gradeCols: seq<string>)
    ensures var r := WithTotals(row, gradeCols);
      && CellAt(r, "Total Male") == Num(TotalMale(row, gradeCols))
      && CellAt(r, "Total Female") == Num(TotalFemale(row, gradeCols))
      && CellAt(r, "Total Enrollment") == Num(TotalMale(row, gradeCols) + TotalFemale(row, gradeCols))
      && forall c :: c !in TotalColumns ==> CellAt(r, c) == CellAt(row, c)
  {
  }

  /** The row's Total Enrollment cell is its Male plus its Female grade sum. */
  predicate HasTotals(row: Row, gradeCols: seq<string>) {
    CellAt(row, "Total Enrollment") == Num(TotalMale(row, gradeCols) + TotalFemale(row, gradeCols))
  }

  function TotalsRows(rows: seq<Row>, gradeCols: seq<string>): (r: seq<Row>)
    ensures |r| == |rows| && forall i :: 0 <= i < |rows| ==> r[i] == WithTotals(rows[i], gradeCols)
  {
    if rows == [] then [] else [WithTotals(rows[0], gradeCols)] + TotalsRows(rows[1..], gradeCols)
  }

  /** The columns of `extra` not already in `columns`, appended in order
      (assigning a new column appends it; an existing one keeps its place). */
  function AddColumns(columns: seq<string>, extra: seq<string>): (r: seq<string>)
    decreases |extra|
    ensures forall c :: c in r <==> c in columns || c in extra
    ensures columns <= r
  {
    if extra == [] then columns
    else AddColumns(if extra[0] in columns then columns else columns + [extra[0]], extra[1..])
  }

  const TotalColumns: seq<string> := ["Total Male", "Total Female", "Total Enrollment"]

  // ------------------------------------------------------------ grade options

  /** The key a grade column is listed under: K, "G" and one or two digits,
      "Elem NG" or "JHS NG" (the second pattern in the loader). */
  function GradeKeyOf(col: string): Option<string> {
    if "K" <= col then Some("K")
    else if |col| >= 2 && col[0] == 'G' && IsDigit(col[1]) then
      if |col| >= 3 && IsDigit(col[2]) then Some(col[..3]) else Some(col[..2])
    else if "Elem NG" <= col then Some("Elem NG")
    else if "JHS NG" <= col then Some("JHS NG")
    else None
  }

  /** Every grade column has a key. */
  lemma GradeColumnHasKey(col: string)
    requires IsGradeColumn(col)
    ensures GradeKeyOf(col).Some?
  {
    var i :| 0 <= i < |GradeAlternatives| && MatchesAlternative(col, GradeAlternatives[i]);
    var alt := GradeAlternatives[i];
    assert alt[0] == col[0];
    if 1 <= i <= 12 {
      assert alt[1] == col[1];
    }
  }

  /** A schema column "{grade} {rest}" is listed under its own grade. */
  lemma SchemaColumnKey(g: string, rest: string)
    requires g in GradeOrder
    ensures GradeKeyOf(g + " " + rest) == Some(g)
  {
    var col := g + " " + rest;
    assert g <= col;
    assert col[|g|] == ' ';
    if g == "G10" || g == "G11" || g == "G12" {
      assert col[0] == g[0] && col[1] == g[1] && col[2] == g[2];
      assert col[..3] == g;
    } else if |g| == 2 && g != "G1" {
      assert col[0] == g[0] && col[1] == g[1];
      assert col[..2] == g;
    } else if g == "G1" {
      assert col[0] == 'G' && col[1] == '1' && col[2] == ' ';
      assert col[..2] == g;
    } else {
      assert col[0] == g[0];
    }
  }

  /** The keys of the grade columns, one per column, in column order. */
  function GradeKeyList(gradeCols: seq<string>): (r: seq<string>)
    ensures forall k :: k in r <==> exists c :: c in gradeCols && GradeKeyOf(c) == Some(k)
  {
    if gradeCols == [] then []
    else
      var rest := GradeKeyList(gradeCols[1..]);
      var head := match GradeKeyOf(gradeCols[0]) case Some(k) => [k] case None => [];
      assert forall k :: k in head + rest <==> exists c :: c in gradeCols && GradeKeyOf(c) == Some(k) by {
        forall k ensures k in head + rest <==> exists c :: c in gradeCols && GradeKeyOf(c) == Some(k) {
          if exists c :: c in gradeCols && GradeKeyOf(c) == Some(k) {
            var c :| c in gradeCols && GradeKeyOf(c) == Some(k);
            if c != gradeCols[0] { assert c in gradeCols[1..]; }
          }
          if k in rest {
            var c :| c in gradeCols[1..] && GradeKeyOf(c) == Some(k);
            assert c in gradeCols;
          }
        }
      }
      head + rest
  }

  /** The loader's rank table: each canonical key's place in the teaching order. */
  const GradeSortOrder: map<string, int> := map[
    "K" := 0, "G1" := 1, "G2" := 2, "G3" := 3, "G4" := 4, "G5" := 5, "G6" := 6,
    "Elem NG" := 7, "G7" := 8, "G8" := 9, "G9" := 10, "G10" := 11, "JHS NG" := 12,
    "G11" := 13, "G12" := 14
  ]

  /** A key's place in the teaching order; unknown keys go last (100). */
  function GradeRank(g: string): (r: int)
    ensures 0 <= r
  {
    var p := IndexOf(GradeOrder, g);
    if p < |GradeOrder| then p else 100
  }

  lemma SortOrderAt(i: int)
    requires 0 <= i < |GradeOrder|
    ensures GradeOrder[i] in GradeSortOrder && GradeSortOrder[GradeOrder[i]] == i
  {
    if i == 0 {} else if i == 1 {} else if i == 2 {} else if i == 3 {} else if i == 4 {}
    else if i == 5 {} else if i == 6 {} else if i == 7 {} else if i == 8 {} else if i == 9 {}
    else if i == 10 {} else if i == 11 {} else if i == 12 {} else if i == 13 {} else {}
  }

  lemma SortOrderKeys()
    ensures forall g :: g in GradeSortOrder ==> g in GradeOrder
  {
  }

  /** The canonical keys are distinct, so each one's rank is its position. */
  lemma GradeRankOfOrder()
    ensures NoDup(GradeOrder)
    ensures forall i :: 0 <= i < |GradeOrder| ==> GradeRank(GradeOrder[i]) == i
  {
    forall i, j | 0 <= i < j < |GradeOrder| ensures GradeOrder[i] != GradeOrder[j] {
      SortOrderAt(i);
      SortOrderAt(j);
    }
  }

  /** The rank is the loader's rank table entry, or 100 for a key it lacks. */
  lemma GradeRankIsSortOrder(g: string)
    ensures GradeRank(g) == if g in GradeSortOrder then GradeSortOrder[g] else 100
  {
    SortOrderKeys();
    if g in GradeOrder {
      GradeRankOfOrder();
      SortOrderAt(IndexOf(GradeOrder, g));
    }
  }

  predicate RankLess(a: string, b: string) {
    GradeRank(a) < GradeRank(b)
  }

  lemma RankLessIsStrictWeak()
    ensures StrictWeakOrder(RankLess)
  {
  }

  /** Ranks never decrease along `keys`. */
  ghost predicate InTeachingOrder(keys: seq<string>) {
    RankOrdered(keys, GradeRank)
  }

  /** `sorted(set(keys))`, then sorted again by teaching order (a stable sort). */
  function GradeKeys(gradeCols: seq<string>): seq<string> {
    SortBy(SortBy(Dedup(GradeKeyList(gradeCols)), LexLess), RankLess)
  }

  /** The sorted keys are the distinct keys present, in teaching order. */
  lemma GradeKeysOrdered(gradeCols: seq<string>)
    ensures var keys := GradeKeys(gradeCols);
      && NoDup(keys)
      && (forall k :: k in keys <==> k in GradeKeyList(gradeCols))
      && InTeachingOrder(keys)
  {
    var d := Dedup(GradeKeyList(gradeCols));
    var lex := SortBy(d, LexLess);
    var keys := SortBy(lex, RankLess);
    NoDupPermutation(d, keys);
    assert forall k :: k in keys <==> k in multiset(d);
    RankLessIsStrictWeak();
    SortBySorted(lex, RankLess);
  }

  /** The keys other than K, in order. */
  function WithoutKinder(keys: seq<string>): (r: seq<string>)
    ensures forall k :: k in r <==> k in keys && k != "K"
  {
    if keys == [] then []
    else (if keys[0] != "K" then [keys[0]] else []) + WithoutKinder(keys[1..])
  }

  /** Leaving K out keeps the keys distinct and in the order of any rank. */
  lemma {:induction false} WithoutKinderOrdered(keys: seq<string>, rank: string -> int)
    requires NoDup(keys) && RankOrdered(keys, rank)
    ensures NoDup(WithoutKinder(keys)) && RankOrdered(WithoutKinder(keys), rank)
  {
    if keys != [] {
      NoDupTail(keys);
      RankOrderedTail(keys, rank);
      WithoutKinderOrdered(keys[1..], rank);
      if keys[0] != "K" {
        var t := WithoutKinder(keys[1..]);
        NoDupCons(keys[0], t);
        ConsRankOrdered(keys[0], t, rank);
      }
    }
  }

  /** "Grade N" for a key "GN", the key itself otherwise. */
  function GradeChoice(g: string): Choice {
    if "G" <= g then Choice("Grade " + g[1..], g) else Choice(g, g)
  }

  function GradeChoices(keys: seq<string>): (r: seq<Choice>)
    ensures ChoiceValues(r) == keys
    ensures forall i :: 0 <= i < |r| ==> r[i] == GradeChoice(keys[i])
  {
    if keys == [] then [] else [GradeChoice(keys[0])] + GradeChoices(keys[1..])
  }

  /** The grade dropdown: Kinder first, then every other key in order. */
  function GradeOptions(gradeCols: seq<string>): seq<Choice> {
    [Choice("Kinder", "K")] + GradeChoices(WithoutKinder(GradeKeys(gradeCols)))
  }

  /** The grade options start with Kinder, list each key present exactly
      once, follow the teaching order, label "GN" as "Grade N" and label
      the other keys ("Elem NG", "JHS NG") by the key itself. */
  lemma GradeOptionsInTeachingOrder(gradeCols: seq<string>)
    ensures var opts := GradeOptions(gradeCols);
      var vals := ChoiceValues(opts);
      && opts[0] == Choice("Kinder", "K")
      && NoDup(vals)
      && (forall v :: v in vals <==> v == "K" || v in GradeKeyList(gradeCols))
      && InTeachingOrder(vals)
      && (forall i :: 1 <= i < |opts| && "G" <= opts[i].value ==> opts[i].caption == "Grade " + opts[i].value[1..])
      && (forall i :: 1 <= i < |opts| && !("G" <= opts[i].value) ==> opts[i].caption == opts[i].value)
  {
    var keys := GradeKeys(gradeCols);
    GradeKeysOrdered(gradeCols);
    WithoutKinderOrdered(keys, GradeRank);
    var rest := WithoutKinder(keys);
    var opts := GradeOptions(gradeCols);
    var tail := GradeChoices(rest);
    var vals := ChoiceValues(opts);
    assert vals == ["K"] + rest by {
      assert vals == ChoiceValues([Choice("Kinder", "K")] + tail);
      assert ChoiceValues([Choice("Kinder", "K")] + tail)[1..] == ChoiceValues(tail);
    }
    NoDupCons("K", rest);
    GradeRankOfOrder();
    assert GradeOrder[0] == "K";
    ConsRankOrdered("K", rest, GradeRank);
    GradeOptionLabels(gradeCols);
  }

  /** Every entry after Kinder is labelled by the rule for its key. */
  lemma GradeOptionLabels(gradeCols: seq<string>)
    ensures var opts := GradeOptions(gradeCols);
      && (forall i :: 1 <= i < |opts| && "G" <= opts[i].value ==> opts[i].caption == "Grade " + opts[i].value[1..])
      && (forall i :: 1 <= i < |opts| && !("G" <= opts[i].value) ==> opts[i].caption == opts[i].value)
  {
    KinderThenLabels(WithoutKinder(GradeKeys(gradeCols)));
  }

  lemma KinderThenLabels(rest: seq<string>)
    ensures var opts := [Choice("Kinder", "K")] + GradeChoices(rest);
      forall i :: 1 <= i < |opts| ==> opts[i] == GradeChoice(opts[i].value)
  {
    var tail := GradeChoices(rest);
    var opts := [Choice("Kinder", "K")] + tail;
    forall i | 1 <= i < |opts| ensures opts[i] == GradeChoice(opts[i].value) {
      assert opts[i] == tail[i - 1];
      assert ChoiceValues(tail)[i - 1] == tail[i - 1].value;
    }
  }


  /** When the columns cover exactly the canonical grades, the grade
      options are those grades in teaching order, Kinder first. */
  lemma CanonicalGradeOptions(gradeCols: seq<string>)
    requires forall k :: k in GradeKeyList(gradeCols) <==> k in GradeOrder
    ensures ChoiceValues(GradeOptions(gradeCols)) == GradeOrder
  {
    GradeOptionsInTeachingOrder(gradeCols);
    GradeRankOfOrder();
    var vals := ChoiceValues(GradeOptions(gradeCols));
    assert "K" in GradeOrder;
    RankedPermutationIsOrder(vals, GradeOrder, GradeRank);
  }

  // ------------------------------------------------------------ region options

  /** Some row's Region is `r`. */
  predicate HasRegion(rows: seq<Row>, r: string) {
    exists i :: 0 <= i < |rows| && CellAt(rows[i], RegionColumn) == Text(r)
  }

  /** `[r for r in order if r in regions present]`. */
  function RegionsPresent(order: seq<string>, rows: seq<Row>): (r: seq<string>)
    ensures forall x :: x in r <==> x in order && HasRegion(rows, x)
  {
    if order == [] then []
    else (if HasRegion(rows, order[0]) then [order[0]] else []) + RegionsPresent(order[1..], rows)
  }

  /** The region dropdown: the regions present, in canonical order. */
  function RegionOptions(rows: seq<Row>): seq<Choice> {
    RegionChoices(RegionsPresent(RegionOrder, rows))
  }

  function RegionChoices(regions: seq<string>): (r: seq<Choice>)
    ensures ChoiceValues(r) == regions
    ensures forall i :: 0 <= i < |r| ==> r[i].caption == r[i].value
  {
    if regions == [] then [] else [Choice(regions[0], regions[0])] + RegionChoices(regions[1..])
  }

  /** The entries for a list of regions are exactly those that name one of
      them and carry it as their label too. */
  lemma RegionChoicesMembers(regions: seq<string>)
    ensures forall c :: c in RegionChoices(regions) <==> c.value in regions && c.caption == c.value
  {
    var r := RegionChoices(regions);
    forall c ensures c in r <==> c.value in regions && c.caption == c.value {
      if c in r {
        var i :| 0 <= i < |r| && r[i] == c;
        assert ChoiceValues(r)[i] == c.value;
      }
      if c.value in regions && c.caption == c.value {
        var j :| 0 <= j < |regions| && regions[j] == c.value;
        assert ChoiceValues(r)[j] == r[j].value;
        assert r[j] == c;
      }
    }
  }

  /** `a` is `b` with some elements left out. */
  ghost predicate IsSubsequence<T>(a: seq<T>, b: seq<T>)
    decreases |b|
  {
    a == [] || (b != [] && if a[0] == b[0] then IsSubsequence(a[1..], b[1..]) else IsSubsequence(a, b[1..]))
  }

  lemma {:induction false} RegionsPresentIsSubsequence(order: seq<string>, rows: seq<Row>)
    requires NoDup(order)
    ensures IsSubsequence(RegionsPresent(order, rows), order)
  {
    if order != [] {
      var rest := order[1..];
      assert NoDup(rest) by {
        forall i, j | 0 <= i < j < |rest| ensures rest[i] != rest[j] {
          assert rest[i] == order[i + 1] && rest[j] == order[j + 1];
        }
      }
      RegionsPresentIsSubsequence(rest, rows);
      var r := RegionsPresent(order, rows);
      var t := RegionsPresent(rest, rows);
      NoDupTail(order);
      if !HasRegion(rows, order[0]) && t != [] {
        assert r == t;
        assert t[0] in rest;
        assert t[0] != order[0];
      } else if HasRegion(rows, order[0]) {
        assert r[0] == order[0] && r[1..] == t;
      }
    }
  }

  lemma {:induction false} RegionsPresentNoDup(order: seq<string>, rows: seq<Row>)
    requires NoDup(order)
    ensures NoDup(RegionsPresent(order, rows))
  {
    if order != [] {
      var rest := order[1..];
      assert NoDup(rest) by {
        forall i, j | 0 <= i < j < |rest| ensures rest[i] != rest[j] {
          assert rest[i] == order[i + 1] && rest[j] == order[j + 1];
        }
      }
      RegionsPresentNoDup(rest, rows);
      var r := RegionsPresent(order, rows);
      var t := RegionsPresent(rest, rows);
      if HasRegion(rows, order[0]) {
        assert order[0] !in rest by {
          forall i | 0 <= i < |rest| ensures rest[i] != order[0] {
            assert rest[i] == order[i + 1];
          }
        }
        forall i, j | 0 <= i < j < |r| ensures r[i] != r[j] {
          assert r[j] == t[j - 1];
          if i > 0 { assert r[i] == t[i - 1]; }
        }
      }
    }
  }

  lemma RegionOrderNoDup()
    ensures NoDup(RegionOrder)
  {
  }

  /** The region options keep the canonical order, list no region twice,
      and list exactly the canonical regions some row belongs to. */
  lemma RegionOptionsCanonical(rows: seq<Row>)
    ensures var vals := ChoiceValues(RegionOptions(rows));
      && IsSubsequence(vals, RegionOrder)
      && NoDup(vals)
      && (forall r :: r in vals <==> r in RegionOrder && HasRegion(rows, r))
  {
    RegionOrderNoDup();
    RegionsPresentIsSubsequence(RegionOrder, rows);
    RegionsPresentNoDup(RegionOrder, rows);
  }

  // ------------------------------------------------------------ merge with the registry

  /** The registry rows whose school ID equals `id`, in registry order. */
  function MatchingSchools(schools: seq<Row>, id: Cell): (r: seq<Row>)
    ensures forall s :: s in r ==> s in schools && CellAt(s, SchoolIdColumn) == id
    ensures (exists i :: 0 <= i < |schools| && CellAt(schools[i], SchoolIdColumn) == id) <==> r != []
  {
    if schools == [] then []
    else
      var rest := MatchingSchools(schools[1..], id);
      assert (exists i :: 0 <= i < |schools| && CellAt(schools[i], SchoolIdColumn) == id)
         <==> CellAt(schools[0], SchoolIdColumn) == id
              || (exists i :: 0 <= i < |schools[1..]| && CellAt(schools[1..][i], SchoolIdColumn) == id) by {
        if exists i :: 0 <= i < |schools| && CellAt(schools[i], SchoolIdColumn) == id {
          var i :| 0 <= i < |schools| && CellAt(schools[i], SchoolIdColumn) == id;
          if i > 0 { assert schools[1..][i - 1] == schools[i]; }
        }
      }
      (if CellAt(schools[0], SchoolIdColumn) == id then [schools[0]] else []) + rest
  }

  /** An enrollment row joined with one registry row: the registry's
      columns (other than the key) come from the registry. */
  function JoinRow(row: Row, school: Row): Row {
    map k | k in row.Keys + school.Keys ::
      if k in school && k != SchoolIdColumn then school[k] else if k in row then row[k] else Missing
  }

  function JoinAll(row: Row, schools: seq<Row>): (r: seq<Row>)
    ensures |r| == |schools| && forall i :: 0 <= i < |schools| ==> r[i] == JoinRow(row, schools[i])
  {
    if schools == [] then [] else [JoinRow(row, schools[0])] + JoinAll(row, schools[1..])
  }

  /** The rows a left join makes of one enrollment row: one per matching
      school, or the row itself when no school matches. */
  function MergeOne(row: Row, schools: seq<Row>): (r: seq<Row>)
    ensures r != []
  {
    var matches := MatchingSchools(schools, CellAt(row, SchoolIdColumn));
    if matches == [] then [row] else JoinAll(row, matches)
  }

  function MergeRows(rows: seq<Row>, schools: seq<Row>): seq<Row> {
    if rows == [] then [] else MergeOne(rows[0], schools) + MergeRows(rows[1..], schools)
  }

  /** `data.merge(schools_df, on='BEIS School ID', how='left')`. */
  function MergeSchools(data: Table, schools: Table): Table {
    Table(AddColumns(data.columns, schools.columns), MergeRows(data.rows, schools.rows))
  }

  /** A left join drops no enrollment row. */
  lemma {:induction false} MergeKeepsEveryRow(rows: seq<Row>, schools: seq<Row>)
    ensures |MergeRows(rows, schools)| >= |rows|
  {
    if rows != [] {
      MergeKeepsEveryRow(rows[1..], schools);
    }
  }

  /** The one merged row an enrollment row yields when IDs are unique:
      its registry columns filled from its school, or the row unchanged
      when its ID is not registered. */
  function MergedRow(row: Row, schools: seq<Row>): Row {
    var matches := MatchingSchools(schools, CellAt(row, SchoolIdColumn));
    if matches == [] then row else JoinRow(row, matches[0])
  }

  lemma MergeOneUnique(row: Row, schools: seq<Row>)
    requires NoDup(ColumnValues(schools, SchoolIdColumn))
    ensures MergeOne(row, schools) == [MergedRow(row, schools)]
  {
    AtMostOneMatch(schools, CellAt(row, SchoolIdColumn));
  }

  /** With unique school IDs in the registry, each enrollment row yields
      exactly one merged row, in order. */
  lemma {:induction false} MergeWithUniqueIds(rows: seq<Row>, schools: seq<Row>)
    requires NoDup(ColumnValues(schools, SchoolIdColumn))
    ensures var m := MergeRows(rows, schools);
      |m| == |rows| && forall i :: 0 <= i < |rows| ==> m[i] == MergedRow(rows[i], schools)
  {
    if rows != [] {
      MergeWithUniqueIds(rows[1..], schools);
      MergeOneUnique(rows[0], schools);
      var m := MergeRows(rows, schools);
      assert m == [MergedRow(rows[0], schools)] + MergeRows(rows[1..], schools);
      forall i | 0 <= i < |rows| ensures m[i] == MergedRow(rows[i], schools) {
        if i > 0 {
          assert rows[1..][i - 1] == rows[i];
        }
      }
    }
  }

  /** An unregistered row passes through the join unchanged; a registered
      one takes each registry column from its school and keeps the rest. */
  lemma MergedRowCells(row: Row, schools: seq<Row>, k: string)
    ensures var matches := MatchingSchools(schools, CellAt(row, SchoolIdColumn));
      && (matches == [] ==> MergedRow(row, schools) == row)
      && (matches != [] && k in matches[0] && k != SchoolIdColumn ==>
            CellAt(MergedRow(row, schools), k) == matches[0][k])
      && (matches != [] && k !in matches[0] ==> CellAt(MergedRow(row, schools), k) == CellAt(row, k))
  {
  }

  lemma {:induction false} AtMostOneMatch(schools: seq<Row>, id: Cell)
    requires NoDup(ColumnValues(schools, SchoolIdColumn))
    ensures |MatchingSchools(schools, id)| <= 1
  {
    if schools != [] {
      var ids := ColumnValues(schools, SchoolIdColumn);
      assert NoDup(ColumnValues(schools[1..], SchoolIdColumn)) by {
        var rest := ColumnValues(schools[1..], SchoolIdColumn);
        forall i, j | 0 <= i < j < |rest| ensures rest[i] != rest[j] {
          assert rest[i] == ids[i + 1] && rest[j] == ids[j + 1];
        }
      }
      AtMostOneMatch(schools[1..], id);
    }
  }

  // ------------------------------------------------------------ load_data_for_year

  datatype LoadError = FileNotFound(path: string)

  datatype Loaded = Loaded(data: Table, gradeColumns: seq<string>, gradeOptions: seq<Choice>, regionOptions: seq<Choice>)

  /** The loaded year, once both files are found: the merged rows with
      their totals, over the merged table's own grade columns. */
  function LoadTables(data: Table, schools: Table): (r: Loaded)
    ensures r.gradeColumns == GradeColumns(AddColumns(data.columns, schools.columns))
    ensures r.data.rows == TotalsRows(MergeRows(data.rows, schools.rows), r.gradeColumns)
    ensures r.gradeOptions == GradeOptions(r.gradeColumns)
    ensures r.regionOptions == RegionOptions(MergeRows(data.rows, schools.rows))
  {
    var merged := MergeSchools(data, schools);
    var gradeCols := GradeColumns(merged.columns);
    var withTotals := Table(AddColumns(merged.columns, TotalColumns), TotalsRows(merged.rows, gradeCols));
    Loaded(withTotals, gradeCols, GradeOptions(gradeCols), RegionOptions(merged.rows))
  }

  /** Adding the totals leaves the Region column, and so the region
      options, as they were. */
  lemma RegionOptionsIgnoreTotals(rows: seq<Row>, gradeCols: seq<string>)
    ensures RegionOptions(TotalsRows(rows, gradeCols)) == RegionOptions(rows)
  {
    var t := TotalsRows(rows, gradeCols);
    forall r ensures HasRegion(t, r) <==> HasRegion(rows, r) {
      forall i | 0 <= i < |rows| ensures CellAt(t[i], RegionColumn) == CellAt(rows[i], RegionColumn) {
        WithTotalsCells(rows[i], gradeCols);
      }
    }
    RegionsPresentSame(RegionOrder, t, rows);
  }

  lemma {:induction false} RegionsPresentSame(order: seq<string>, a: seq<Row>, b: seq<Row>)
    requires forall r :: HasRegion(a, r) <==> HasRegion(b, r)
    ensures RegionsPresent(order, a) == RegionsPresent(order, b)
  {
    if order != [] {
      RegionsPresentSame(order[1..], a, b);
    }
  }

  /** Loads one school year: the enrollment file joined to the registry,
      with its grade columns, derived totals and dropdown options. */
  function LoadDataForYear(store: map<string, Table>, schoolYear: string): (r: Result<Loaded, LoadError>)
    ensures DataPath(schoolYear) !in store ==> r == Failure(FileNotFound(DataPath(schoolYear)))
    ensures r.Failure? <==> DataPath(schoolYear) !in store || SchoolsPath !in store
    ensures r.Success? ==> r.value == LoadTables(store[DataPath(schoolYear)], store[SchoolsPath])
    ensures r.Success? ==> |r.value.data.rows| >= |store[DataPath(schoolYear)].rows|
  {
    var path := DataPath(schoolYear);
    if path !in store then Failure(FileNotFound(path))
    else if SchoolsPath !in store then Failure(FileNotFound(SchoolsPath))
    else
      MergeKeepsEveryRow(store[path].rows, store[SchoolsPath].rows);
      Success(LoadTables(store[path], store[SchoolsPath]))
  }

  /** Row by row, the totals table keeps every cell of its source row and
      adds Total Male, Total Female and their sum, Total Enrollment. */
  lemma {:induction false} TotalsRowsCells(rows: seq<Row>, gradeCols: seq<string>, i: int)
    requires 0 <= i < |rows|
    ensures var r := TotalsRows(rows, gradeCols)[i];
      && CellAt(r, "Total Male") == Num(TotalMale(rows[i], gradeCols))
      && CellAt(r, "Total Female") == Num(TotalFemale(rows[i], gradeCols))
      && CellAt(r, "Total Enrollment") == Num(TotalMale(rows[i], gradeCols) + TotalFemale(rows[i], gradeCols))
      && forall c :: c !in TotalColumns ==> CellAt(r, c) == CellAt(rows[i], c)
  {
    WithTotalsCells(rows[i], gradeCols);
  }

  /** Every row of the loaded table carries its own totals: writing the
      three derived columns does not disturb the grade cells they sum. */
  lemma TotalsRowsHaveTotals(rows: seq<Row>, columns: seq<string>)
    ensures forall row :: row in TotalsRows(rows, GradeColumns(columns)) ==> HasTotals(row, GradeColumns(columns))
  {
    var gradeCols := GradeColumns(columns);
    var r := TotalsRows(rows, gradeCols);
    assert forall c :: c in gradeCols ==> c !in TotalColumns by {
      NotGradeColumn("Total Male");
      NotGradeColumn("Total Female");
      NotGradeColumn("Total Enrollment");
    }
    forall i | 0 <= i < |r| ensures HasTotals(r[i], gradeCols) {
      TotalsRowsCells(rows, gradeCols, i);
      RowSumAgree(r[i], rows[i], ColumnsContaining(gradeCols, "Male"));
      RowSumAgree(r[i], rows[i], ColumnsContaining(gradeCols, "Female"));
    }
  }

  /** Total Enrollment counts every grade column naming a gender once, when
      no column names both; a row of "N/A" cells totals 0. */
  lemma TotalEnrollmentCoversGenderColumns(row: Row, gradeCols: seq<string>)
    requires forall c :: c in gradeCols ==> !(Contains(c, "Male") && Contains(c, "Female"))
    ensures TotalMale(row, gradeCols) + TotalFemale(row, gradeCols)
         == RowSum(row, ColumnsContainingEither(gradeCols, "Male", "Female"))
    ensures (forall c :: c in gradeCols ==> CellAt(row, c) == NA || CellAt(row, c).Missing?)
         ==> TotalMale(row, gradeCols) + TotalFemale(row, gradeCols) == 0
  {
    RowSumInclusionExclusion(row, gradeCols, "Male", "Female");
    NoColumnContainsBoth(gradeCols, "Male", "Female");
    if forall c :: c in gradeCols ==> CellAt(row, c) == NA || CellAt(row, c).Missing? {
      RowSumOfBlanks(row, ColumnsContainingEither(gradeCols, "Male", "Female"));
    }
  }

  // ------------------------------------------------------------ get_school_metadata

  /** Row `i` is the first whose School Name is `name`. */
  predicate IsFirstNamed(rows: seq<Row>, i: int, name: string) {
    && 0 <= i < |rows|
    && CellAt(rows[i], SchoolNameColumn) == Text(name)
    && forall j :: 0 <= j < i ==> CellAt(rows[j], SchoolNameColumn) != Text(name)
  }

  /** `load_schools`: reading the registry raises FileNotFoundError when
      its file is absent. */
  function LoadSchools(store: map<string, Table>): (r: Result<Table, LoadError>)
    ensures r.Failure? <==> SchoolsPath !in store
    ensures r.Failure? ==> r.error == FileNotFound(SchoolsPath)
    ensures r.Success? ==> r.value == store[SchoolsPath]
  {
    if SchoolsPath in store then Success(store[SchoolsPath]) else Failure(FileNotFound(SchoolsPath))
  }

  /** `get_school_metadata`: FileNotFoundError without the registry file;
      otherwise the first registry row with this exact school name, and
      None where the source's `.iloc[0]` raises IndexError. */
  function GetSchoolMetadata(store: map<string, Table>, name: string): (r: Result<Option<Row>, LoadError>)
    ensures r.Failure? <==> SchoolsPath !in store
    ensures r.Failure? ==> r == Failure(FileNotFound(SchoolsPath))
    ensures r.Success? ==>
      var rows := store[SchoolsPath].rows;
      && (r.value.None? <==> forall i :: 0 <= i < |rows| ==> CellAt(rows[i], SchoolNameColumn) != Text(name))
      && (r.value.Some? ==> exists i :: IsFirstNamed(rows, i, name) && rows[i] == r.value.value)
  {
    match LoadSchools(store)
    case Failure(e) => Failure(e)
    case Success(schools) => Success(FirstNamed(schools.rows, name))
  }

  function FirstNamed(rows: seq<Row>, name: string): (r: Option<Row>)
    ensures r.None? <==> forall i :: 0 <= i < |rows| ==> CellAt(rows[i], SchoolNameColumn) != Text(name)
    ensures r.Some? ==> exists i :: IsFirstNamed(rows, i, name) && rows[i] == r.value
  {
    if rows == [] then None
    else if CellAt(rows[0], SchoolNameColumn) == Text(name) then
      assert IsFirstNamed(rows, 0, name);
      Some(rows[0])
    else
      var r := FirstNamed(rows[1..], name);
      assert forall i :: 1 <= i < |rows| ==> rows[i] == rows[1..][i - 1];
      if r.Some? then
        assert exists i :: IsFirstNamed(rows, i, name) && rows[i] == r.value by {
          var i :| IsFirstNamed(rows[1..], i, name) && rows[1..][i] == r.value;
          assert IsFirstNamed(rows, i + 1, name);
        }
        r
      else r
  }

  // ------------------------------------------------------------ sanitize_enrollment_data

  /** NaN or 0: what the sanitizer rewrites to "N/A". */
  predicate IsBlank(c: Cell) {
    c.Missing? || c == Num(0)
  }

  /** The row after visiting `cols` in order, rewriting each blank cell to "N/A". */
  function SanitizeColumns(row: Row, cols: seq<string>): Row {
    if cols == [] then row
    else
      var r := SanitizeColumns(row, cols[..|cols| - 1]);
      var c := cols[|cols| - 1];
      if IsBlank(CellAt(r, c)) then r[c := NA] else r
  }

  /** Cell by cell: a visited blank cell becomes "N/A", every other cell is unchanged. */
  lemma {:induction false} SanitizeColumnsAt(row: Row, cols: seq<string>, k: string)
    ensures CellAt(SanitizeColumns(row, cols), k)
         == if k in cols && IsBlank(CellAt(row, k)) then NA else CellAt(row, k)
  {
    if cols != [] {
      var init := cols[..|cols| - 1];
      var c := cols[|cols| - 1];
      assert cols == init + [c];
      SanitizeColumnsAt(row, init, k);
      if k != c {
        SanitizeColumnsAt(row, init, k);
      } else {
        SanitizeColumnsAt(row, init, c);
      }
    }
  }

  /** Visiting columns with no blank cell changes nothing. */
  lemma {:induction false} SanitizeClean(row: Row, cols: seq<string>)
    requires forall c :: c in cols ==> !IsBlank(CellAt(row, c))
    ensures SanitizeColumns(row, cols) == row
  {
    if cols != [] {
      SanitizeClean(row, cols[..|cols| - 1]);
    }
  }

  /** Sanitizing twice is sanitizing once. */
  lemma SanitizeIdempotent(row: Row, cols: seq<string>)
    ensures SanitizeColumns(SanitizeColumns(row, cols), cols) == SanitizeColumns(row, cols)
  {
    var once := SanitizeColumns(row, cols);
    forall c | c in cols ensures !IsBlank(CellAt(once, c)) {
      SanitizeColumnsAt(row, cols, c);
    }
    SanitizeClean(once, cols);
  }

  /** `df.columns[2:]`. */
  function DataColumns(columns: seq<string>): seq<string> {
    if |columns| >= 2 then columns[2..] else []
  }

  /** Rewrites, in place, each NaN or 0 cell of row `rowIndex` in the columns
      from the third on to "N/A". `ok` is false where the source raises
      KeyError: the row does not exist and there is a column to visit. */
  method SanitizeEnrollmentData(columns: seq<string>, df: array<Row>, rowIndex: int) returns (ok: bool)
    modifies df
    ensures ok <==> 0 <= rowIndex < df.Length || DataColumns(columns) == []
    ensures ok && 0 <= rowIndex < df.Length ==>
      df[..] == old(df[..])[rowIndex := SanitizeColumns(old(df[rowIndex]), DataColumns(columns))]
    ensures !ok || !(0 <= rowIndex < df.Length) ==> df[..] == old(df[..])
  {
    if DataColumns(columns) == [] {
      return true;
    }
    if !(0 <= rowIndex < df.Length) {
      return false;
    }
    ghost var original := df[rowIndex];
    var i := 2;
    while i < |columns|
      invariant 2 <= i <= |columns|
      invariant df[rowIndex] == SanitizeColumns(original, columns[2..i])
      invariant forall j :: 0 <= j < df.Length && j != rowIndex ==> df[j] == old(df[j])
    {
      var col := columns[i];
      var val := CellAt(df[rowIndex], col);
      if val.Missing? || val == Num(0) {
        df[rowIndex] := df[rowIndex][col := NA];
      }
      assert columns[2..i + 1][..i - 2] == columns[2..i];
      i := i + 1;
    }
    assert columns[2..i] == DataColumns(columns);
    return true;
  }
}
