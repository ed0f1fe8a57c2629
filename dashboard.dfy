/** The data slicing inside the dashboard callbacks of `app.py`: the region
    filter, the grade and gender column selection, the per-region and
    per-division aggregates, the KPI figures and the SHS track chart. */
module Dashboard {

  import opened Wrappers
  import opened Strings
  import opened Seqs
  import opened Frame
  import opened AppData
  import opened ShsTracks

  const SelectedTotalColumn: string := "Selected Grades Total"
  const TotalEnrollmentColumn: string := "Total Enrollment"
  const DivisionColumn: string := "Division"

  // ------------------------------------------------------------ region choices

  /** `region_options` of the app: one entry per canonical region, in
      canonical order, whether or not the data holds it. */
  function AllRegionOptions(): seq<Choice> {
    RegionChoices(RegionOrder)
  }

  /** The app's region list names every canonical region once, and offers
      every entry of the data's own region dropdown with the same label. */
  lemma AllRegionOptionsCoverData(rows: seq<Row>)
    ensures var all := AllRegionOptions();
      && ChoiceValues(all) == RegionOrder
      && NoDup(ChoiceValues(all))
      && (forall c :: c in all <==> c.value in RegionOrder && c.caption == c.value)
      && (forall c :: c in RegionOptions(rows) ==> c in all)
  {
    RegionOrderNoDup();
    RegionChoicesMembers(RegionOrder);
    RegionChoicesMembers(RegionsPresent(RegionOrder, rows));
  }

  // ------------------------------------------------------------ region filter

  /** The region a row belongs to; NaN (or a number) is no region name. */
  function RegionOf(row: Row): Option<string> {
    TextOf(CellAt(row, RegionColumn))
  }

  predicate InRegions(row: Row, regions: seq<string>) {
    RegionOf(row).Some? && RegionOf(row).value in regions
  }

  /** `df[df['Region'].isin(regions)]`. */
  function FilterRegions(rows: seq<Row>, regions: seq<string>): (r: seq<Row>)
    ensures forall x :: x in r <==> x in rows && InRegions(x, regions)
    ensures |r| <= |rows|
  {
    if rows == [] then []
    else
      var init := rows[..|rows| - 1];
      var last := rows[|rows| - 1];
      assert rows == init + [last];
      FilterRegions(init, regions) + (if InRegions(last, regions) then [last] else [])
  }

  /** The filter keeps the rows in their order: filtering a concatenation
      filters each part. */
  lemma {:induction false} FilterRegionsAppend(a: seq<Row>, b: seq<Row>, regions: seq<string>)
    ensures FilterRegions(a + b, regions) == FilterRegions(a, regions) + FilterRegions(b, regions)
  {
    if b == [] {
      assert a + b == a;
    } else {
      var init := b[..|b| - 1];
      var last := b[|b| - 1];
      assert (a + b)[..|a + b| - 1] == a + init;
      assert (a + b)[|a + b| - 1] == last;
      FilterRegionsAppend(a, init, regions);
    }
  }

  /** Filtering twice by the same selection filters once: the second
      `isin` (app.py:230-231) changes nothing. */
  lemma {:induction false} FilterRegionsIdempotent(rows: seq<Row>, regions: seq<string>)
    ensures FilterRegions(FilterRegions(rows, regions), regions) == FilterRegions(rows, regions)
  {
    if rows != [] {
      var init := rows[..|rows| - 1];
      var last := rows[|rows| - 1];
      FilterRegionsIdempotent(init, regions);
      var tail := if InRegions(last, regions) then [last] else [];
      FilterRegionsAppend(FilterRegions(init, regions), tail, regions);
      if InRegions(last, regions) {
        assert tail[..0] == [];
      }
    }
  }

  /** The filter keeps every row exactly when every row is in the selection. */
  lemma {:induction false} FilterRegionsKeepsAll(rows: seq<Row>, regions: seq<string>)
    ensures FilterRegions(rows, regions) == rows <==> forall i :: 0 <= i < |rows| ==> InRegions(rows[i], regions)
  {
    if rows != [] {
      var init := rows[..|rows| - 1];
      var last := rows[|rows| - 1];
      FilterRegionsKeepsAll(init, regions);
      assert rows == init + [last];
      if !InRegions(last, regions) {
        assert |FilterRegions(rows, regions)| < |rows|;
      } else {
        var f := FilterRegions(init, regions);
        assert FilterRegions(rows, regions) == f + [last];
        if f + [last] == init + [last] {
          assert f == (f + [last])[..|f|];
        }
      }
      assert (forall i :: 0 <= i < |rows| ==> InRegions(rows[i], regions))
         <==> (forall i :: 0 <= i < |init| ==> InRegions(init[i], regions)) && InRegions(last, regions);
    }
  }

  /** `if selected_regions:` — an empty selection filters nothing. */
  function ApplyRegionFilter(rows: seq<Row>, regions: seq<string>): (r: seq<Row>)
    ensures regions == [] ==> r == rows
    ensures regions != [] ==> forall x :: x in r <==> x in rows && InRegions(x, regions)
  {
    if regions == [] then rows else FilterRegions(rows, regions)
  }

  // ------------------------------------------------------------ column selection

  /** The columns one selected grade contributes: every column whose name
      contains the grade as a substring, narrowed to the gender's columns. */
  function GradeColumnsFor(columns: seq<string>, grade: string, gender: string): (r: seq<string>)
    ensures forall c :: c in r <==>
      && c in columns && Contains(c, grade)
      && (gender == "Male" ==> Contains(c, "Male"))
      && (gender == "Female" ==> Contains(c, "Female"))
  {
    if gender == "Male" then ColumnsContainingBoth(columns, grade, "Male")
    else if gender == "Female" then ColumnsContainingBoth(columns, grade, "Female")
    else ColumnsContaining(columns, grade)
  }

  /** The list built by `+=` over the selected grades, in grade order: the
      specification of the method `SelectGradeColumns`, which stands for the
      source's loop. */
  function SelectedGradeColumns(columns: seq<string>, grades: seq<string>, gender: string): seq<string> {
    if grades == [] then []
    else SelectedGradeColumns(columns, grades[..|grades| - 1], gender) + GradeColumnsFor(columns, grades[|grades| - 1], gender)
  }

  /** A column is selected exactly when one of the selected grades occurs in it
      (and, for Male or Female, the gender word does too). */
  lemma {:induction false} SelectedGradeColumnsMembers(columns: seq<string>, grades: seq<string>, gender: string)
    ensures forall c :: c in SelectedGradeColumns(columns, grades, gender) <==>
      exists g :: g in grades && c in GradeColumnsFor(columns, g, gender)
  {
    if grades != [] {
      var init := grades[..|grades| - 1];
      var last := grades[|grades| - 1];
      SelectedGradeColumnsMembers(columns, init, gender);
      assert grades == init + [last];
      assert forall g :: g in grades <==> g in init || g == last;
    }
  }

  /** The selection loop of `update_charts` (app.py:180-186 and 236-242). */
  method SelectGradeColumns(columns: seq<string>, grades: seq<string>, gender: string) returns (selected: seq<string>)
    ensures selected == SelectedGradeColumns(columns, grades, gender)
  {
    selected := [];
    var i := 0;
    while i < |grades|
      invariant 0 <= i <= |grades|
      invariant selected == SelectedGradeColumns(columns, grades[..i], gender)
    {
      var grade := grades[i];
      if gender == "Male" {
        selected := selected + ColumnsContainingBoth(columns, grade, "Male");
      } else if gender == "Female" {
        selected := selected + ColumnsContainingBoth(columns, grade, "Female");
      } else {
        selected := selected + ColumnsContaining(columns, grade);
      }
      assert grades[..i + 1][..i] == grades[..i];
      i := i + 1;
    }
    assert grades[..i] == grades;
  }

  /** Selection is by substring: choosing "G1" also takes every G10, G11 and
      G12 column. */
  lemma G1SelectsTwoDigitGrades(columns: seq<string>, col: string, gender: string)
    requires col in columns && ("G10" <= col || "G11" <= col || "G12" <= col)
    requires gender != "Male" && gender != "Female"
    ensures col in GradeColumnsFor(columns, "G1", gender)
  {
    assert "G1" <= col;
    PrefixIsContained(col, "G1");
  }

  /** A column that contains two selected grades (a G10 column when G1 and
      G10 are both chosen) is listed, and so summed, once for each. */
  lemma {:induction false} OverlappingGradesCountTwice(row: Row, columns: seq<string>, g1: string, g2: string, gender: string)
    ensures RowSum(row, SelectedGradeColumns(columns, [g1, g2], gender))
         == RowSum(row, GradeColumnsFor(columns, g1, gender)) + RowSum(row, GradeColumnsFor(columns, g2, gender))
  {
    var a := GradeColumnsFor(columns, g1, gender);
    var b := GradeColumnsFor(columns, g2, gender);
    assert [g1, g2][..1] == [g1] && [g1][..0] == [];
    assert SelectedGradeColumns(columns, [g1], gender) == SelectedGradeColumns(columns, [], gender) + a;
    assert SelectedGradeColumns(columns, [g1, g2], gender) == SelectedGradeColumns(columns, [g1], gender) + b;
    assert [] + a == a;
    RowSumAppend(row, GradeColumnsFor(columns, g1, gender), GradeColumnsFor(columns, g2, gender));
  }

  /** The second selection (app.py:234-249): with no grade chosen, the grade
      columns of the gender, or all of them. */
  function SelectedColumns(columns: seq<string>, gradeColumns: seq<string>, grades: seq<string>, gender: string): seq<string> {
    if grades != [] then SelectedGradeColumns(columns, grades, gender)
    else if gender == "Male" then ColumnsContaining(gradeColumns, "Male")
    else if gender == "Female" then ColumnsContaining(gradeColumns, "Female")
    else gradeColumns
  }

  // ------------------------------------------------------------ the total column

  /** `df[name] = df[cols].sum(axis=1)`. */
  function WithRowSums(rows: seq<Row>, name: string, cols: seq<string>): (r: seq<Row>)
    ensures |r| == |rows|
    ensures forall i :: 0 <= i < |rows| ==> r[i] == rows[i][name := Num(RowSum(rows[i], cols))]
  {
    seq(|rows|, i requires 0 <= i < |rows| => rows[i][name := Num(RowSum(rows[i], cols))])
  }

  /** `df[name] = df[from]`. */
  function WithCopiedColumn(rows: seq<Row>, name: string, from: string): (r: seq<Row>)
    ensures |r| == |rows|
    ensures forall i :: 0 <= i < |rows| ==> r[i] == rows[i][name := CellAt(rows[i], from)]
  {
    seq(|rows|, i requires 0 <= i < |rows| => rows[i][name := CellAt(rows[i], from)])
  }

  /** A row's 'Selected Grades Total', as `sum` reads it. */
  function SelectedTotal(row: Row): int {
    Coerce(CellAt(row, SelectedTotalColumn))
  }

  /** Writing one column leaves the sums over the other columns alone. */
  lemma {:induction false} RowSumIgnores(row: Row, name: string, v: Cell, cols: seq<string>)
    requires name !in cols
    ensures RowSum(row[name := v], cols) == RowSum(row, cols)
  {
    if cols != [] {
      RowSumIgnores(row, name, v, cols[1..]);
    }
  }

  /** 'Selected Grades Total' after the first pass of `update_charts`
      (app.py:178-194): the selected grade columns' sum, or the copied
      'Total Enrollment' when no grade is chosen, then overwritten with the
      sum of all Male (Female) grade columns when a gender is chosen. The
      method `UpdateCharts` stands for the source and is proved to compute
      these rows. */
  function BarRows(rows: seq<Row>, columns: seq<string>, gradeColumns: seq<string>, grades: seq<string>, gender: string): seq<Row> {
    var first :=
      if grades != [] then WithRowSums(rows, SelectedTotalColumn, SelectedGradeColumns(columns, grades, gender))
      else WithCopiedColumn(rows, SelectedTotalColumn, TotalEnrollmentColumn);
    if gender == "Male" then WithRowSums(first, SelectedTotalColumn, ColumnsContaining(gradeColumns, "Male"))
    else if gender == "Female" then WithRowSums(first, SelectedTotalColumn, ColumnsContaining(gradeColumns, "Female"))
    else first
  }

  /** The bar pass's per-row total: with Male or Female chosen it is that
      gender's sum over every grade column, whatever grades were chosen;
      otherwise the chosen grades' columns, or the row's Total Enrollment. */
  lemma BarTotals(rows: seq<Row>, columns: seq<string>, gradeColumns: seq<string>, grades: seq<string>, gender: string, i: int)
    requires 0 <= i < |rows| && SelectedTotalColumn !in gradeColumns
    ensures var bar := BarRows(rows, columns, gradeColumns, grades, gender);
      && (gender == "Male" ==> SelectedTotal(bar[i]) == RowSum(rows[i], ColumnsContaining(gradeColumns, "Male")))
      && (gender == "Female" ==> SelectedTotal(bar[i]) == RowSum(rows[i], ColumnsContaining(gradeColumns, "Female")))
      && (gender != "Male" && gender != "Female" && grades != [] ==>
            SelectedTotal(bar[i]) == RowSum(rows[i], SelectedGradeColumns(columns, grades, gender)))
      && (gender != "Male" && gender != "Female" && grades == [] ==>
            SelectedTotal(bar[i]) == Coerce(CellAt(rows[i], TotalEnrollmentColumn)))
  {
    var first :=
      if grades != [] then WithRowSums(rows, SelectedTotalColumn, SelectedGradeColumns(columns, grades, gender))
      else WithCopiedColumn(rows, SelectedTotalColumn, TotalEnrollmentColumn);
    if gender == "Male" || gender == "Female" {
      var cols := ColumnsContaining(gradeColumns, gender);
      assert SelectedTotalColumn !in cols;
      RowSumIgnores(rows[i], SelectedTotalColumn, first[i][SelectedTotalColumn], cols);
      assert first[i] == rows[i][SelectedTotalColumn := first[i][SelectedTotalColumn]];
    }
  }

  /** The bar pass writes the total column and nothing else. */
  lemma BarRowsKeepOtherColumns(rows: seq<Row>, columns: seq<string>, gradeColumns: seq<string>, grades: seq<string>, gender: string, i: int)
    requires 0 <= i < |rows|
    ensures var bar := BarRows(rows, columns, gradeColumns, grades, gender);
      && |bar| == |rows|
      && SelectedTotalColumn in bar[i]
      && bar[i] - {SelectedTotalColumn} == rows[i] - {SelectedTotalColumn}
  {
  }

  /** Writing the total column keeps every row's region, so the second
      region filter of `update_charts` (app.py:230-231) keeps every row. */
  lemma SecondRegionFilterKeepsAll(rows: seq<Row>, columns: seq<string>, gradeColumns: seq<string>, grades: seq<string>, gender: string, regions: seq<string>)
    ensures var bar := BarRows(FilterRegions(rows, regions), columns, gradeColumns, grades, gender);
      FilterRegions(bar, regions) == bar
  {
    var f := FilterRegions(rows, regions);
    var bar := BarRows(f, columns, gradeColumns, grades, gender);
    forall i | 0 <= i < |bar| ensures InRegions(bar[i], regions) {
      BarRowsKeepOtherColumns(f, columns, gradeColumns, grades, gender, i);
      assert f[i] in f;
      assert CellAt(bar[i], RegionColumn) == CellAt(f[i], RegionColumn);
    }
    FilterRegionsKeepsAll(bar, regions);
  }

  // ------------------------------------------------------------ region aggregate

  /** Code-point order on strings is a strict weak order. */
  lemma LexLessIsStrictWeak()
    ensures StrictWeakOrder(LexLess)
  {
    forall a, b | LexLess(a, b) ensures !LexLess(b, a) {
      if LexLess(b, a) {
        LexLessTransitive(a, b, a);
        LexLessIrreflexive(a);
      }
    }
    forall a, b, c | !LexLess(a, b) && !LexLess(b, c) ensures !LexLess(a, c) {
      LexLessTotal(a, b);
      LexLessTotal(b, c);
      if a != b && b != c {
        LexLessTransitive(c, b, a);
        if LexLess(a, c) {
          LexLessTransitive(a, c, a);
          LexLessIrreflexive(a);
        }
      }
    }
  }

  /** The regions `groupby('Region')` forms, in its sorted key order. */
  function RegionKeys(rows: seq<Row>): seq<string> {
    SortedKeys(rows, RegionOf, LexLess)
  }

  /** `groupby('Region')['Selected Grades Total'].sum()`. */
  function RegionAggregate(rows: seq<Row>): seq<(string, int)> {
    GroupSums(rows, RegionOf, RegionKeys(rows), SelectedTotal)
  }

  /** Each region present appears once, in sorted order, and the region sums
      add up to the total over every row that has a region. */
  lemma RegionAggregateGroups(rows: seq<Row>)
    ensures var keys := RegionKeys(rows);
      && NoDup(keys)
      && |keys| == |PresentKeys(rows, RegionOf)|
      && (forall k :: k in keys <==> exists i :: 0 <= i < |rows| && RegionOf(rows[i]) == Some(k))
      && SortedBy(keys, LexLess)
      && SumOf(RegionAggregate(rows), PairValue) == SumKeyed(rows, RegionOf, SelectedTotal)
  {
    var keys := RegionKeys(rows);
    LexLessIsStrictWeak();
    SortedKeysFacts(rows, RegionOf, LexLess);
    GroupSumsTotal(rows, RegionOf, keys, SelectedTotal);
    SumWhereInAll(rows, RegionOf, keys, SelectedTotal);
  }

  /** Under a region selection every row has a region, so the bars account
      for every filtered row. */
  lemma RegionBarsCoverSelection(rows: seq<Row>, regions: seq<string>)
    requires forall i :: 0 <= i < |rows| ==> InRegions(rows[i], regions)
    ensures SumOf(RegionAggregate(rows), PairValue) == SumOf(rows, SelectedTotal)
  {
    RegionAggregateGroups(rows);
    SumKeyedAll(rows, RegionOf, SelectedTotal);
  }

  /** `category_orders` uses the canonical region order only when more
      than ten regions are plotted. */
  function BarRegionOrder(agg: seq<(string, int)>): Option<seq<string>> {
    if |agg| > 10 then Some(RegionOrder) else None
  }

  /** The canonical order is imposed exactly when the filtered rows name
      more than ten distinct regions. */
  lemma BarRegionOrderByRegions(rows: seq<Row>)
    ensures BarRegionOrder(RegionAggregate(rows)) ==
      if |PresentKeys(rows, RegionOf)| > 10 then Some(RegionOrder) else None
  {
    RegionAggregateGroups(rows);
  }

  // ------------------------------------------------------------ pie chart

  /** Some selected grade occurs in the column name. */
  predicate NamesAnyGrade(col: string, grades: seq<string>) {
    exists g :: g in grades && Contains(col, g)
  }

  /** `[c for c in columns if any(g in c for g in grades) and word in c]`. */
  function ColumnsNamingGrades(columns: seq<string>, grades: seq<string>, word: string): (r: seq<string>)
    ensures forall c :: c in r <==> c in columns && NamesAnyGrade(c, grades) && Contains(c, word)
  {
    if columns == [] then []
    else
      var rest := ColumnsNamingGrades(columns[1..], grades, word);
      if NamesAnyGrade(columns[0], grades) && Contains(columns[0], word) then [columns[0]] + rest else rest
  }

  /** A filter of distinct columns has no repeats. */
  lemma {:induction false} ColumnsNamingGradesNoDup(columns: seq<string>, grades: seq<string>, word: string)
    requires NoDup(columns)
    ensures NoDup(ColumnsNamingGrades(columns, grades, word))
  {
    if columns != [] {
      NoDupTail(columns);
      ColumnsNamingGradesNoDup(columns[1..], grades, word);
      var rest := ColumnsNamingGrades(columns[1..], grades, word);
      if NamesAnyGrade(columns[0], grades) && Contains(columns[0], word) {
        NoDupCons(columns[0], rest);
      }
    }
  }

  /** The pie's columns for one gender word (app.py:213-218). */
  function PieColumns(columns: seq<string>, gradeColumns: seq<string>, grades: seq<string>, word: string): seq<string> {
    if grades != [] then ColumnsNamingGrades(columns, grades, word)
    else ColumnsContaining(gradeColumns, word)
  }

  /** Unlike the bar selection, the pie takes each matching column once: it
      selects the same columns as the bar's Male (Female) selection, without
      repeats when the frame's columns are distinct. */
  lemma PieColumnsOnce(columns: seq<string>, grades: seq<string>, gender: string)
    requires NoDup(columns) && grades != [] && (gender == "Male" || gender == "Female")
    ensures NoDup(PieColumns(columns, [], grades, gender))
    ensures forall c :: c in PieColumns(columns, [], grades, gender) <==> c in SelectedGradeColumns(columns, grades, gender)
  {
    ColumnsNamingGradesNoDup(columns, grades, gender);
    SelectedGradeColumnsMembers(columns, grades, gender);
  }

  /** `df[cols].sum().sum()`. */
  function FrameSum(rows: seq<Row>, cols: seq<string>): int {
    if rows == [] then 0 else RowSum(rows[0], cols) + FrameSum(rows[1..], cols)
  }

  lemma {:induction false} FrameSumAgree(xs: seq<Row>, ys: seq<Row>, cols: seq<string>)
    requires |xs| == |ys|
    requires forall i :: 0 <= i < |xs| ==> RowSum(xs[i], cols) == RowSum(ys[i], cols)
    ensures FrameSum(xs, cols) == FrameSum(ys, cols)
  {
    if xs != [] {
      FrameSumAgree(xs[1..], ys[1..], cols);
    }
  }

  /** Over rows that carry their totals, the Male and Female grade sums add
      up to the summed Total Enrollment column. */
  lemma {:induction false} FrameSumOfTotals(rows: seq<Row>, gradeCols: seq<string>)
    requires forall i :: 0 <= i < |rows| ==> HasTotals(rows[i], gradeCols)
    ensures FrameSum(rows, ColumnsContaining(gradeCols, "Male")) + FrameSum(rows, ColumnsContaining(gradeCols, "Female"))
         == FrameSum(rows, [TotalEnrollmentColumn])
  {
    if rows != [] {
      FrameSumOfTotals(rows[1..], gradeCols);
      var row := rows[0];
      assert HasTotals(row, gradeCols);
      assert RowSum(row, [TotalEnrollmentColumn]) == Coerce(CellAt(row, TotalEnrollmentColumn)) + RowSum(row, []);
      CoerceSentinel(CellAt(row, TotalEnrollmentColumn));
    }
  }

  /** With no grade chosen, the pie's Male and Female slices add up to the
      Total Enrollment of the rows the region filter keeps: the pie shows
      the same learners as the loaded totals. */
  lemma PieSlicesAddUpToEnrollment(data: seq<Row>, columns: seq<string>, regions: seq<string>, gender: string)
    requires forall row :: row in data ==> HasTotals(row, GradeColumns(columns))
    ensures var gradeCols := GradeColumns(columns);
      var rows := ApplyRegionFilter(data, regions);
      var bar := BarRows(rows, columns, gradeCols, [], gender);
      FrameSum(bar, PieColumns(columns, gradeCols, [], "Male")) + FrameSum(bar, PieColumns(columns, gradeCols, [], "Female"))
        == FrameSum(rows, [TotalEnrollmentColumn])
  {
    var gradeCols := GradeColumns(columns);
    var rows := ApplyRegionFilter(data, regions);
    var bar := BarRows(rows, columns, gradeCols, [], gender);
    var male := ColumnsContaining(gradeCols, "Male");
    var female := ColumnsContaining(gradeCols, "Female");
    NotGradeColumn(SelectedTotalColumn);
    assert SelectedTotalColumn !in male && SelectedTotalColumn !in female;
    forall i | 0 <= i < |rows|
      ensures RowSum(bar[i], male) == RowSum(rows[i], male)
      ensures RowSum(bar[i], female) == RowSum(rows[i], female)
    {
      BarRowsKeepOtherColumns(rows, columns, gradeCols, [], gender, i);
      assert forall c :: c != SelectedTotalColumn ==> CellAt(bar[i], c) == CellAt(rows[i], c);
      RowSumAgree(bar[i], rows[i], male);
      RowSumAgree(bar[i], rows[i], female);
    }
    FrameSumAgree(bar, rows, male);
    FrameSumAgree(bar, rows, female);
    assert forall i :: 0 <= i < |rows| ==> rows[i] in data;
    FrameSumOfTotals(rows, gradeCols);
  }

  // ------------------------------------------------------------ leaderboard

  function DivisionOf(row: Row): Option<string> {
    TextOf(CellAt(row, DivisionColumn))
  }

  /** The (Division, Region) group of a row; a NaN in either drops it. */
  function DivisionRegionOf(row: Row): Option<(string, string)> {
    match (DivisionOf(row), RegionOf(row))
    case (Some(d), Some(r)) => Some((d, r))
    case _ => None
  }

  /** 'count' counts the rows whose School ID is not NaN. */
  function IdCount(row: Row): int {
    if CellAt(row, SchoolIdColumn).Missing? then 0 else 1
  }

  /** One row of the division aggregate. */
  datatype DivisionEntry = DivisionEntry(division: string, region: string, schools: int, total: int)

  function GroupEntry(rows: seq<Row>, k: (string, string)): DivisionEntry {
    DivisionEntry(k.0, k.1, SumWhere(rows, DivisionRegionOf, k, IdCount), SumWhere(rows, DivisionRegionOf, k, SelectedTotal))
  }

  function DivisionEntries(rows: seq<Row>, keys: seq<(string, string)>): (r: seq<DivisionEntry>)
    ensures |r| == |keys| && forall i :: 0 <= i < |keys| ==> r[i] == GroupEntry(rows, keys[i])
  {
    if keys == [] then [] else [GroupEntry(rows, keys[0])] + DivisionEntries(rows, keys[1..])
  }

  /** Distinct groups give distinct entries, since each entry carries its key. */
  lemma DivisionEntriesNoDup(rows: seq<Row>, keys: seq<(string, string)>)
    requires NoDup(keys)
    ensures NoDup(DivisionEntries(rows, keys))
  {
    var r := DivisionEntries(rows, keys);
    forall i, j | 0 <= i < j < |r| ensures r[i] != r[j] {
      assert (r[i].division, r[i].region) == keys[i];
      assert (r[j].division, r[j].region) == keys[j];
    }
  }

  function TotalOf(e: DivisionEntry): int {
    e.total
  }

  /** `groupby(['Division', 'Region'])`, sorted by total, largest first, and cut to 15. */
  function Leaderboard(rows: seq<Row>): seq<DivisionEntry> {
    TopN(DivisionEntries(rows, PresentKeys(rows, DivisionRegionOf)), TotalOf, 15)
  }

  /** The leaderboard lists 15 distinct groups, or every group when there
      are fewer, largest total first; each entry is one (Division, Region)
      group with its school count and total; and a group left off is no
      larger than any group listed. */
  lemma LeaderboardTop15(rows: seq<Row>)
    ensures var r := Leaderboard(rows);
      var groups := |PresentKeys(rows, DivisionRegionOf)|;
      && |r| == (if groups <= 15 then groups else 15)
      && NoDup(r)
      && (forall i, j :: 0 <= i < j < |r| ==> r[i].total >= r[j].total)
      && (forall e :: e in r ==>
            && e == GroupEntry(rows, (e.division, e.region))
            && exists i :: 0 <= i < |rows| && DivisionRegionOf(rows[i]) == Some((e.division, e.region)))
      && (forall k :: k in PresentKeys(rows, DivisionRegionOf) && GroupEntry(rows, k) !in r ==>
            forall e :: e in r ==> e.total >= GroupEntry(rows, k).total)
  {
    LeaderboardCount(rows);
    LeaderboardGroups(rows);
  }

  /** How many entries the leaderboard has, and that none repeats. */
  lemma LeaderboardCount(rows: seq<Row>)
    ensures var r := Leaderboard(rows);
      var groups := |PresentKeys(rows, DivisionRegionOf)|;
      && |r| == (if groups <= 15 then groups else 15)
      && NoDup(r)
  {
    var keys := PresentKeys(rows, DivisionRegionOf);
    TopNCount(DivisionEntries(rows, keys), TotalOf, 15);
    DivisionEntriesNoDup(rows, keys);
  }

  /** The leaderboard's order, its entries, and the groups it leaves off. */
  lemma LeaderboardGroups(rows: seq<Row>)
    ensures var r := Leaderboard(rows);
      && (forall i, j :: 0 <= i < j < |r| ==> r[i].total >= r[j].total)
      && (forall e :: e in r ==>
            && e == GroupEntry(rows, (e.division, e.region))
            && exists i :: 0 <= i < |rows| && DivisionRegionOf(rows[i]) == Some((e.division, e.region)))
      && (forall k :: k in PresentKeys(rows, DivisionRegionOf) && GroupEntry(rows, k) !in r ==>
            forall e :: e in r ==> e.total >= GroupEntry(rows, k).total)
  {
    var keys := PresentKeys(rows, DivisionRegionOf);
    var entries := DivisionEntries(rows, keys);
    var r := Leaderboard(rows);
    TopNOrder(entries, TotalOf, 15);
    forall e | e in r ensures e == GroupEntry(rows, (e.division, e.region)) && (e.division, e.region) in keys {
      var i :| 0 <= i < |entries| && entries[i] == e;
    }
    forall k | k in keys && GroupEntry(rows, k) !in r
      ensures forall e :: e in r ==> e.total >= GroupEntry(rows, k).total
    {
      var i :| 0 <= i < |keys| && keys[i] == k;
      assert entries[i] == GroupEntry(rows, k);
    }
  }

  /** The school counts of all groups add up to the rows with an ID and a
      (Division, Region) pair: each row is counted in one group. */
  lemma SchoolCountsPartition(rows: seq<Row>)
    ensures SumOf(DivisionEntries(rows, PresentKeys(rows, DivisionRegionOf)), SchoolsOf)
         == SumKeyed(rows, DivisionRegionOf, IdCount)
  {
    var keys := PresentKeys(rows, DivisionRegionOf);
    SchoolsOfEntries(rows, keys);
    GroupsPartition(rows, DivisionRegionOf, keys, IdCount);
    SumWhereInAll(rows, DivisionRegionOf, keys, IdCount);
  }

  function SchoolsOf(e: DivisionEntry): int {
    e.schools
  }

  lemma {:induction false} SchoolsOfEntries(rows: seq<Row>, keys: seq<(string, string)>)
    ensures SumOf(DivisionEntries(rows, keys), SchoolsOf) == GroupsTotal(rows, DivisionRegionOf, keys, IdCount)
  {
    if keys != [] {
      SchoolsOfEntries(rows, keys[1..]);
    }
  }

  // ------------------------------------------------------------ KPI figures

  /** `int(df['Selected Grades Total'].sum())`. */
  function TotalStudents(rows: seq<Row>): int {
    SumOf(rows, SelectedTotal)
  }

  function SchoolIdOf(row: Row): Option<Cell> {
    if CellAt(row, SchoolIdColumn).Missing? then None else Some(CellAt(row, SchoolIdColumn))
  }

  /** `df['BEIS School ID'].nunique()`. */
  function TotalSchools(rows: seq<Row>): nat {
    |PresentKeys(rows, SchoolIdOf)|
  }

  /** Total schools is the number of distinct non-NaN School IDs, never more
      than the number of rows. */
  lemma TotalSchoolsDistinct(rows: seq<Row>)
    ensures TotalSchools(rows) == |set i | 0 <= i < |rows| && SchoolIdOf(rows[i]).Some? :: SchoolIdOf(rows[i]).value|
    ensures TotalSchools(rows) <= |rows|
  {
    var keys := PresentKeys(rows, SchoolIdOf);
    NoDupCardinality(keys);
    var ids := set i | 0 <= i < |rows| && SchoolIdOf(rows[i]).Some? :: SchoolIdOf(rows[i]).value;
    assert (set x | x in keys) == ids by {
      forall x | x in ids ensures x in keys {
        var i :| 0 <= i < |rows| && SchoolIdOf(rows[i]).Some? && SchoolIdOf(rows[i]).value == x;
      }
    }
  }

  function DivisionTotal(rows: seq<Row>, d: string): int {
    SumWhere(rows, DivisionOf, d, SelectedTotal)
  }

  /** Each division's total, as a function of the division. */
  function DivisionTotals(rows: seq<Row>): string -> int {
    d => DivisionTotal(rows, d)
  }

  /** `groupby('Division')[...].sum().idxmax()`: the first division, in
      sorted order, with the largest total; none when no row has a division
      (where pandas raises ValueError). */
  function MostEnrolledDivision(rows: seq<Row>): Option<string> {
    FirstMaxKey(rows, DivisionOf, LexLess, DivisionTotals(rows))
  }

  /** There is a most-enrolled division exactly when some row has a
      division; it is one of them, no division has a larger total, and every
      division sorted before it has a smaller one. */
  lemma MostEnrolledIsLargest(rows: seq<Row>)
    ensures var m := MostEnrolledDivision(rows);
      && (m.None? <==> forall i :: 0 <= i < |rows| ==> DivisionOf(rows[i]).None?)
      && (m.Some? ==> exists i :: 0 <= i < |rows| && DivisionOf(rows[i]) == m)
      && (m.Some? ==> forall d :: (exists i :: 0 <= i < |rows| && DivisionOf(rows[i]) == Some(d)) ==>
            && DivisionTotal(rows, d) <= DivisionTotal(rows, m.value)
            && (LexLess(d, m.value) ==> DivisionTotal(rows, d) < DivisionTotal(rows, m.value)))
  {
    LexLessIsStrictWeak();
    FirstMaxKeyFacts(rows, DivisionOf, LexLess, DivisionTotals(rows));
  }

  /** The two passes over the rows write only 'Selected Grades Total', so
      every row keeps its division. */
  lemma PassesKeepDivisions(rows: seq<Row>, columns: seq<string>, gradeColumns: seq<string>, grades: seq<string>, gender: string)
    ensures var combo := ComboRows(BarRows(rows, columns, gradeColumns, grades, gender), columns, gradeColumns, grades, gender);
      && |combo| == |rows|
      && forall i :: 0 <= i < |rows| ==> DivisionOf(combo[i]) == DivisionOf(rows[i])
  {
    var bar := BarRows(rows, columns, gradeColumns, grades, gender);
    var combo := ComboRows(bar, columns, gradeColumns, grades, gender);
    forall i | 0 <= i < |rows| ensures DivisionOf(combo[i]) == DivisionOf(rows[i]) {
      BarRowsKeepOtherColumns(rows, columns, gradeColumns, grades, gender, i);
      assert CellAt(bar[i], DivisionColumn) == CellAt(rows[i], DivisionColumn);
    }
  }

  /** The division KPI fails exactly when no row the passes started from
      has a division. */
  lemma NoDivisionAfterPasses(rows: seq<Row>, columns: seq<string>, gradeColumns: seq<string>, grades: seq<string>, gender: string)
    ensures var combo := ComboRows(BarRows(rows, columns, gradeColumns, grades, gender), columns, gradeColumns, grades, gender);
      MostEnrolledDivision(combo).None? <==> forall i :: 0 <= i < |rows| ==> DivisionOf(rows[i]).None?
  {
    var combo := ComboRows(BarRows(rows, columns, gradeColumns, grades, gender), columns, gradeColumns, grades, gender);
    PassesKeepDivisions(rows, columns, gradeColumns, grades, gender);
    MostEnrolledIsLargest(combo);
  }

  // ------------------------------------------------------------ update_charts

  /** What the dashboard shows: the region bars and their category order,
      the pie's two totals, the division leaderboard and the three KPIs. */
  datatype Charts = Charts(
    regionTotals: seq<(string, int)>,
    regionOrder: Option<seq<string>>,
    maleTotal: int,
    femaleTotal: int,
    divisions: seq<DivisionEntry>,
    totalStudents: int,
    totalSchools: nat,
    mostEnrolled: string)

  /** `idxmax` of an empty aggregate raises ValueError. */
  datatype DashboardError = EmptyArgmax

  /** The second pass (app.py:233-252): 'Selected Grades Total' recomputed
      from the second column selection; like `BarRows`, a specification that
      `UpdateCharts` is proved to meet. */
  function ComboRows(rows: seq<Row>, columns: seq<string>, gradeColumns: seq<string>, grades: seq<string>, gender: string): seq<Row> {
    WithRowSums(rows, SelectedTotalColumn, SelectedColumns(columns, gradeColumns, grades, gender))
  }

  /** `update_charts`: the region filter, the bar pass, the pie totals, the
      second filter and column selection, then the division and KPI figures. */
  method UpdateCharts(data: Table, gradeColumns: seq<string>, regions: seq<string>, grades: seq<string>, gender: string)
    returns (r: Result<Charts, DashboardError>)
    ensures var bar := BarRows(ApplyRegionFilter(data.rows, regions), data.columns, gradeColumns, grades, gender);
      var combo := ComboRows(bar, data.columns, gradeColumns, grades, gender);
      && (r.Failure? <==> MostEnrolledDivision(combo).None?)
      && (r.Failure? <==> forall i :: 0 <= i < |ApplyRegionFilter(data.rows, regions)| ==>
            DivisionOf(ApplyRegionFilter(data.rows, regions)[i]).None?)
      && (r.Success? ==> r.value == Charts(
            RegionAggregate(bar), BarRegionOrder(RegionAggregate(bar)),
            FrameSum(bar, PieColumns(data.columns, gradeColumns, grades, "Male")),
            FrameSum(bar, PieColumns(data.columns, gradeColumns, grades, "Female")),
            Leaderboard(combo), TotalStudents(combo), TotalSchools(combo), MostEnrolledDivision(combo).value))
  {
    var filtered := data.rows;
    if regions != [] {
      filtered := FilterRegions(filtered, regions);
    }
    ghost var inRegions := filtered;
    if grades != [] {
      var cols := SelectGradeColumns(data.columns, grades, gender);
      filtered := WithRowSums(filtered, SelectedTotalColumn, cols);
    } else {
      filtered := WithCopiedColumn(filtered, SelectedTotalColumn, TotalEnrollmentColumn);
    }
    if gender == "Male" {
      filtered := WithRowSums(filtered, SelectedTotalColumn, ColumnsContaining(gradeColumns, "Male"));
    } else if gender == "Female" {
      filtered := WithRowSums(filtered, SelectedTotalColumn, ColumnsContaining(gradeColumns, "Female"));
    }
    assert filtered == BarRows(inRegions, data.columns, gradeColumns, grades, gender);
    var agg := RegionAggregate(filtered);
    var order := BarRegionOrder(agg);

    var maleCols: seq<string>;
    var femaleCols: seq<string>;
    if grades != [] {
      maleCols := ColumnsNamingGrades(data.columns, grades, "Male");
      femaleCols := ColumnsNamingGrades(data.columns, grades, "Female");
    } else {
      maleCols := ColumnsContaining(gradeColumns, "Male");
      femaleCols := ColumnsContaining(gradeColumns, "Female");
    }
    var maleTotal := FrameSum(filtered, maleCols);
    var femaleTotal := FrameSum(filtered, femaleCols);

    if regions != [] {
      SecondRegionFilterKeepsAll(data.rows, data.columns, gradeColumns, grades, gender, regions);
      filtered := FilterRegions(filtered, regions);
    }
    var selected: seq<string>;
    if grades != [] {
      selected := SelectGradeColumns(data.columns, grades, gender);
    } else if gender == "Male" {
      selected := ColumnsContaining(gradeColumns, "Male");
    } else if gender == "Female" {
      selected := ColumnsContaining(gradeColumns, "Female");
    } else {
      selected := gradeColumns;
    }
    filtered := WithRowSums(filtered, SelectedTotalColumn, selected);

    var board := Leaderboard(filtered);
    var students := TotalStudents(filtered);
    var schools := TotalSchools(filtered);
    var top := MostEnrolledDivision(filtered);
    NoDivisionAfterPasses(inRegions, data.columns, gradeColumns, grades, gender);
    if top.None? {
      return Failure(EmptyArgmax);
    }
    r := Success(Charts(agg, order, maleTotal, femaleTotal, board, students, schools, top.value));
  }

  // ------------------------------------------------------------ SHS track chart

  /** `if selected_year:` — no year, or the empty string, filters nothing. */
  predicate YearApplies(year: Option<string>) {
    year.Some? && year.value != ""
  }

  /** The record passes the three filters of `update_shs_track_chart`. */
  predicate KeptShs(rec: ShsRecord, year: Option<string>, regions: seq<string>, gender: string) {
    && (YearApplies(year) ==> rec.schoolYear == Text(year.value))
    && (regions != [] ==> rec.region.Text? && rec.region.s in regions)
    && (gender != "All" ==> rec.gender == gender)
  }

  function FilterYear(recs: seq<ShsRecord>, year: Option<string>): seq<ShsRecord> {
    if recs == [] then []
    else (if !YearApplies(year) || recs[0].schoolYear == Text(year.value) then [recs[0]] else [])
         + FilterYear(recs[1..], year)
  }

  function FilterShsRegions(recs: seq<ShsRecord>, regions: seq<string>): seq<ShsRecord> {
    if recs == [] then []
    else (if regions == [] || (recs[0].region.Text? && recs[0].region.s in regions) then [recs[0]] else [])
         + FilterShsRegions(recs[1..], regions)
  }

  function FilterGender(recs: seq<ShsRecord>, gender: string): seq<ShsRecord> {
    if recs == [] then []
    else (if gender == "All" || recs[0].gender == gender then [recs[0]] else [])
         + FilterGender(recs[1..], gender)
  }

  /** The records the chart keeps, in one pass. */
  function ShsFiltered(recs: seq<ShsRecord>, year: Option<string>, regions: seq<string>, gender: string): (r: seq<ShsRecord>)
    ensures forall x :: x in r <==> x in recs && KeptShs(x, year, regions, gender)
  {
    if recs == [] then []
    else (if KeptShs(recs[0], year, regions, gender) then [recs[0]] else []) + ShsFiltered(recs[1..], year, regions, gender)
  }

  /** The three filters applied one after another keep exactly the records
      that pass all three, in their order. */
  lemma {:induction false} ShsFilterChain(recs: seq<ShsRecord>, year: Option<string>, regions: seq<string>, gender: string)
    ensures FilterGender(FilterShsRegions(FilterYear(recs, year), regions), gender) == ShsFiltered(recs, year, regions, gender)
  {
    if recs != [] {
      ShsFilterChain(recs[1..], year, regions, gender);
      var y := if !YearApplies(year) || recs[0].schoolYear == Text(year.value) then [recs[0]] else [];
      FilterShsRegionsAppend(y, FilterYear(recs[1..], year), regions);
      var g := FilterShsRegions(y, regions);
      FilterGenderAppend(g, FilterShsRegions(FilterYear(recs[1..], year), regions), gender);
      if y != [] {
        assert y[1..] == [];
        if g != [] {
          assert g[1..] == [];
        }
      }
    }
  }

  lemma {:induction false} FilterShsRegionsAppend(a: seq<ShsRecord>, b: seq<ShsRecord>, regions: seq<string>)
    ensures FilterShsRegions(a + b, regions) == FilterShsRegions(a, regions) + FilterShsRegions(b, regions)
  {
    if a == [] {
      assert a + b == b;
    } else {
      assert (a + b)[1..] == a[1..] + b;
      FilterShsRegionsAppend(a[1..], b, regions);
    }
  }

  lemma {:induction false} FilterGenderAppend(a: seq<ShsRecord>, b: seq<ShsRecord>, gender: string)
    ensures FilterGender(a + b, gender) == FilterGender(a, gender) + FilterGender(b, gender)
  {
    if a == [] {
      assert a + b == b;
    } else {
      assert (a + b)[1..] == a[1..] + b;
      FilterGenderAppend(a[1..], b, gender);
    }
  }

  /** The (Track, Grade Level) group of a record; neither is ever NaN. */
  function TrackKey(rec: ShsRecord): Option<(string, string)> {
    Some((rec.track, rec.gradeLevel))
  }

  function EnrollmentOf(rec: ShsRecord): int {
    rec.totalEnrollment
  }

  /** Lexicographic order on (Track, Grade Level), as `groupby` sorts its keys. */
  predicate PairLess(a: (string, string), b: (string, string)) {
    LexLess(a.0, b.0) || (a.0 == b.0 && LexLess(a.1, b.1))
  }

  lemma PairLessIsStrictWeak()
    ensures StrictWeakOrder(PairLess)
    ensures forall a, b :: a == b || PairLess(a, b) || PairLess(b, a)
  {
    LexLessIsStrictWeak();
    forall a: (string, string), b: (string, string), c: (string, string) | PairLess(a, b) && PairLess(b, c)
      ensures PairLess(a, c)
    {
      if LexLess(a.0, b.0) && LexLess(b.0, c.0) {
        LexLessTransitive(a.0, b.0, c.0);
      } else if a.0 == b.0 && b.0 == c.0 {
        LexLessTransitive(a.1, b.1, c.1);
      }
    }
    forall a: (string, string), b: (string, string) ensures a == b || PairLess(a, b) || PairLess(b, a) {
      LexLessTotal(a.0, b.0);
      LexLessTotal(a.1, b.1);
    }
    forall a: (string, string) ensures !PairLess(a, a) {
      LexLessIrreflexive(a.0);
      LexLessIrreflexive(a.1);
    }
  }

  /** The SHS chart: a bar per (Track, Grade Level) group, or a placeholder figure. */
  datatype ShsChart = NoDataForFilters | NoDataToDisplay | TrackBars(groups: seq<((string, string), int)>)

  /** Filtering a frame without columns raises KeyError. */
  datatype ChartError = KeyError(column: string)

  /** `update_shs_track_chart` (app.py:385-413). */
  function UpdateShsTrackChart(records: seq<ShsRecord>, year: Option<string>, regions: seq<string>, gender: string): Result<ShsChart, ChartError> {
    if records == [] && YearApplies(year) then Failure(KeyError("School Year"))
    else if records == [] && regions != [] then Failure(KeyError("Region"))
    else if records == [] && gender != "All" then Failure(KeyError("Gender"))
    else
      var kept := FilterGender(FilterShsRegions(FilterYear(records, year), regions), gender);
      if kept == [] then Success(NoDataForFilters)
      else
        var grouped := TrackGroups(kept);
        if grouped == [] then Success(NoDataToDisplay) else Success(TrackBars(grouped))
  }

  /** The chart fails exactly when there are no SHS records at all and some
      filter applies; it shows the placeholder exactly when no record passes
      the filters; and the "no data to display" figure is never reached. */
  lemma ShsChartOutcomes(records: seq<ShsRecord>, year: Option<string>, regions: seq<string>, gender: string)
    ensures var r := UpdateShsTrackChart(records, year, regions, gender);
      && (r.Failure? <==> records == [] && (YearApplies(year) || regions != [] || gender != "All"))
      && (r == Success(NoDataForFilters) <==> r.Success? && ShsFiltered(records, year, regions, gender) == [])
      && r != Success(NoDataToDisplay)
  {
    ShsFilterChain(records, year, regions, gender);
    var kept := ShsFiltered(records, year, regions, gender);
    if kept != [] {
      PairLessIsStrictWeak();
      SortedKeysFacts(kept, TrackKey, PairLess);
      assert TrackKey(kept[0]).value in SortedKeys(kept, TrackKey, PairLess);
      assert |TrackGroups(kept)| > 0;
    }
  }

  /** The bars of `groupby(['Track', 'Grade Level'])['Total Enrollment'].sum()`. */
  function TrackGroups(kept: seq<ShsRecord>): seq<((string, string), int)> {
    GroupSums(kept, TrackKey, SortedKeys(kept, TrackKey, PairLess), EnrollmentOf)
  }

  /** The bars are the groups of the records that pass the filters. */
  lemma ShsChartBars(records: seq<ShsRecord>, year: Option<string>, regions: seq<string>, gender: string)
    requires UpdateShsTrackChart(records, year, regions, gender).Success?
    requires UpdateShsTrackChart(records, year, regions, gender).value.TrackBars?
    ensures UpdateShsTrackChart(records, year, regions, gender).value.groups
         == TrackGroups(ShsFiltered(records, year, regions, gender))
  {
    ShsFilterChain(records, year, regions, gender);
  }

  /** One bar per (Track, Grade Level) pair present among the records, each
      the sum of its records' enrollment. */
  lemma TrackGroupsKeys(kept: seq<ShsRecord>)
    ensures var groups := TrackGroups(kept);
      && (forall i :: 0 <= i < |groups| ==> groups[i].1 == SumWhere(kept, TrackKey, groups[i].0, EnrollmentOf))
      && (forall k :: k in GroupKeys(groups) <==> exists j :: 0 <= j < |kept| && TrackKey(kept[j]) == Some(k))
  {
    GroupSumsKeys(kept, TrackKey, SortedKeys(kept, TrackKey, PairLess), EnrollmentOf);
    SortedKeysMembers(kept, TrackKey, PairLess);
  }

  /** The bars come in sorted (Track, Grade Level) order, each pair once. */
  lemma TrackGroupsOrdered(kept: seq<ShsRecord>)
    ensures var groups := TrackGroups(kept);
      forall i, j :: 0 <= i < j < |groups| ==> PairLess(groups[i].0, groups[j].0)
  {
    PairLessIsStrictWeak();
    SortedKeysIncrease(kept, TrackKey, PairLess);
  }

  /** Together the bars hold the enrollment of every record. */
  lemma TrackGroupsTotal(kept: seq<ShsRecord>)
    ensures SumOf(TrackGroups(kept), PairValue) == SumOf(kept, EnrollmentOf)
  {
    var keys := SortedKeys(kept, TrackKey, PairLess);
    PairLessIsStrictWeak();
    SortedKeysFacts(kept, TrackKey, PairLess);
    GroupSumsTotal(kept, TrackKey, keys, EnrollmentOf);
    SumWhereInAll(kept, TrackKey, keys, EnrollmentOf);
    SumKeyedAll(kept, TrackKey, EnrollmentOf);
  }
}
