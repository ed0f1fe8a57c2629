/** The Senior High School track expansion of `app_data.py`: every G11/G12
    strand-and-gender column of every school row becomes one record per
    positive count, in row, grade, strand, gender order. */
module ShsTracks {

  import opened Wrappers
  import opened Strings
  import opened Frame

  const Strands: seq<string> := ["ABM", "HUMSS", "STEM", "GAS", "PBM", "TVL", "SPORTS", "ARTS & DESIGN"]
  const ShsGrades: seq<string> := ["G11", "G12"]
  const Genders: seq<string> := ["Male", "Female"]

  /** The strands whose columns are named by their first word, without "ACAD - ". */
  const WordStrands: seq<string> := ["TVL", "SPORTS", "ARTS & DESIGN"]

  /** The wide column holding one grade, strand and gender. */
  function SlotColumn(grade: string, strand: string, gender: string): string {
    if strand in WordStrands then grade + " " + UpTo(strand, ' ') + " " + gender
    else grade + " ACAD - " + strand + " " + gender
  }

  /** One long-format row of the SHS track frame. */
  datatype ShsRecord = ShsRecord(region: Cell, schoolYear: Cell, gender: string, gradeLevel: string, track: string, totalEnrollment: int)

  /** `float(value)` rejected a text cell. */
  datatype ShsError = ValueError(column: string, text: string)

  type Outcome = Result<seq<ShsRecord>, ShsError>

  /** Records from two steps in sequence; the first error wins. */
  function Then(a: Outcome, b: Outcome): (r: Outcome)
    ensures r.Success? <==> a.Success? && b.Success?
    ensures r.Success? ==> r.value == a.value + b.value
    ensures a.Failure? ==> r == a
    ensures a.Success? && b.Failure? ==> r == b
  {
    if a.Failure? then a else if b.Failure? then b else Success(a.value + b.value)
  }

  /** What one grade, strand and gender of one row contributes: nothing for
      an absent column, a NaN, "N/A" or a count that is not positive; one
      record for a positive count; an error for text that is not a number.
      The specification of the method `ReadSlot`, which stands for the source. */
  function SlotRecords(columns: seq<string>, row: Row, grade: string, strand: string, gender: string): Outcome {
    var col := SlotColumn(grade, strand, gender);
    if col !in columns then Success([])
    else
      match CellAt(row, col)
      case Missing => Success([])
      case Num(n) => Success(if n > 0 then [Record(row, grade, strand, gender, n)] else [])
      case Text(t) =>
        if t == "N/A" then Success([])
        else match ParseInt(t)
          case Some(n) => Success(if n > 0 then [Record(row, grade, strand, gender, n)] else [])
          case None => Failure(ValueError(col, t))
  }

  function Record(row: Row, grade: string, strand: string, gender: string, n: int): ShsRecord {
    ShsRecord(CellAt(row, "Region"), CellAt(row, "School Year"), gender, grade, strand, n)
  }

  /** What the gender loop of one strand produces: the specification of
      the method `ExpandStrand`, which stands for the source's loop. */
  function GendersRecords(columns: seq<string>, row: Row, grade: string, strand: string, genders: seq<string>): Outcome {
    if genders == [] then Success([])
    else Then(GendersRecords(columns, row, grade, strand, genders[..|genders| - 1]),
              SlotRecords(columns, row, grade, strand, genders[|genders| - 1]))
  }

  /** What the strand loop of one grade produces: the specification of the
      method `ExpandGrade`, which stands for the source's loop. */
  function StrandsRecords(columns: seq<string>, row: Row, grade: string, strands: seq<string>): Outcome {
    if strands == [] then Success([])
    else Then(StrandsRecords(columns, row, grade, strands[..|strands| - 1]),
              GendersRecords(columns, row, grade, strands[|strands| - 1], Genders))
  }

  /** What the grade loop of one row produces: the specification of the
      method `ExpandRow`, which stands for the source's loop. */
  function GradesRecords(columns: seq<string>, row: Row, grades: seq<string>): Outcome {
    if grades == [] then Success([])
    else Then(GradesRecords(columns, row, grades[..|grades| - 1]),
              StrandsRecords(columns, row, grades[|grades| - 1], Strands))
  }

  /** What the row loop produces: the specification of the method
      `BuildCombinedShsTrackDf`, which stands for the source's loop. */
  function RowsRecords(columns: seq<string>, rows: seq<Row>): Outcome {
    if rows == [] then Success([])
    else Then(RowsRecords(columns, rows[..|rows| - 1]), GradesRecords(columns, rows[|rows| - 1], ShsGrades))
  }

  /** The SHS track frame of a whole table. */
  function ShsTrackRecords(data: Table): Outcome {
    RowsRecords(data.columns, data.rows)
  }

  // ------------------------------------------------------------ the loops

  /** Reads one slot of one row: the body of the innermost loop. */
  method ReadSlot(columns: seq<string>, row: Row, grade: string, strand: string, gender: string) returns (r: Outcome)
    ensures r == SlotRecords(columns, row, grade, strand, gender)
  {
    var colName := SlotColumn(grade, strand, gender);
    if colName !in columns {
      return Success([]);
    }
    var value := CellAt(row, colName);
    var count := 0;
    if value.Num? {
      count := value.n;
    } else if value.Text? && value.s != "N/A" {
      var parsed := ParseInt(value.s);
      if parsed.None? {
        return Failure(ValueError(colName, value.s));
      }
      count := parsed.value;
    }
    if count > 0 {
      return Success([ShsRecord(CellAt(row, "Region"), CellAt(row, "School Year"), gender, grade, strand, count)]);
    }
    return Success([]);
  }

  /** The gender loop of one grade and strand. */
  method ExpandStrand(columns: seq<string>, row: Row, grade: string, strand: string) returns (r: Outcome)
    ensures r == GendersRecords(columns, row, grade, strand, Genders)
  {
    var records: seq<ShsRecord> := [];
    var xi := 0;
    while xi < |Genders|
      invariant 0 <= xi <= |Genders|
      invariant GendersRecords(columns, row, grade, strand, Genders[..xi]) == Success(records)
    {
      GendersStep(columns, row, grade, strand, Genders, xi);
      var found := ReadSlot(columns, row, grade, strand, Genders[xi]);
      if found.Failure? {
        GendersFailurePersists(columns, row, grade, strand, Genders, xi + 1);
        return found;
      }
      records := records + found.value;
      xi := xi + 1;
    }
    assert Genders[..xi] == Genders;
    return Success(records);
  }

  /** The strand loop of one grade. */
  method ExpandGrade(columns: seq<string>, row: Row, grade: string) returns (r: Outcome)
    ensures r == StrandsRecords(columns, row, grade, Strands)
  {
    var records: seq<ShsRecord> := [];
    var si := 0;
    while si < |Strands|
      invariant 0 <= si <= |Strands|
      invariant StrandsRecords(columns, row, grade, Strands[..si]) == Success(records)
    {
      StrandsStep(columns, row, grade, Strands, si);
      var found := ExpandStrand(columns, row, grade, Strands[si]);
      if found.Failure? {
        StrandsFailurePersists(columns, row, grade, Strands, si + 1);
        return found;
      }
      records := records + found.value;
      si := si + 1;
    }
    assert Strands[..si] == Strands;
    return Success(records);
  }

  /** The grade loop of one row. */
  method ExpandRow(columns: seq<string>, row: Row) returns (r: Outcome)
    ensures r == GradesRecords(columns, row, ShsGrades)
  {
    var records: seq<ShsRecord> := [];
    var gi := 0;
    while gi < |ShsGrades|
      invariant 0 <= gi <= |ShsGrades|
      invariant GradesRecords(columns, row, ShsGrades[..gi]) == Success(records)
    {
      GradesStep(columns, row, ShsGrades, gi);
      var found := ExpandGrade(columns, row, ShsGrades[gi]);
      if found.Failure? {
        GradesFailurePersists(columns, row, ShsGrades, gi + 1);
        return found;
      }
      records := records + found.value;
      gi := gi + 1;
    }
    assert ShsGrades[..gi] == ShsGrades;
    return Success(records);
  }

  /** Builds the SHS track records row by row, appending each row's records. */
  method BuildCombinedShsTrackDf(data: Table) returns (r: Outcome)
    ensures r == ShsTrackRecords(data)
  {
    var records: seq<ShsRecord> := [];
    var ri := 0;
    while ri < |data.rows|
      invariant 0 <= ri <= |data.rows|
      invariant RowsRecords(data.columns, data.rows[..ri]) == Success(records)
    {
      RowsStep(data.columns, data.rows, ri);
      var more := ExpandRow(data.columns, data.rows[ri]);
      if more.Failure? {
        RowsFailurePersists(data.columns, data.rows, ri + 1);
        return more;
      }
      records := records + more.value;
      ri := ri + 1;
    }
    assert data.rows[..ri] == data.rows;
    return Success(records);
  }

  // ------------------------------------------------------------ one loop step

  lemma GendersStep(columns: seq<string>, row: Row, grade: string, strand: string, genders: seq<string>, k: int)
    requires 0 <= k < |genders|
    ensures GendersRecords(columns, row, grade, strand, genders[..k + 1])
         == Then(GendersRecords(columns, row, grade, strand, genders[..k]), SlotRecords(columns, row, grade, strand, genders[k]))
  {
    assert genders[..k + 1][..k] == genders[..k];
  }

  lemma StrandsStep(columns: seq<string>, row: Row, grade: string, strands: seq<string>, k: int)
    requires 0 <= k < |strands|
    ensures StrandsRecords(columns, row, grade, strands[..k + 1])
         == Then(StrandsRecords(columns, row, grade, strands[..k]), GendersRecords(columns, row, grade, strands[k], Genders))
  {
    assert strands[..k + 1][..k] == strands[..k];
  }

  lemma GradesStep(columns: seq<string>, row: Row, grades: seq<string>, k: int)
    requires 0 <= k < |grades|
    ensures GradesRecords(columns, row, grades[..k + 1])
         == Then(GradesRecords(columns, row, grades[..k]), StrandsRecords(columns, row, grades[k], Strands))
  {
    assert grades[..k + 1][..k] == grades[..k];
  }

  lemma RowsStep(columns: seq<string>, rows: seq<Row>, k: int)
    requires 0 <= k < |rows|
    ensures RowsRecords(columns, rows[..k + 1]) == Then(RowsRecords(columns, rows[..k]), GradesRecords(columns, rows[k], ShsGrades))
  {
    assert rows[..k + 1][..k] == rows[..k];
  }

  // ------------------------------------------------------------ an error ends the expansion

  lemma {:induction false} GendersFailurePersists(columns: seq<string>, row: Row, grade: string, strand: string, genders: seq<string>, k: int)
    requires 0 <= k <= |genders| && GendersRecords(columns, row, grade, strand, genders[..k]).Failure?
    ensures GendersRecords(columns, row, grade, strand, genders) == GendersRecords(columns, row, grade, strand, genders[..k])
    decreases |genders| - k
  {
    if k < |genders| {
      assert genders[..k + 1][..k] == genders[..k];
      GendersFailurePersists(columns, row, grade, strand, genders, k + 1);
    } else {
      assert genders[..k] == genders;
    }
  }

  lemma {:induction false} StrandsFailurePersists(columns: seq<string>, row: Row, grade: string, strands: seq<string>, k: int)
    requires 0 <= k <= |strands| && StrandsRecords(columns, row, grade, strands[..k]).Failure?
    ensures StrandsRecords(columns, row, grade, strands) == StrandsRecords(columns, row, grade, strands[..k])
    decreases |strands| - k
  {
    if k < |strands| {
      assert strands[..k + 1][..k] == strands[..k];
      StrandsFailurePersists(columns, row, grade, strands, k + 1);
    } else {
      assert strands[..k] == strands;
    }
  }

  lemma {:induction false} GradesFailurePersists(columns: seq<string>, row: Row, grades: seq<string>, k: int)
    requires 0 <= k <= |grades| && GradesRecords(columns, row, grades[..k]).Failure?
    ensures GradesRecords(columns, row, grades) == GradesRecords(columns, row, grades[..k])
    decreases |grades| - k
  {
    if k < |grades| {
      assert grades[..k + 1][..k] == grades[..k];
      GradesFailurePersists(columns, row, grades, k + 1);
    } else {
      assert grades[..k] == grades;
    }
  }

  lemma {:induction false} RowsFailurePersists(columns: seq<string>, rows: seq<Row>, k: int)
    requires 0 <= k <= |rows| && RowsRecords(columns, rows[..k]).Failure?
    ensures RowsRecords(columns, rows) == RowsRecords(columns, rows[..k])
    decreases |rows| - k
  {
    if k < |rows| {
      assert rows[..k + 1][..k] == rows[..k];
      RowsFailurePersists(columns, rows, k + 1);
    } else {
      assert rows[..k] == rows;
    }
  }

  // ------------------------------------------------------------ properties

  /** The word strands are named by their first word, so that
      "ARTS & DESIGN" columns read "G11 ARTS Male". */
  lemma ArtsAndDesignWord()
    ensures UpTo("ARTS & DESIGN", ' ') == "ARTS"
  {
    UpToHead("ARTS", " & DESIGN", ' ');
    assert "ARTS" + " & DESIGN" == "ARTS & DESIGN";
  }

  lemma OneWordStrands()
    ensures UpTo("TVL", ' ') == "TVL" && UpTo("SPORTS", ' ') == "SPORTS"
  {
    UpToHead("TVL", "", ' ');
    UpToHead("SPORTS", "", ' ');
    assert "TVL" + "" == "TVL" && "SPORTS" + "" == "SPORTS";
  }

  /** A positive count in an SHS column is exactly one record. */
  /** The cell holds the count `n`: as a number, or as text other than
      "N/A" that reads as `n`. */
  predicate CountIs(cell: Cell, n: int) {
    cell == Num(n) || (cell.Text? && cell.s != "N/A" && ParseInt(cell.s) == Some(n))
  }

  lemma PositiveSlot(columns: seq<string>, row: Row, grade: string, strand: string, gender: string, n: int)
    requires SlotColumn(grade, strand, gender) in columns
    requires CountIs(CellAt(row, SlotColumn(grade, strand, gender)), n) && n > 0
    ensures SlotRecords(columns, row, grade, strand, gender) == Success([ShsRecord(CellAt(row, "Region"), CellAt(row, "School Year"), gender, grade, strand, n)])
  {
  }

  /** A record of this row for this grade and strand, with a positive count. */
  predicate FromSlot(rec: ShsRecord, row: Row, grade: string, strand: string) {
    && rec.region == CellAt(row, "Region")
    && rec.schoolYear == CellAt(row, "School Year")
    && rec.gradeLevel == grade
    && rec.track == strand
    && rec.totalEnrollment > 0
  }

  lemma SlotSound(columns: seq<string>, row: Row, grade: string, strand: string, gender: string)
    ensures var r := SlotRecords(columns, row, grade, strand, gender);
      r.Success? ==> |r.value| <= 1 && forall rec :: rec in r.value ==> FromSlot(rec, row, grade, strand) && rec.gender == gender
  {
  }

  /** The gender loop yields at most one record per gender, each from its slot. */
  lemma {:induction false} GendersSound(columns: seq<string>, row: Row, grade: string, strand: string, genders: seq<string>)
    ensures var r := GendersRecords(columns, row, grade, strand, genders);
      r.Success? ==> |r.value| <= |genders| && forall rec :: rec in r.value ==> FromSlot(rec, row, grade, strand) && rec.gender in genders
  {
    if genders != [] {
      var init := genders[..|genders| - 1];
      GendersSound(columns, row, grade, strand, init);
      SlotSound(columns, row, grade, strand, genders[|genders| - 1]);
      assert forall x :: x in init ==> x in genders;
    }
  }

  /** The strand loop yields at most two records per strand. */
  lemma {:induction false} StrandsSound(columns: seq<string>, row: Row, grade: string, strands: seq<string>)
    ensures var r := StrandsRecords(columns, row, grade, strands);
      r.Success? ==> |r.value| <= 2 * |strands| && forall rec :: rec in r.value ==>
        exists s :: s in strands && FromSlot(rec, row, grade, s) && rec.gender in Genders
  {
    if strands != [] {
      var init := strands[..|strands| - 1];
      var last := strands[|strands| - 1];
      StrandsSound(columns, row, grade, init);
      GendersSound(columns, row, grade, last, Genders);
      var r := StrandsRecords(columns, row, grade, strands);
      if r.Success? {
        forall rec | rec in r.value ensures exists s :: s in strands && FromSlot(rec, row, grade, s) && rec.gender in Genders {
          if rec in StrandsRecords(columns, row, grade, init).value {
            var s :| s in init && FromSlot(rec, row, grade, s) && rec.gender in Genders;
            assert s in strands;
          } else {
            assert last in strands;
          }
        }
      }
    }
  }

  /** The grade loop yields at most sixteen records per grade. */
  lemma {:induction false} GradesSound(columns: seq<string>, row: Row, grades: seq<string>)
    ensures var r := GradesRecords(columns, row, grades);
      r.Success? ==> |r.value| <= 16 * |grades| && forall rec :: rec in r.value ==>
        && rec.region == CellAt(row, "Region") && rec.schoolYear == CellAt(row, "School Year")
        && rec.gradeLevel in grades && rec.track in Strands && rec.gender in Genders && rec.totalEnrollment > 0
  {
    if grades != [] {
      var init := grades[..|grades| - 1];
      var last := grades[|grades| - 1];
      GradesSound(columns, row, init);
      StrandsSound(columns, row, last, Strands);
      assert forall g :: g in init ==> g in grades;
      assert last in grades;
    }
  }

  /** Every SHS record names one of the two grades, one of the two genders,
      one of the eight strands and a positive count; there are at most 32
      per school row. */
  lemma {:induction false} ShsRecordsWellFormed(columns: seq<string>, rows: seq<Row>)
    ensures var r := RowsRecords(columns, rows);
      r.Success? ==> |r.value| <= 32 * |rows| && forall rec :: rec in r.value ==>
        rec.gradeLevel in ShsGrades && rec.track in Strands && rec.gender in Genders && rec.totalEnrollment > 0
  {
    if rows != [] {
      ShsRecordsWellFormed(columns, rows[..|rows| - 1]);
      GradesSound(columns, rows[|rows| - 1], ShsGrades);
    }
  }

  /** Nothing is dropped: a positive count in an SHS column of any row
      shows up as its record. */
  lemma {:induction false} GendersComplete(columns: seq<string>, row: Row, grade: string, strand: string, genders: seq<string>, gender: string)
    requires gender in genders && GendersRecords(columns, row, grade, strand, genders).Success?
    ensures SlotRecords(columns, row, grade, strand, gender).Success?
    ensures forall rec :: rec in SlotRecords(columns, row, grade, strand, gender).value ==>
      rec in GendersRecords(columns, row, grade, strand, genders).value
  {
    var init := genders[..|genders| - 1];
    if gender != genders[|genders| - 1] {
      assert gender in init by {
        var i :| 0 <= i < |genders| && genders[i] == gender;
        assert init[i] == gender;
      }
      GendersComplete(columns, row, grade, strand, init, gender);
    }
  }

  lemma {:induction false} StrandsComplete(columns: seq<string>, row: Row, grade: string, strands: seq<string>, strand: string, gender: string)
    requires strand in strands && gender in Genders && StrandsRecords(columns, row, grade, strands).Success?
    ensures SlotRecords(columns, row, grade, strand, gender).Success?
    ensures forall rec :: rec in SlotRecords(columns, row, grade, strand, gender).value ==>
      rec in StrandsRecords(columns, row, grade, strands).value
  {
    var init := strands[..|strands| - 1];
    if strand != strands[|strands| - 1] {
      assert strand in init by {
        var i :| 0 <= i < |strands| && strands[i] == strand;
        assert init[i] == strand;
      }
      StrandsComplete(columns, row, grade, init, strand, gender);
    } else {
      GendersComplete(columns, row, grade, strand, Genders, gender);
    }
  }

  lemma {:induction false} GradesComplete(columns: seq<string>, row: Row, grades: seq<string>, grade: string, strand: string, gender: string)
    requires grade in grades && strand in Strands && gender in Genders && GradesRecords(columns, row, grades).Success?
    ensures SlotRecords(columns, row, grade, strand, gender).Success?
    ensures forall rec :: rec in SlotRecords(columns, row, grade, strand, gender).value ==>
      rec in GradesRecords(columns, row, grades).value
  {
    var init := grades[..|grades| - 1];
    if grade != grades[|grades| - 1] {
      assert grade in init by {
        var i :| 0 <= i < |grades| && grades[i] == grade;
        assert init[i] == grade;
      }
      GradesComplete(columns, row, init, grade, strand, gender);
    } else {
      StrandsComplete(columns, row, grade, Strands, strand, gender);
    }
  }

  /** Every record a slot of any row yields, whatever kind of cell it came
      from, is among the records of the whole frame. */
  lemma {:induction false} ShsRecordsComplete(columns: seq<string>, rows: seq<Row>, i: int, grade: string, strand: string, gender: string)
    requires 0 <= i < |rows| && RowsRecords(columns, rows).Success?
    requires grade in ShsGrades && strand in Strands && gender in Genders
    ensures SlotRecords(columns, rows[i], grade, strand, gender).Success?
    ensures forall rec :: rec in SlotRecords(columns, rows[i], grade, strand, gender).value ==>
      rec in RowsRecords(columns, rows).value
    decreases |rows|
  {
    var init := rows[..|rows| - 1];
    var whole := RowsRecords(columns, rows);
    assert whole == Then(RowsRecords(columns, init), GradesRecords(columns, rows[|rows| - 1], ShsGrades));
    if i < |rows| - 1 {
      assert init[i] == rows[i];
      ShsRecordsComplete(columns, init, i, grade, strand, gender);
    } else {
      GradesComplete(columns, rows[i], ShsGrades, grade, strand, gender);
    }
  }

  /** Every positive count in an SHS column of any row, numeric or text,
      appears in the frame as its record. */
  lemma ShsPositiveCountsRecorded(columns: seq<string>, rows: seq<Row>, i: int, grade: string, strand: string, gender: string, n: int)
    requires 0 <= i < |rows| && RowsRecords(columns, rows).Success?
    requires grade in ShsGrades && strand in Strands && gender in Genders
    requires SlotColumn(grade, strand, gender) in columns
    requires CountIs(CellAt(rows[i], SlotColumn(grade, strand, gender)), n) && n > 0
    ensures ShsRecord(CellAt(rows[i], "Region"), CellAt(rows[i], "School Year"), gender, grade, strand, n)
      in RowsRecords(columns, rows).value
  {
    ShsRecordsComplete(columns, rows, i, grade, strand, gender);
    PositiveSlot(columns, rows[i], grade, strand, gender, n);
  }
}
