/** The alternative cleaning pass: de-duplicate by planet name, coerce the
    discovery year, drop rows missing a radius, temperature or period, and
    only then coerce the measurement columns. Because de-duplication comes
    before the filter, and coercion after it, the order of the steps shows
    in the result. */
module DataExtraction {
  import opened Sequences
  import opened DataFrames

  /** The columns a row must have values in to survive. */
  const CriticalColumns: seq<string> := ["pl_rade", "pl_eqt", "pl_orbper"]

  /** The columns coerced after the filter, when the frame has them. */
  const NumericCols: seq<string> := ["pl_rade", "pl_eqt", "pl_orbper", "st_teff", "st_rad"]

  /** Every column the pass coerces: the discovery year first, then the rest. */
  const CoercedCols: seq<string> := ["disc_year"] + NumericCols

  /** The rows left after de-duplication, the discovery-year coercion and
      the filter on the critical columns. */
  function Complete(rows: seq<Row>, parse: Parser): seq<Row>
  {
    DropMissingIn(CoerceColumns(DropDuplicates(rows, "pl_name"), ["disc_year"], parse), CriticalColumns)
  }

  /** The rows the pass returns when it raises nothing. */
  function Extracted(rows: seq<Row>, parse: Parser): seq<Row>
  {
    CoerceColumns(Complete(rows, parse), NumericCols, parse)
  }

  /** What `clean_exoplanet_data` returns, or the `KeyError` it raises.
      `drop_duplicates` hands back a copy of an empty frame before it looks
      for `pl_name`; every other missing column raises. A frame with rows
      and no columns is empty too, but it has no `disc_year`, so the only
      empty frame that gets through has no rows, where de-duplicating and
      copying agree. */
  function CleanExtraction(columns: set<string>, rows: seq<Row>, parse: Parser): (result: Result<seq<Row>>)
    ensures result.KeyError? <==>
      (!IsEmptyFrame(columns, rows) && "pl_name" !in columns) ||
      "disc_year" !in columns || AbsentColumns(columns, CriticalColumns) != []
    ensures result.Ok? ==> result.value == Extracted(rows, parse)
  {
    if !IsEmptyFrame(columns, rows) && "pl_name" !in columns then KeyError(["pl_name"])
    else if "disc_year" !in columns then KeyError(["disc_year"])
    else if AbsentColumns(columns, CriticalColumns) != [] then KeyError(AbsentColumns(columns, CriticalColumns))
    else Ok(Extracted(rows, parse))
  }

  /** A surviving row after the filter: the first input row with its name,
      which had every critical value, with its discovery year coerced. */
  predicate FirstRowWithYear(x: Row, rows: seq<Row>, parse: Parser)
  {
    KeyOf(x, "pl_name") in KeysOf(rows, "pl_name") &&
    var first := rows[FirstIndex(rows, "pl_name", KeyOf(x, "pl_name"))];
    HasValues(first, CriticalColumns) && x == CoerceRow(first, ["disc_year"], parse)
  }

  /** A row of the result: the first input row with its name, which had
      every critical value, with every coerced column coerced. */
  predicate FromFirstCompleteRow(out: Row, rows: seq<Row>, parse: Parser)
  {
    KeyOf(out, "pl_name") in KeysOf(rows, "pl_name") &&
    var first := rows[FirstIndex(rows, "pl_name", KeyOf(out, "pl_name"))];
    HasValues(first, CriticalColumns) && out == CoerceRow(first, CoercedCols, parse)
  }

  /** Coercing the discovery year touches neither the name nor a critical
      value. */
  lemma YearCoercionKeeps(r: Row, parse: Parser)
    ensures KeyOf(CoerceRow(r, ["disc_year"], parse), "pl_name") == KeyOf(r, "pl_name")
    ensures HasValues(CoerceRow(r, ["disc_year"], parse), CriticalColumns) == HasValues(r, CriticalColumns)
  {
    var s := CoerceRow(r, ["disc_year"], parse);
    assert "pl_name" !in ["disc_year"];
    forall j | 0 <= j < |CriticalColumns|
      ensures CriticalColumns[j] in s <==> CriticalColumns[j] in r
      ensures CriticalColumns[j] in r ==> s[CriticalColumns[j]] == r[CriticalColumns[j]]
    {
      assert CriticalColumns[j] !in ["disc_year"];
    }
  }

  /** A row after the filter is a row after the year coercion that had
      every critical value. */
  lemma CompleteRowFrom(rows: seq<Row>, parse: Parser, i: nat) returns (j: nat)
    requires i < |Complete(rows, parse)|
    ensures j < |DropDuplicates(rows, "pl_name")|
    ensures Complete(rows, parse)[i] == CoerceRow(DropDuplicates(rows, "pl_name")[j], ["disc_year"], parse)
    ensures HasValues(Complete(rows, parse)[i], CriticalColumns)
  {
    var withYears := CoerceColumns(DropDuplicates(rows, "pl_name"), ["disc_year"], parse);
    var complete := Complete(rows, parse);
    SubseqMembers(complete, withYears);
    assert complete[i] in withYears;
    j :| 0 <= j < |withYears| && withYears[j] == complete[i];
  }

  lemma CompleteRowIsFirst(rows: seq<Row>, parse: Parser, i: nat)
    requires i < |Complete(rows, parse)|
    ensures FirstRowWithYear(Complete(rows, parse)[i], rows, parse)
  {
    var deduped := DropDuplicates(rows, "pl_name");
    var x := Complete(rows, parse)[i];
    var j := CompleteRowFrom(rows, parse, i);
    DropDuplicatesKeepsFirst(rows, "pl_name");
    assert deduped[j] == rows[FirstIndex(rows, "pl_name", KeyOf(deduped[j], "pl_name"))];
    YearCoercionKeeps(deduped[j], parse);
  }

  lemma NameNotCoerced()
    ensures "pl_name" !in NumericCols && CoercedCols == ["disc_year"] + NumericCols
  {
  }

  lemma ExtractedAt(rows: seq<Row>, parse: Parser, i: nat)
    requires i < |Extracted(rows, parse)|
    ensures i < |Complete(rows, parse)|
    ensures Extracted(rows, parse)[i] == CoerceRow(Complete(rows, parse)[i], NumericCols, parse)
  {
  }

  lemma ExtractedRowIsFirst(rows: seq<Row>, parse: Parser, i: nat)
    requires i < |Extracted(rows, parse)|
    ensures FromFirstCompleteRow(Extracted(rows, parse)[i], rows, parse)
  {
    ExtractedAt(rows, parse, i);
    var x := Complete(rows, parse)[i];
    CompleteRowIsFirst(rows, parse, i);
    NameNotCoerced();
    CoerceKeepsKey(x, NumericCols, "pl_name", parse);
    var first := rows[FirstIndex(rows, "pl_name", KeyOf(x, "pl_name"))];
    assert x == CoerceRow(first, ["disc_year"], parse);
    CoerceRowTwice(first, ["disc_year"], NumericCols, parse);
  }

  /** Every row of the result is the coerced copy of the FIRST input row
      carrying its planet name, and that row had a radius, a temperature and
      a period before any coercion. */
  lemma ExtractedKeepsFirstRows(rows: seq<Row>, parse: Parser)
    ensures forall i :: 0 <= i < |Extracted(rows, parse)| ==>
      FromFirstCompleteRow(Extracted(rows, parse)[i], rows, parse)
  {
    forall i | 0 <= i < |Extracted(rows, parse)|
      ensures FromFirstCompleteRow(Extracted(rows, parse)[i], rows, parse)
    {
      ExtractedRowIsFirst(rows, parse, i);
    }
  }

  /** A planet whose first row has every critical value passes the filter. */
  lemma CompleteKeepsPlanet(rows: seq<Row>, parse: Parser, name: Cell)
    requires name in KeysOf(rows, "pl_name")
    requires HasValues(rows[FirstIndex(rows, "pl_name", name)], CriticalColumns)
    ensures name in KeysOf(Complete(rows, parse), "pl_name")
  {
    var deduped := DropDuplicates(rows, "pl_name");
    var j := FirstIndex(deduped, "pl_name", name);
    DropDuplicatesKeepsFirst(rows, "pl_name");
    assert deduped[j] == rows[FirstIndex(rows, "pl_name", name)];
    CompleteHasYearRow(rows, parse, j);
    YearCoercionKeeps(deduped[j], parse);
    KeyOfMember(Complete(rows, parse), CoerceRow(deduped[j], ["disc_year"], parse), "pl_name");
  }

  /** A de-duplicated row with every critical value passes the filter once
      its year is coerced. */
  lemma CompleteHasYearRow(rows: seq<Row>, parse: Parser, j: nat)
    requires j < |DropDuplicates(rows, "pl_name")|
    requires HasValues(DropDuplicates(rows, "pl_name")[j], CriticalColumns)
    ensures CoerceRow(DropDuplicates(rows, "pl_name")[j], ["disc_year"], parse) in Complete(rows, parse)
  {
    var deduped := DropDuplicates(rows, "pl_name");
    var withYears := CoerceColumns(deduped, ["disc_year"], parse);
    YearCoercionKeeps(deduped[j], parse);
    CoerceColumnsAt(deduped, ["disc_year"], parse, j);
    DropMissingInKeepsRow(withYears, CriticalColumns, j);
  }

  /** The converse of `ExtractedKeepsFirstRows`: every planet whose first
      row has a radius, a temperature and a period is in the result. */
  lemma ExtractedKeepsCompletePlanets(rows: seq<Row>, parse: Parser, name: Cell)
    requires name in KeysOf(rows, "pl_name")
    requires HasValues(rows[FirstIndex(rows, "pl_name", name)], CriticalColumns)
    ensures name in KeysOf(Extracted(rows, parse), "pl_name")
  {
    CompleteKeepsPlanet(rows, parse, name);
    NameNotCoerced();
    CoerceFirstIndex(Complete(rows, parse), NumericCols, "pl_name", name, parse);
  }

  /** De-duplication runs before the filter: a planet whose first row lacks
      a radius, a temperature or a period is gone from the result, even when
      a later row of the same planet has all three. */
  lemma IncompleteFirstRowDropsPlanet(rows: seq<Row>, parse: Parser, name: Cell)
    requires name in KeysOf(rows, "pl_name")
    requires !HasValues(rows[FirstIndex(rows, "pl_name", name)], CriticalColumns)
    ensures name !in KeysOf(Extracted(rows, parse), "pl_name")
  {
    ExtractedKeepsFirstRows(rows, parse);
  }

  /** The result keeps input order and is no longer than the input. */
  lemma ExtractedOrdered(rows: seq<Row>, parse: Parser)
    ensures SubseqOf(Extracted(rows, parse), CoerceColumns(rows, CoercedCols, parse))
    ensures |Extracted(rows, parse)| <= |rows|
  {
    var deduped := DropDuplicates(rows, "pl_name");
    var withYears := CoerceColumns(deduped, ["disc_year"], parse);
    var complete := Complete(rows, parse);
    CoercePreservesSubseq(deduped, rows, ["disc_year"], parse);
    SubseqTrans(complete, withYears, CoerceColumns(rows, ["disc_year"], parse));
    CoercePreservesSubseq(complete, CoerceColumns(rows, ["disc_year"], parse), NumericCols, parse);
    CoerceColumnsTwice(rows, ["disc_year"], NumericCols, parse);
    SubseqShorter(Extracted(rows, parse), CoerceColumns(rows, CoercedCols, parse));
  }

  /** Planet names in the result are distinct. */
  lemma ExtractedDistinctNames(rows: seq<Row>, parse: Parser)
    ensures DistinctKeys(Extracted(rows, parse), "pl_name")
  {
    var deduped := DropDuplicates(rows, "pl_name");
    var withYears := CoerceColumns(deduped, ["disc_year"], parse);
    CoerceKeepsDistinctKeys(deduped, ["disc_year"], "pl_name", parse);
    SubseqKeepsDistinctKeys(Complete(rows, parse), withYears, "pl_name");
    CoerceKeepsDistinctKeys(Complete(rows, parse), NumericCols, "pl_name", parse);
  }

  lemma CriticalAreCoerced(c: string)
    requires c in CriticalColumns
    ensures c in CoercedCols
  {
  }

  /** Coercion runs after the filter, so a critical value that was text when
      the filter looked at it can be missing in the result: exactly when it
      was text that does not read as a number. */
  lemma MissingCriticalAfterCoercion(rows: seq<Row>, parse: Parser, i: nat, c: string)
    requires i < |Extracted(rows, parse)| && c in CriticalColumns
    ensures FromFirstCompleteRow(Extracted(rows, parse)[i], rows, parse)
    ensures c in Extracted(rows, parse)[i]
    ensures Extracted(rows, parse)[i][c] == Missing <==>
      var first := rows[FirstIndex(rows, "pl_name", KeyOf(Extracted(rows, parse)[i], "pl_name"))];
      first[c].Text? && parse(first[c].s).None?
  {
    var out := Extracted(rows, parse);
    ExtractedRowIsFirst(rows, parse, i);
    var first := rows[FirstIndex(rows, "pl_name", KeyOf(out[i], "pl_name"))];
    HasValuesAt(first, CriticalColumns, c);
    CriticalAreCoerced(c);
  }

  /** Only the discovery year and the listed measurement columns change:
      every other cell of a result row is the cell of its first input row. */
  lemma OtherColumnsUnchanged(rows: seq<Row>, parse: Parser, i: nat, c: string)
    requires i < |Extracted(rows, parse)| && c !in CoercedCols
    ensures FromFirstCompleteRow(Extracted(rows, parse)[i], rows, parse)
    ensures
      var first := rows[FirstIndex(rows, "pl_name", KeyOf(Extracted(rows, parse)[i], "pl_name"))];
      c in Extracted(rows, parse)[i] <==> c in first
    ensures c in Extracted(rows, parse)[i] ==>
      var first := rows[FirstIndex(rows, "pl_name", KeyOf(Extracted(rows, parse)[i], "pl_name"))];
      Extracted(rows, parse)[i][c] == first[c]
  {
    ExtractedRowIsFirst(rows, parse, i);
  }

  lemma LoneRowComplete(row: Row, parse: Parser)
    requires HasValues(row, CriticalColumns)
    ensures Complete([row], parse) == [CoerceRow(row, ["disc_year"], parse)]
  {
    DropDuplicatesLone(row, "pl_name");
    var withYear := CoerceRow(row, ["disc_year"], parse);
    CoerceColumnsLone(row, ["disc_year"], parse);
    forall j | 0 <= j < |CriticalColumns|
      ensures CriticalColumns[j] in withYear && withYear[CriticalColumns[j]] != Missing
    {
      assert CriticalColumns[j] !in ["disc_year"];
    }
    DropMissingInLone(withYear, CriticalColumns);
  }

  /** A lone row with every critical value present survives, coerced. */
  lemma LoneCompleteRowKept(row: Row, parse: Parser)
    requires HasValues(row, CriticalColumns)
    ensures Extracted([row], parse) == [CoerceRow(row, CoercedCols, parse)]
  {
    LoneRowComplete(row, parse);
    var withYear := CoerceRow(row, ["disc_year"], parse);
    CoerceColumnsLone(withYear, NumericCols, parse);
    CoerceRowTwice(row, ["disc_year"], NumericCols, parse);
    assert CoercedCols == ["disc_year"] + NumericCols;
  }

  /** An instance of `MissingCriticalAfterCoercion`: a lone row whose radius
      is unreadable text passes the filter and comes out with a missing
      radius. */
  lemma UnreadableRadiusSurvivesAsMissing(parse: Parser, row: Row)
    requires parse("n/a").None?
    requires row == map["pl_name" := Text("Kepler-7 b"), "disc_year" := Num(2010.0),
                        "pl_rade" := Text("n/a"), "pl_eqt" := Num(1540.0), "pl_orbper" := Num(4.9)]
    ensures CleanExtraction(row.Keys, [row], parse).Ok?
    ensures |CleanExtraction(row.Keys, [row], parse).value| == 1
    ensures CleanExtraction(row.Keys, [row], parse).value[0]["pl_rade"] == Missing
  {
    NoAbsentColumns(row.Keys, CriticalColumns);
    assert HasValues(row, CriticalColumns);
    LoneCompleteRowKept(row, parse);
    CriticalAreCoerced("pl_rade");
  }

  /** A case of `IncompleteFirstRowDropsPlanet`: a planet listed twice,
      first without some critical value and then, say, with all of them,
      is gone. */
  lemma LaterCompleteDuplicateIgnored(parse: Parser, early: Row, late: Row)
    requires KeyOf(early, "pl_name") == KeyOf(late, "pl_name")
    requires !HasValues(early, CriticalColumns)
    ensures Extracted([early, late], parse) == []
  {
    var rows, name := [early, late], KeyOf(early, "pl_name");
    assert KeyOf(rows[0], "pl_name") == name;
    assert FirstIndex(rows, "pl_name", name) == 0;
    IncompleteFirstRowDropsPlanet(rows, parse, name);
    ExtractedKeepsFirstRows(rows, parse);
    assert KeysOf(rows, "pl_name") == {name};
  }

  /** The last two steps: drop the rows of `frame` that lack a critical
      value, into a new frame, and coerce its measurement columns. */
  method DropIncompleteAndCoerce(frame: DataFrame, parse: Parser) returns (result: DataFrame)
    requires frame.Valid() && AbsentColumns(frame.columns, CriticalColumns) == []
    ensures fresh(result) && result.Valid() && result.columns == frame.columns
    ensures result.rows == CoerceColumns(DropMissingIn(frame.rows, CriticalColumns), NumericCols, parse)
  {
    SubseqWellFormed(frame.columns, DropMissingIn(frame.rows, CriticalColumns), frame.rows);
    result := new DataFrame(frame.columns, DropMissingIn(frame.rows, CriticalColumns));
    result.ToNumericColumns(NumericCols, parse);
  }

  /** De-duplication by planet name into a new frame (data_extraction.py:10);
      an empty frame is copied as it is. */
  method Deduplicate(df: DataFrame) returns (frame: DataFrame)
    requires df.Valid() && (df.Empty() || "pl_name" in df.columns)
    ensures fresh(frame) && frame.Valid() && frame.columns == df.columns
    ensures frame.rows == if df.Empty() then df.rows else DropDuplicates(df.rows, "pl_name")
  {
    var deduped := if df.Empty() then df.rows else DropDuplicates(df.rows, "pl_name");
    SubseqRefl(df.rows);
    SubseqWellFormed(df.columns, deduped, df.rows);
    frame := new DataFrame(df.columns, deduped);
  }

  /** `clean_exoplanet_data(df)`: every step works on a copy, so the
      caller's frame is left as it was. */
  method CleanExoplanetData(df: DataFrame, parse: Parser) returns (r: Result<DataFrame>)
    requires df.Valid()
    ensures r.KeyError? ==> CleanExtraction(df.columns, df.rows, parse) == KeyError(r.columns)
    ensures r.Ok? ==> fresh(r.value) && r.value.Valid() && r.value.columns == df.columns
    ensures r.Ok? ==> CleanExtraction(df.columns, df.rows, parse) == Ok(r.value.rows)
  {
    if !df.Empty() && "pl_name" !in df.columns {
      return KeyError(["pl_name"]);
    }
    var frame := Deduplicate(df);
    if "disc_year" !in frame.columns {
      return KeyError(["disc_year"]);
    }
    // an empty frame that has `disc_year` has no rows
    assert frame.rows == DropDuplicates(df.rows, "pl_name");
    frame.ToNumericColumns(["disc_year"], parse);
    var absent := AbsentColumns(frame.columns, CriticalColumns);
    if absent != [] {
      return KeyError(absent);
    }
    var result := DropIncompleteAndCoerce(frame, parse);
    return Ok(result);
  }
}
