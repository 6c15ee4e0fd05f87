/** The part of a pandas DataFrame that the two cleaning passes touch: a
    table of rows keyed by column name, numeric coercion of a column,
    `dropna` (whole-row and by a subset of columns), `drop_duplicates`
    keeping the first row of each key, and in-place column assignment. */
module DataFrames {
  import opened Sequences

  datatype Option<T> = None | Some(value: T)

  /** One cell of the archive's table: a number, a string, or a missing
      value (a JSON null, or NaN once pandas has read it). */
  datatype Cell = Num(x: real) | Text(s: string) | Missing

  /** A row maps each column of its frame to a cell. A column the frame
      does not have is a key the row does not have. */
  type Row = map<string, Cell>

  /** How pandas reads a string as a number; `None` for a string it cannot
      read. This is library code, so the model takes it as a parameter. */
  type Parser = string -> Option<real>

  /** An operation that either succeeds or raises `KeyError` naming the
      columns it looked for and did not find. */
  datatype Result<T> = Ok(value: T) | KeyError(columns: seq<string>)

  /** Every row has exactly the frame's columns. */
  predicate WellFormed(columns: set<string>, rows: seq<Row>)
  {
    forall r :: r in rows ==> r.Keys == columns
  }

  /** `DataFrame.empty`: no rows, or no columns. */
  predicate IsEmptyFrame(columns: set<string>, rows: seq<Row>)
  {
    |rows| == 0 || |columns| == 0
  }

  /** The number in a cell, if there is one. A missing value, a string and
      an absent column all give `None`, and every comparison pandas makes
      against `None` (NaN) is false. */
  function NumericValue(r: Row, col: string): Option<real>
  {
    if col in r && r[col].Num? then Some(r[col].x) else None
  }

  // ---------------------------------------------------------------------
  // pd.to_numeric(..., errors='coerce')

  /** Numbers stay, missing values stay missing, a string becomes the
      number it spells or, when it spells none, a missing value. */
  function ToNumeric(c: Cell, parse: Parser): (d: Cell)
    ensures !d.Text?
    ensures c.Num? ==> d == c
    ensures d.Missing? <==> c.Missing? || (c.Text? && parse(c.s).None?)
  {
    match c
    case Num(_) => c
    case Missing => Missing
    case Text(s) => if parse(s).Some? then Num(parse(s).value) else Missing
  }

  /** A row once each column of `cols` that it has was replaced by its
      numeric coercion. */
  function CoerceRow(r: Row, cols: seq<string>, parse: Parser): (s: Row)
    ensures s.Keys == r.Keys
    ensures forall c :: c in r && c !in cols ==> s[c] == r[c]
    ensures forall c :: c in r && c in cols ==> s[c] == ToNumeric(r[c], parse) && !s[c].Text?
  {
    map c | c in r :: if c in cols then ToNumeric(r[c], parse) else r[c]
  }

  function CoerceColumns(rows: seq<Row>, cols: seq<string>, parse: Parser): seq<Row>
  {
    seq(|rows|, i requires 0 <= i < |rows| => CoerceRow(rows[i], cols, parse))
  }

  lemma CoerceColumnsAt(rows: seq<Row>, cols: seq<string>, parse: Parser, i: nat)
    requires i < |rows|
    ensures |CoerceColumns(rows, cols, parse)| == |rows|
    ensures CoerceColumns(rows, cols, parse)[i] == CoerceRow(rows[i], cols, parse)
  {
  }

  lemma CoerceNothing(r: Row, parse: Parser)
    ensures CoerceRow(r, [], parse) == r
  {
    var s := CoerceRow(r, [], parse);
    assert forall c :: c in r ==> s[c] == r[c];
  }

  /** Coercing twice is coercing once with both lists: no string survives
      coercion, so a column coerced again does not change. */
  lemma CoerceRowTwice(r: Row, first: seq<string>, second: seq<string>, parse: Parser)
    ensures CoerceRow(CoerceRow(r, first, parse), second, parse) == CoerceRow(r, first + second, parse)
  {
    var lhs := CoerceRow(CoerceRow(r, first, parse), second, parse);
    var rhs := CoerceRow(r, first + second, parse);
    forall c | c in r
      ensures lhs[c] == rhs[c]
    {
      assert c in first + second <==> c in first || c in second;
    }
  }

  /** `pd.to_numeric(values, errors='coerce')` on a whole column. */
  function ToNumericAll(values: seq<Cell>, parse: Parser): (out: seq<Cell>)
    ensures |out| == |values|
  {
    seq(|values|, i requires 0 <= i < |values| => ToNumeric(values[i], parse))
  }

  /** Coercing one more column of the list, in place, extends the list by
      that column; a column the row lacks is skipped (`if col in df.columns`). */
  lemma CoerceOneMore(r: Row, cols: seq<string>, col: string, parse: Parser)
    ensures col in r ==>
      CoerceRow(r, cols, parse)[col := ToNumeric(CoerceRow(r, cols, parse)[col], parse)] == CoerceRow(r, cols + [col], parse)
    ensures col !in r ==> CoerceRow(r, cols, parse) == CoerceRow(r, cols + [col], parse)
  {
    var before, after := CoerceRow(r, cols, parse), CoerceRow(r, cols + [col], parse);
    forall c | c in r
      ensures c != col ==> before[c] == after[c]
    {
      assert c in cols + [col] <==> c in cols || c == col;
    }
    if col in r {
      assert col in cols + [col];
      var updated := before[col := ToNumeric(before[col], parse)];
      assert updated.Keys == after.Keys;
      forall c | c in updated ensures updated[c] == after[c] { }
    } else {
      assert before.Keys == after.Keys;
      forall c | c in before ensures before[c] == after[c] { }
    }
  }

  /** Coercion keeps the frame's shape and commutes with deleting rows. */
  lemma {:induction false} CoercePreservesSubseq(xs: seq<Row>, ys: seq<Row>, cols: seq<string>, parse: Parser)
    requires SubseqOf(xs, ys)
    ensures SubseqOf(CoerceColumns(xs, cols, parse), CoerceColumns(ys, cols, parse))
    decreases |ys|
  {
    var cx, cy := CoerceColumns(xs, cols, parse), CoerceColumns(ys, cols, parse);
    if xs != [] {
      assert Init(cx) == CoerceColumns(Init(xs), cols, parse);
      assert Init(cy) == CoerceColumns(Init(ys), cols, parse);
      if Last(xs) == Last(ys) && SubseqOf(Init(xs), Init(ys)) {
        CoercePreservesSubseq(Init(xs), Init(ys), cols, parse);
      } else {
        CoercePreservesSubseq(xs, Init(ys), cols, parse);
      }
    }
  }

  lemma CoerceColumnsLone(r: Row, cols: seq<string>, parse: Parser)
    ensures CoerceColumns([r], cols, parse) == [CoerceRow(r, cols, parse)]
  {
  }

  /** Two coercion passes over a frame are one pass over both lists. */
  lemma CoerceColumnsTwice(rows: seq<Row>, first: seq<string>, second: seq<string>, parse: Parser)
    ensures CoerceColumns(CoerceColumns(rows, first, parse), second, parse) == CoerceColumns(rows, first + second, parse)
  {
    forall i | 0 <= i < |rows|
      ensures CoerceColumns(CoerceColumns(rows, first, parse), second, parse)[i] == CoerceColumns(rows, first + second, parse)[i]
    {
      CoerceRowTwice(rows[i], first, second, parse);
    }
  }

  lemma CoercePreservesWellFormed(columns: set<string>, rows: seq<Row>, cols: seq<string>, parse: Parser)
    requires WellFormed(columns, rows)
    ensures WellFormed(columns, CoerceColumns(rows, cols, parse))
  {
    var out := CoerceColumns(rows, cols, parse);
    forall r | r in out
      ensures r.Keys == columns
    {
      var i :| 0 <= i < |out| && out[i] == r;
      assert rows[i] in rows;
    }
  }

  // ---------------------------------------------------------------------
  // DataFrame.dropna

  /** `dropna(how='all')` drops the rows all of whose cells are missing. */
  predicate AllMissing(r: Row)
  {
    forall c :: c in r ==> r[c] == Missing
  }

  predicate NotAllMissing(r: Row)
  {
    !AllMissing(r)
  }

  /** `dropna(subset=...)` keeps a row when none of the subset's cells is missing. */
  predicate HasValues(r: Row, subset: seq<string>)
  {
    forall j :: 0 <= j < |subset| ==> subset[j] in r && r[subset[j]] != Missing
  }

  lemma HasValuesAt(r: Row, subset: seq<string>, c: string)
    requires HasValues(r, subset) && c in subset
    ensures c in r && r[c] != Missing
  {
    var j :| 0 <= j < |subset| && subset[j] == c;
  }

  function DropAllMissing(rows: seq<Row>): seq<Row>
  {
    Filter(rows, NotAllMissing)
  }

  function DropMissingIn(rows: seq<Row>, subset: seq<string>): seq<Row>
  {
    Filter(rows, r => HasValues(r, subset))
  }

  /** `dropna(how='all')` keeps, in order, every copy of every row that has
      at least one present cell, and nothing else. An empty string is a
      present cell: only `Missing` counts as missing. */
  lemma DropAllMissingExact(rows: seq<Row>)
    ensures SubseqOf(DropAllMissing(rows), rows)
    ensures forall r ::
              multiset(DropAllMissing(rows))[r] ==
              (if exists c :: c in r && r[c] != Missing then multiset(rows)[r] else 0)
  {
    FilterKeepsCount(rows, NotAllMissing);
  }

  /** `dropna(subset=...)` keeps, in order, every copy of every row whose
      subset cells are all present, and nothing else; again only `Missing`
      counts as missing, so text of any kind keeps a row. */
  lemma DropMissingInExact(rows: seq<Row>, subset: seq<string>)
    ensures SubseqOf(DropMissingIn(rows, subset), rows)
    ensures forall r ::
              multiset(DropMissingIn(rows, subset))[r] ==
              (if forall c :: c in subset ==> c in r && r[c] != Missing then multiset(rows)[r] else 0)
  {
    FilterKeepsCount(rows, r => HasValues(r, subset));
  }

  /** A row whose subset cells are all present survives `dropna(subset=...)`. */
  lemma DropMissingInKeepsRow(rows: seq<Row>, subset: seq<string>, i: nat)
    requires i < |rows| && HasValues(rows[i], subset)
    ensures rows[i] in DropMissingIn(rows, subset)
  {
  }

  lemma DropMissingInLone(r: Row, subset: seq<string>)
    requires HasValues(r, subset)
    ensures DropMissingIn([r], subset) == [r]
  {
    assert Init([r]) == [];
  }

  /** The columns of `subset` that the frame does not have, in `subset`'s
      order; `dropna(subset=...)` raises `KeyError` listing them. */
  function AbsentColumns(columns: set<string>, subset: seq<string>): (absent: seq<string>)
    ensures forall c :: c in absent <==> c in subset && c !in columns
  {
    if subset == [] then []
    else
      assert subset == Init(subset) + [Last(subset)];
      AbsentColumns(columns, Init(subset)) + (if Last(subset) in columns then [] else [Last(subset)])
  }

  /** Nothing is reported absent when the frame has every subset column. */
  lemma {:induction false} NoAbsentColumns(columns: set<string>, subset: seq<string>)
    requires forall c :: c in subset ==> c in columns
    ensures AbsentColumns(columns, subset) == []
    decreases |subset|
  {
    if subset != [] {
      assert subset == Init(subset) + [Last(subset)];
      NoAbsentColumns(columns, Init(subset));
    }
  }

  /** Deleting rows keeps every remaining row's columns. */
  lemma SubseqWellFormed(columns: set<string>, xs: seq<Row>, ys: seq<Row>)
    requires SubseqOf(xs, ys) && WellFormed(columns, ys)
    ensures WellFormed(columns, xs)
  {
    SubseqMembers(xs, ys);
  }

  // ---------------------------------------------------------------------
  // DataFrame.drop_duplicates(subset=key, keep='first')

  /** The key cell of a row; pandas compares missing keys as equal to one another. */
  function KeyOf(r: Row, key: string): Cell
  {
    if key in r then r[key] else Missing
  }

  /** The keys that occur in `rows`. */
  function KeysOf(rows: seq<Row>, key: string): (keys: set<Cell>)
    ensures forall i :: 0 <= i < |rows| ==> KeyOf(rows[i], key) in keys
    ensures forall k :: k in keys ==> exists i :: 0 <= i < |rows| && KeyOf(rows[i], key) == k
    decreases |rows|
  {
    if rows == [] then {}
    else
      assert rows == Init(rows) + [Last(rows)];
      KeysOf(Init(rows), key) + {KeyOf(Last(rows), key)}
  }

  lemma KeyOfMember(rows: seq<Row>, r: Row, key: string)
    requires r in rows
    ensures KeyOf(r, key) in KeysOf(rows, key)
  {
    var i :| 0 <= i < |rows| && rows[i] == r;
  }

  predicate DistinctKeys(rows: seq<Row>, key: string)
  {
    forall i, j :: 0 <= i < j < |rows| ==> KeyOf(rows[i], key) != KeyOf(rows[j], key)
  }

  /** The position of the first row whose key is `k`. */
  function FirstIndex(rows: seq<Row>, key: string, k: Cell): (i: nat)
    requires k in KeysOf(rows, key)
    ensures i < |rows| && KeyOf(rows[i], key) == k
    ensures forall j :: 0 <= j < i ==> KeyOf(rows[j], key) != k
    decreases |rows|
  {
    if k in KeysOf(Init(rows), key) then FirstIndex(Init(rows), key, k)
    else
      assert forall j :: 0 <= j < |rows| - 1 ==> rows[j] == Init(rows)[j];
      |rows| - 1
  }

  /** A row survives when no earlier row has its key. */
  function DropDuplicates(rows: seq<Row>, key: string): (out: seq<Row>)
    ensures SubseqOf(out, rows)
    ensures KeysOf(out, key) == KeysOf(rows, key)
    ensures DistinctKeys(out, key)
    decreases |rows|
  {
    if rows == [] then []
    else
      var rest := DropDuplicates(Init(rows), key);
      if KeyOf(Last(rows), key) in KeysOf(Init(rows), key) then rest
      else
        AppendNewKey(rest, Last(rows), key);
        rest + [Last(rows)]
  }

  /** Appending a row with a new key keeps keys distinct and adds that key. */
  lemma AppendNewKey(rows: seq<Row>, r: Row, key: string)
    requires DistinctKeys(rows, key) && KeyOf(r, key) !in KeysOf(rows, key)
    ensures Init(rows + [r]) == rows && Last(rows + [r]) == r
    ensures DistinctKeys(rows + [r], key)
    ensures KeysOf(rows + [r], key) == KeysOf(rows, key) + {KeyOf(r, key)}
  {
    assert Init(rows + [r]) == rows;
  }

  lemma DropDuplicatesLone(r: Row, key: string)
    ensures DropDuplicates([r], key) == [r]
  {
    assert Init([r]) == [];
  }

  /** Every row of `out` is the first row of `rows` that has its key. */
  predicate FirstOfEachKey(out: seq<Row>, rows: seq<Row>, key: string)
  {
    forall i :: 0 <= i < |out| ==>
      KeyOf(out[i], key) in KeysOf(rows, key) &&
      out[i] == rows[FirstIndex(rows, key, KeyOf(out[i], key))]
  }

  /** Appending a row does not move the first occurrence of a key that
      already occurred. */
  lemma FirstIndexOfPrefix(rows: seq<Row>, key: string, k: Cell)
    requires rows != [] && k in KeysOf(Init(rows), key)
    ensures k in KeysOf(rows, key)
    ensures FirstIndex(rows, key, k) == FirstIndex(Init(rows), key, k)
  {
    var n := FirstIndex(Init(rows), key, k);
    assert rows[n] == Init(rows)[n];
  }

  /** Rows that were first in a prefix stay first once a row is appended. */
  lemma FirstOfEachKeyExtend(rows: seq<Row>, key: string, kept: seq<Row>)
    requires rows != [] && FirstOfEachKey(kept, Init(rows), key)
    ensures FirstOfEachKey(kept, rows, key)
  {
    forall i | 0 <= i < |kept|
      ensures KeyOf(kept[i], key) in KeysOf(rows, key)
      ensures kept[i] == rows[FirstIndex(rows, key, KeyOf(kept[i], key))]
    {
      var k := KeyOf(kept[i], key);
      FirstIndexOfPrefix(rows, key, k);
      var n := FirstIndex(Init(rows), key, k);
      assert rows[n] == Init(rows)[n];
    }
  }

  /** An appended row whose key is new is the first row with that key. */
  lemma FirstOfEachKeyNewLast(rows: seq<Row>, key: string, kept: seq<Row>)
    requires rows != [] && FirstOfEachKey(kept, rows, key)
    requires KeyOf(Last(rows), key) !in KeysOf(Init(rows), key)
    ensures FirstOfEachKey(kept + [Last(rows)], rows, key)
  {
    var out := kept + [Last(rows)];
    assert KeyOf(rows[|rows| - 1], key) in KeysOf(rows, key);
    assert FirstIndex(rows, key, KeyOf(Last(rows), key)) == |rows| - 1;
    forall i | 0 <= i < |out|
      ensures KeyOf(out[i], key) in KeysOf(rows, key)
      ensures out[i] == rows[FirstIndex(rows, key, KeyOf(out[i], key))]
    {
      if i < |kept| {
        assert out[i] == kept[i];
      }
    }
  }

  /** The row kept for each key is the first row of the input with that key. */
  lemma {:induction false} DropDuplicatesKeepsFirst(rows: seq<Row>, key: string)
    ensures FirstOfEachKey(DropDuplicates(rows, key), rows, key)
    decreases |rows|
  {
    if rows != [] {
      var rest := DropDuplicates(Init(rows), key);
      DropDuplicatesKeepsFirst(Init(rows), key);
      FirstOfEachKeyExtend(rows, key, rest);
      if KeyOf(Last(rows), key) !in KeysOf(Init(rows), key) {
        FirstOfEachKeyNewLast(rows, key, rest);
      }
    }
  }

  /** A filter that keeps every row with key `k` keeps the first of them as
      its own first row with that key. */
  lemma {:induction false} FilterKeepsFirstOfKey(rows: seq<Row>, key: string, k: Cell, keep: Row -> bool)
    requires k in KeysOf(rows, key)
    requires forall r :: KeyOf(r, key) == k ==> keep(r)
    ensures k in KeysOf(Filter(rows, keep), key)
    ensures Filter(rows, keep)[FirstIndex(Filter(rows, keep), key, k)] == rows[FirstIndex(rows, key, k)]
    decreases |rows|
  {
    if k in KeysOf(Init(rows), key) {
      FilterKeepsFirstOfKey(Init(rows), key, k, keep);
      FilterFirstOfOldKey(rows, key, k, keep);
    } else {
      FilterFirstOfNewKey(rows, key, k, keep);
    }
  }

  lemma FilterFirstOfOldKey(rows: seq<Row>, key: string, k: Cell, keep: Row -> bool)
    requires rows != [] && k in KeysOf(Init(rows), key)
    requires k in KeysOf(Filter(Init(rows), keep), key)
    requires Filter(Init(rows), keep)[FirstIndex(Filter(Init(rows), keep), key, k)] ==
             Init(rows)[FirstIndex(Init(rows), key, k)]
    ensures k in KeysOf(Filter(rows, keep), key)
    ensures Filter(rows, keep)[FirstIndex(Filter(rows, keep), key, k)] == rows[FirstIndex(rows, key, k)]
  {
    var rest, out := Filter(Init(rows), keep), Filter(rows, keep);
    FilterStep(rows, keep);
    if keep(Last(rows)) {
      assert out == rest + [Last(rows)];
    } else {
      assert out == rest;
    }
    FirstOfKeyAfterOldKey(rows, rest, out, key, k);
  }

  lemma FilterFirstOfNewKey(rows: seq<Row>, key: string, k: Cell, keep: Row -> bool)
    requires k in KeysOf(rows, key) && rows != [] && k !in KeysOf(Init(rows), key)
    requires forall r :: KeyOf(r, key) == k ==> keep(r)
    ensures k in KeysOf(Filter(rows, keep), key)
    ensures Filter(rows, keep)[FirstIndex(Filter(rows, keep), key, k)] == rows[FirstIndex(rows, key, k)]
  {
    LastHoldsNewKey(rows, key, k);
    FilterStep(rows, keep);
    SubseqMembers(Filter(Init(rows), keep), Init(rows));
    FirstOfKeyAtNewKey(rows, Filter(Init(rows), keep), key, k);
  }

  /** The step of `FilterKeepsFirstOfKey` for a key met before the last row
      `x`: whether or not `x` is kept, the first row with the key stays. */
  lemma FirstOfKeyAfterOldKey(rows: seq<Row>, rest: seq<Row>, out: seq<Row>, key: string, k: Cell)
    requires rows != [] && k in KeysOf(Init(rows), key)
    requires k in KeysOf(rest, key) && rest[FirstIndex(rest, key, k)] == Init(rows)[FirstIndex(Init(rows), key, k)]
    requires out == rest || out == rest + [Last(rows)]
    ensures k in KeysOf(rows, key) && k in KeysOf(out, key)
    ensures out[FirstIndex(out, key, k)] == rows[FirstIndex(rows, key, k)]
  {
    FirstIndexOfPrefix(rows, key, k);
    var n := FirstIndex(Init(rows), key, k);
    assert rows[n] == Init(rows)[n];
    if out != rest {
      FirstIndexAppend(rest, Last(rows), key, k);
    }
  }

  /** Appending a row keeps the first row with a key already present. */
  lemma FirstIndexAppend(rows: seq<Row>, r: Row, key: string, k: Cell)
    requires k in KeysOf(rows, key)
    ensures k in KeysOf(rows + [r], key)
    ensures FirstIndex(rows + [r], key, k) == FirstIndex(rows, key, k)
    ensures (rows + [r])[FirstIndex(rows, key, k)] == rows[FirstIndex(rows, key, k)]
  {
    assert Init(rows + [r]) == rows;
    FirstIndexOfPrefix(rows + [r], key, k);
  }

  /** The step of `FilterKeepsFirstOfKey` for a key first met in the last
      row, which the filter keeps after rows none of which has the key. */
  lemma FirstOfKeyAtNewKey(rows: seq<Row>, rest: seq<Row>, key: string, k: Cell)
    requires rows != [] && KeyOf(Last(rows), key) == k
    requires forall r :: r in Init(rows) ==> KeyOf(r, key) != k
    requires forall r :: r in rest ==> r in Init(rows)
    ensures k in KeysOf(rest + [Last(rows)], key)
    ensures (rest + [Last(rows)])[FirstIndex(rest + [Last(rows)], key, k)] == rows[FirstIndex(rows, key, k)]
  {
    var init := Init(rows);
    var out := rest + [Last(rows)];
    forall j | 0 <= j < |rows| - 1
      ensures KeyOf(rows[j], key) != k
    {
      assert rows[j] == init[j] && init[j] in init;
    }
    SameFirstIndex(rows, key, k, |rows| - 1);
    forall j | 0 <= j < |rest|
      ensures KeyOf(out[j], key) != k
    {
      assert out[j] == rest[j] && rest[j] in rest;
    }
    SameFirstIndex(out, key, k, |out| - 1);
  }

  /** A key that occurs in `rows` and not before its last row is the last row's key. */
  lemma LastHoldsNewKey(rows: seq<Row>, key: string, k: Cell)
    requires k in KeysOf(rows, key) && rows != [] && k !in KeysOf(Init(rows), key)
    ensures KeyOf(Last(rows), key) == k
    ensures forall r :: r in Init(rows) ==> KeyOf(r, key) != k
  {
    var init := Init(rows);
    assert forall j :: 0 <= j < |init| ==> init[j] == rows[j];
  }

  /** Deleting rows keeps keys distinct. */
  lemma {:induction false} SubseqKeepsDistinctKeys(xs: seq<Row>, ys: seq<Row>, key: string)
    requires SubseqOf(xs, ys) && DistinctKeys(ys, key)
    ensures DistinctKeys(xs, key)
    decreases |ys|
  {
    if xs != [] {
      assert DistinctKeys(Init(ys), key);
      if Last(xs) == Last(ys) && SubseqOf(Init(xs), Init(ys)) {
        SubseqKeepsDistinctKeys(Init(xs), Init(ys), key);
        SubseqMembers(Init(xs), Init(ys));
        forall i, j | 0 <= i < j < |xs|
          ensures KeyOf(xs[i], key) != KeyOf(xs[j], key)
        {
          if j == |xs| - 1 {
            assert xs[i] == Init(xs)[i];
            assert xs[i] in Init(ys);
            var m :| 0 <= m < |Init(ys)| && Init(ys)[m] == xs[i];
            assert ys[m] == xs[i];
          } else {
            assert xs[i] == Init(xs)[i] && xs[j] == Init(xs)[j];
          }
        }
      } else {
        SubseqKeepsDistinctKeys(xs, Init(ys), key);
      }
    }
  }

  /** Coercion does not touch a key column it is not asked to coerce. */
  lemma CoerceKeepsKey(r: Row, cols: seq<string>, key: string, parse: Parser)
    requires key !in cols
    ensures KeyOf(CoerceRow(r, cols, parse), key) == KeyOf(r, key)
  {
  }

  /** Coercion leaves a column it is not asked to touch alone, so keys there stay distinct. */
  lemma CoerceKeepsDistinctKeys(rows: seq<Row>, cols: seq<string>, key: string, parse: Parser)
    requires key !in cols && DistinctKeys(rows, key)
    ensures DistinctKeys(CoerceColumns(rows, cols, parse), key)
  {
    var out := CoerceColumns(rows, cols, parse);
    assert forall i :: 0 <= i < |rows| ==> KeyOf(out[i], key) == KeyOf(rows[i], key);
  }

  /** Coercion that leaves the key column alone keeps every key, and the
      first coerced row with a key is the coerced first row with it. */
  lemma CoerceFirstIndex(rows: seq<Row>, cols: seq<string>, key: string, k: Cell, parse: Parser)
    requires key !in cols
    ensures k in KeysOf(CoerceColumns(rows, cols, parse), key) <==> k in KeysOf(rows, key)
    ensures k in KeysOf(rows, key) ==>
      k in KeysOf(CoerceColumns(rows, cols, parse), key) &&
      CoerceColumns(rows, cols, parse)[FirstIndex(CoerceColumns(rows, cols, parse), key, k)] ==
      CoerceRow(rows[FirstIndex(rows, key, k)], cols, parse)
  {
    var out := CoerceColumns(rows, cols, parse);
    forall i | 0 <= i < |rows|
      ensures KeyOf(out[i], key) == KeyOf(rows[i], key)
    {
      CoerceKeepsKey(rows[i], cols, key, parse);
    }
    SameKeysSameFirstIndex(out, rows, key, k);
  }

  /** Row sequences with the same key at every position have the same keys
      and the same first index of each. */
  lemma SameKeysSameFirstIndex(xs: seq<Row>, ys: seq<Row>, key: string, k: Cell)
    requires |xs| == |ys| && forall i :: 0 <= i < |xs| ==> KeyOf(xs[i], key) == KeyOf(ys[i], key)
    ensures k in KeysOf(xs, key) <==> k in KeysOf(ys, key)
    ensures k in KeysOf(ys, key) ==> k in KeysOf(xs, key) && FirstIndex(xs, key, k) == FirstIndex(ys, key, k)
  {
    if k in KeysOf(ys, key) {
      SameFirstIndex(xs, key, k, FirstIndex(ys, key, k));
    }
  }

  /** The first index is the one before which no row has the key. */
  lemma SameFirstIndex(rows: seq<Row>, key: string, k: Cell, n: nat)
    requires n < |rows| && KeyOf(rows[n], key) == k
    requires forall j :: 0 <= j < n ==> KeyOf(rows[j], key) != k
    ensures k in KeysOf(rows, key) && FirstIndex(rows, key, k) == n
  {
  }

  // ---------------------------------------------------------------------
  // df[col] = values

  function SetColumn(rows: seq<Row>, col: string, values: seq<Cell>): seq<Row>
    requires |values| == |rows|
  {
    seq(|rows|, i requires 0 <= i < |rows| => rows[i][col := values[i]])
  }

  /** A pandas DataFrame as the cleaning passes use it: a set of columns and
      the rows in index order. Assigning a column changes the frame in place,
      and whoever else holds the frame sees the change. */
  class DataFrame {
    var columns: set<string>
    var rows: seq<Row>

    ghost predicate Valid()
      reads this
    {
      WellFormed(columns, rows)
    }

    constructor (columns: set<string>, rows: seq<Row>)
      requires WellFormed(columns, rows)
      ensures Valid() && this.columns == columns && this.rows == rows
    {
      this.columns := columns;
      this.rows := rows;
    }

    predicate Empty()
      reads this
    {
      IsEmptyFrame(columns, rows)
    }

    /** `df[col]`, for a column the frame has. */
    function Column(col: string): (values: seq<Cell>)
      reads this
      requires Valid() && col in columns
      ensures |values| == |rows|
    {
      var rs := rows;
      seq(|rs|, i requires 0 <= i < |rs| => assert rs[i] in rs; rs[i][col])
    }

    /** The coercion loop of data_fetcher.py:87-89: each listed column the
        frame has is replaced, in place and in list order, by its coercion;
        a listed column the frame lacks is skipped. */
    method ToNumericColumns(cols: seq<string>, parse: Parser)
      requires Valid()
      modifies this
      ensures Valid() && columns == old(columns)
      ensures rows == CoerceColumns(old(rows), cols, parse)
    {
      forall j | 0 <= j < |rows|
        ensures rows[j] == CoerceRow(rows[j], [], parse)
      {
        CoerceNothing(rows[j], parse);
      }
      var i := 0;
      while i < |cols|
        invariant 0 <= i <= |cols|
        invariant Valid() && columns == old(columns)
        invariant rows == CoerceColumns(old(rows), cols[..i], parse)
      {
        var col := cols[i];
        if col in columns {
          Assign(col, ToNumericAll(Column(col), parse));
        }
        assert cols[..i + 1] == cols[..i] + [col];
        forall j | 0 <= j < |rows|
          ensures rows[j] == CoerceRow(old(rows)[j], cols[..i + 1], parse)
        {
          assert old(rows)[j] in old(rows);
          CoerceOneMore(old(rows)[j], cols[..i], col, parse);
        }
        i := i + 1;
      }
      assert cols[..i] == cols;
    }

    /** `df[col] = values`: adds the column, or replaces it if present. */
    method Assign(col: string, values: seq<Cell>)
      requires Valid() && |values| == |rows|
      modifies this
      ensures Valid()
      ensures columns == old(columns) + {col}
      ensures rows == SetColumn(old(rows), col, values)
    {
      var updated := SetColumn(rows, col, values);
      forall r | r in updated
        ensures r.Keys == columns + {col}
      {
        var i :| 0 <= i < |updated| && updated[i] == r;
        assert rows[i] in rows;
      }
      columns, rows := columns + {col}, updated;
    }
  }
}
