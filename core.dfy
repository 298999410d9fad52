/** TableData (tabledata/_core.py): a named table of headers and raw rows whose
    typed matrix is inferred on first use and then kept, with the comparisons,
    emptiness tests, dictionary view and column filter built on it. */
module Table {

  import opened Wrappers
  import opened Values
  import opened Subsequence
  import opened Converter
  import opened ColumnFilter
  import opened DictView

  /** The type-inference engine (the dp_extractor), one cell at a time. */
  type Infer = Value -> TypedValue

  /** to_dp_list: each value of a row given its inferred type. */
  function TypeRow(infer: Infer, row: seq<Value>): (r: seq<TypedValue>)
    ensures |r| == |row| && forall j | 0 <= j < |row| :: r[j] == infer(row[j])
  {
    seq(|row|, j requires 0 <= j < |row| => infer(row[j]))
  }

  /** to_dp_matrix: every row typed. */
  function TypeMatrix(infer: Infer, m: seq<seq<Value>>): (r: seq<seq<TypedValue>>)
    ensures |r| == |m| && forall i | 0 <= i < |m| :: r[i] == TypeRow(infer, m[i])
  {
    seq(|m|, i requires 0 <= i < |m| => TypeRow(infer, m[i]))
  }

  /** The .data of every typed value of a row. */
  function RowData(r: seq<TypedValue>): (d: seq<Value>)
    ensures |d| == |r| && forall j | 0 <= j < |r| :: d[j] == r[j].data
  {
    seq(|r|, j requires 0 <= j < |r| => r[j].data)
  }

  /** The .data of every typed value of a matrix. */
  function DataOf(m: seq<seq<TypedValue>>): (r: seq<seq<Value>>)
    ensures |r| == |m| && forall i | 0 <= i < |m| :: r[i] == RowData(m[i])
  {
    seq(|m|, i requires 0 <= i < |m| => RowData(m[i]))
  }

  /** value_dp_matrix: the rows aligned to the headers (__preprocess_value_matrix),
      then typed; a row that cannot be aligned raises the data error. */
  function DpMatrix(infer: Infer, headers: seq<Value>, rows: seq<RowLike>): Result<seq<seq<TypedValue>>, Error>
  {
    match ToRows(headers, rows)
    case Failure(e) => Failure(e)
    case Success(m) => Success(TypeMatrix(infer, m))
  }

  /** value_matrix: the data of the typed matrix. */
  function ValueMatrixOf(infer: Infer, headers: seq<Value>, rows: seq<RowLike>): Result<seq<seq<Value>>, Error>
  {
    match DpMatrix(infer, headers, rows)
    case Failure(e) => Failure(e)
    case Success(dp) => Success(DataOf(dp))
  }

  /** The typed matrix has one row per raw row, and its cell j of row i is the
      inferred type of cell j of the aligned row i; it exists iff every row aligns. */
  lemma DpMatrixMeaning(infer: Infer, headers: seq<Value>, rows: seq<RowLike>)
    ensures DpMatrix(infer, headers, rows).Success? <==> forall i | 0 <= i < |rows| :: ToRow(headers, rows[i]).Success?
    ensures DpMatrix(infer, headers, rows).Success? ==>
      var dp := DpMatrix(infer, headers, rows).value;
      |dp| == |rows| &&
      forall i | 0 <= i < |rows| ::
        |dp[i]| == |ToRow(headers, rows[i]).value| &&
        forall j | 0 <= j < |dp[i]| :: dp[i][j] == infer(ToRow(headers, rows[i]).value[j])
  {
  }

  /** When the engine returns every value unchanged, value_matrix is the aligned rows themselves. */
  lemma ValueMatrixOfFaithfulEngine(infer: Infer, headers: seq<Value>, rows: seq<RowLike>)
    requires forall v :: infer(v).data == v
    ensures ValueMatrixOf(infer, headers, rows) == ToRows(headers, rows)
  {
    if ToRows(headers, rows).Success? {
      var m := ToRows(headers, rows).value;
      var d := DataOf(TypeMatrix(infer, m));
      assert |d| == |m|;
      forall i | 0 <= i < |m| ensures d[i] == m[i] {
        assert |d[i]| == |m[i]|;
      }
      assert d == m;
    }
  }

  /** _to_row_helper, the row conversion of the sequential __to_value_matrix_st
      path: a named tuple is read as a mapping of its fields, a mapping is looked
      up header by header, anything else is iterated and typed value by value
      (a string therefore character by character), and a value that cannot be
      iterated is the data error. Only the .data of each typed value is kept. */
  function ToRowHelper(infer: Infer, headers: seq<Value>, row: RowLike): (r: Result<seq<Value>, Error>)
    ensures r.Failure? <==> Iterate(row).None?
    ensures r.Failure? ==> r.error == InvalidData
    ensures (row.DictRow? || row.RecordRow?) ==>
      var entries := if row.RecordRow? then RecordAsDict(row.fields) else row.entries;
      r.Success? && |r.value| == |headers| &&
      forall j | 0 <= j < |headers| :: r.value[j] == infer(Lookup(entries, headers[j])).data
    ensures !row.DictRow? && !row.RecordRow? && r.Success? ==>
      r.value == RowData(TypeRow(infer, Iterate(row).value))
  {
    if row.DictRow? || row.RecordRow? then
      var entries := if row.RecordRow? then RecordAsDict(row.fields) else row.entries;
      Success(RowData(TypeRow(infer, seq(|headers|, j requires 0 <= j < |headers| => Lookup(entries, headers[j])))))
    else
      match Iterate(row)
      case None => Failure(InvalidData)
      case Some(values) => Success(RowData(TypeRow(infer, values)))
  }

  /** __to_value_matrix_st: the rows converted one by one in input order; the first
      row that fails aborts the conversion. */
  function ToValueMatrixSt(infer: Infer, headers: seq<Value>, rows: seq<RowLike>): (r: Result<seq<seq<Value>>, Error>)
    ensures r.Success? <==> forall i | 0 <= i < |rows| :: ToRowHelper(infer, headers, rows[i]).Success?
    ensures r.Success? ==>
      |r.value| == |rows| &&
      forall i | 0 <= i < |rows| :: ToRowHelper(infer, headers, rows[i]) == Success(r.value[i])
    ensures r.Failure? ==> r.error == InvalidData
    decreases |rows|
  {
    if |rows| == 0 then Success([])
    else
      match ToRowHelper(infer, headers, rows[0])
      case Failure(e) => Failure(e)
      case Success(first) =>
        match ToValueMatrixSt(infer, headers, rows[1..])
        case Failure(e) =>
          assert forall k | 1 <= k < |rows| :: rows[k] == rows[1..][k - 1];
          Failure(e)
        case Success(rest) =>
          assert forall k | 1 <= k < |rows| :: rows[k] == rows[1..][k - 1];
          Success([first] + rest)
  }

  /** __to_value_matrix: with no headers the rows are returned untouched, otherwise
      each converted row comes back as a list. */
  function ToValueMatrixRows(infer: Infer, headers: seq<Value>, rows: seq<RowLike>): (r: Result<seq<RowLike>, Error>)
    ensures |headers| == 0 ==> r == Success(rows)
    ensures |headers| > 0 ==> (r.Success? <==> ToValueMatrixSt(infer, headers, rows).Success?)
    ensures |headers| > 0 && r.Success? ==> r.value == RowsOf(ToValueMatrixSt(infer, headers, rows).value)
  {
    if |headers| == 0 then Success(rows)
    else
      match ToValueMatrixSt(infer, headers, rows)
      case Failure(e) => Failure(e)
      case Success(m) => Success(RowsOf(m))
  }

  /** With headers, the sequential path and value_matrix convert a row alike, save
      for a string row: value_matrix rejects it, the sequential path splits it into
      its characters. */
  lemma {:induction false} ToRowHelperAgrees(infer: Infer, headers: seq<Value>, row: RowLike)
    requires |headers| > 0
    ensures !(row.ScalarRow? && row.v.Str?) && ToRow(headers, row).Failure? ==>
      ToRowHelper(infer, headers, row) == Failure(ToRow(headers, row).error)
    ensures !(row.ScalarRow? && row.v.Str?) && ToRow(headers, row).Success? ==>
      ToRowHelper(infer, headers, row) == Success(RowData(TypeRow(infer, ToRow(headers, row).value)))
    ensures row.ScalarRow? && row.v.Str? ==> ToRow(headers, row).Failure? && ToRowHelper(infer, headers, row).Success?
  {
    if row.DictRow? || row.RecordRow? {
      var entries := if row.RecordRow? then RecordAsDict(row.fields) else row.entries;
      var values := ToRow(headers, row).value;
      assert values == seq(|headers|, j requires 0 <= j < |headers| => Lookup(entries, headers[j]));
    }
  }

  /** The sequential path yields the same matrix as value_matrix for every table
      with headers and no string rows, and the same data error when a row cannot
      be converted. */
  lemma {:induction false} ToValueMatrixStAgrees(infer: Infer, headers: seq<Value>, rows: seq<RowLike>)
    requires |headers| > 0
    requires forall i | 0 <= i < |rows| :: !(rows[i].ScalarRow? && rows[i].v.Str?)
    ensures ToValueMatrixSt(infer, headers, rows) == ValueMatrixOf(infer, headers, rows)
  {
    forall i | 0 <= i < |rows|
      ensures ToRowHelper(infer, headers, rows[i]).Success? <==> ToRow(headers, rows[i]).Success?
      ensures ToRow(headers, rows[i]).Success? ==>
        ToRowHelper(infer, headers, rows[i]) == Success(RowData(TypeRow(infer, ToRow(headers, rows[i]).value)))
    {
      ToRowHelperAgrees(infer, headers, rows[i]);
    }
    var st := ToValueMatrixSt(infer, headers, rows);
    var vm := ValueMatrixOf(infer, headers, rows);
    if ToRows(headers, rows).Success? {
      var m := ToRows(headers, rows).value;
      assert vm == Success(DataOf(TypeMatrix(infer, m)));
      assert st.Success?;
      forall i | 0 <= i < |rows| ensures st.value[i] == vm.value[i] {
        assert ToRow(headers, rows[i]) == Success(m[i]);
      }
      assert st.value == vm.value;
    } else {
      assert ToRows(headers, rows).error == InvalidData;
      assert st.Failure? && st.error == InvalidData;
    }
  }

  /** A string row: value_matrix raises the data error while the sequential path
      reads one value per character. */
  lemma StringRowDiverges(infer: Infer, headers: seq<Value>, s: string)
    requires |headers| > 0
    ensures ValueMatrixOf(infer, headers, [ScalarRow(Str(s))]) == Failure(InvalidData)
    ensures var st := ToValueMatrixSt(infer, headers, [ScalarRow(Str(s))]);
      && st.Success? && |st.value| == 1 && |st.value[0]| == |s|
      && forall j | 0 <= j < |s| :: st.value[0][j] == infer(Str([s[j]])).data
  {
    var row := ScalarRow(Str(s));
    assert ToRows(headers, [row]).Failure?;
    var cells := ToRowHelper(infer, headers, row).value;
    assert ToValueMatrixSt(infer, headers, [row]).value[0] == cells;
  }

  /** __eq__ once both typed matrices are known: same name, same headers, as many
      typed rows, and every pair of rows (as zip pairs them) of equal length and
      equal cell by cell. */
  predicate SameTable(name1: Value, headers1: seq<Value>, m1: seq<seq<TypedValue>>,
                      name2: Value, headers2: seq<Value>, m2: seq<seq<TypedValue>>)
  {
    && name1 == name2
    && headers1 == headers2
    && |m1| == |m2|
    && forall i | 0 <= i < |m1| ::
         |m1[i]| == |m2[i]| && forall j | 0 <= j < |m1[i]| :: m1[i][j] == m2[i][j]
  }

  /** The comparison __eq__ makes is plain equality of name, headers and typed matrix. */
  lemma SameTableIsEquality(name1: Value, headers1: seq<Value>, m1: seq<seq<TypedValue>>,
                            name2: Value, headers2: seq<Value>, m2: seq<seq<TypedValue>>)
    ensures SameTable(name1, headers1, m1, name2, headers2, m2) <==> (name1, headers1, m1) == (name2, headers2, m2)
  {
    if SameTable(name1, headers1, m1, name2, headers2, m2) {
      forall i | 0 <= i < |m1| ensures m1[i] == m2[i] {
        assert |m1[i]| == |m2[i]|;
      }
      assert m1 == m2;
    }
  }

  /** __eq__ and __ne__: the typed matrix of the left table is computed first, then
      that of the right one, and the first of them to raise decides. */
  function CompareSpec(name1: Value, headers1: seq<Value>, d1: Result<seq<seq<TypedValue>>, Error>,
                       name2: Value, headers2: seq<Value>, d2: Result<seq<seq<TypedValue>>, Error>): Result<bool, Error>
  {
    if d1.Failure? then Failure(d1.error)
    else if d2.Failure? then Failure(d2.error)
    else Success(SameTable(name1, headers1, d1.value, name2, headers2, d2.value))
  }

  /** typepy.is_not_empty_sequence on the first raw row; no rows at all counts as empty. */
  predicate RowsEmpty(rows: seq<RowLike>)
  {
    |rows| == 0 || !IsNotEmptySequence(rows[0])
  }

  /** Only the first row is looked at: no rows, or a first row of length zero, is
      empty even when later rows hold data, and a non-empty first row is not. */
  lemma RowsEmptyMeaning(rows: seq<RowLike>)
    ensures |rows| == 0 ==> RowsEmpty(rows)
    ensures forall rest: seq<RowLike> :: RowsEmpty([ListRow([])] + rest)
    ensures forall first: seq<Value>, rest: seq<RowLike> | |first| > 0 :: !RowsEmpty([ListRow(first)] + rest)
  {
  }

  /** zip(matrix rows): as many leading rows as the shorter matrix has, each pair
      compared as __eq__ does, in a loop that stops at the first difference. */
  method RowsAgree(m1: seq<seq<TypedValue>>, m2: seq<seq<TypedValue>>) returns (same: bool)
    ensures same == (forall i | 0 <= i < Min(|m1|, |m2|) ::
                       |m1[i]| == |m2[i]| && forall j | 0 <= j < |m1[i]| :: m1[i][j] == m2[i][j])
  {
    var n := Min(|m1|, |m2|);
    var i := 0;
    while i < n
      invariant 0 <= i <= n
      invariant forall k | 0 <= k < i :: |m1[k]| == |m2[k]| && forall j | 0 <= j < |m1[k]| :: m1[k][j] == m2[k][j]
    {
      var lhs, rhs := m1[i], m2[i];
      if |lhs| != |rhs| {
        return false;
      }
      var cellsEqual := forall j | 0 <= j < |lhs| :: lhs[j] == rhs[j];
      if !cellsEqual {
        return false;
      }
      i := i + 1;
    }
    return true;
  }

  /** The mirror of RowsAgree with the negated tests of __ne__. */
  method RowsDiffer(m1: seq<seq<TypedValue>>, m2: seq<seq<TypedValue>>) returns (differ: bool)
    ensures differ == !(forall i | 0 <= i < Min(|m1|, |m2|) ::
                          |m1[i]| == |m2[i]| && forall j | 0 <= j < |m1[i]| :: m1[i][j] == m2[i][j])
  {
    var n := Min(|m1|, |m2|);
    var i := 0;
    while i < n
      invariant 0 <= i <= n
      invariant forall k | 0 <= k < i :: |m1[k]| == |m2[k]| && forall j | 0 <= j < |m1[k]| :: m1[k][j] == m2[k][j]
    {
      var lhs, rhs := m1[i], m2[i];
      if |lhs| != |rhs| {
        return true;
      }
      var someDiffer := exists j | 0 <= j < |lhs| :: lhs[j] != rhs[j];
      if someDiffer {
        return true;
      }
      i := i + 1;
    }
    return false;
  }

  /** The loop of as_dict over the typed rows: an empty row, or a row whose cells
      are all typed NONE, is skipped, and every other row appends the ordered
      mapping of its header/value pairs. */
  method BuildDictBody(headers: seq<Value>, m: seq<seq<TypedValue>>) returns (body: seq<Entries>)
    ensures body == DictBody(headers, m)
  {
    body := [];
    var i := 0;
    while i < |m|
      invariant 0 <= i <= |m|
      invariant body == DictBody(headers, m[..i])
    {
      DictBodyStep(headers, m, i);
      var row := m[i];
      if |row| > 0 {
        var pairs := RowPairs(headers, row);
        if |pairs| > 0 {
          body := body + [OrderedDictOf(pairs)];
        }
      }
      i := i + 1;
    }
    assert m[..i] == m;
    assert body == DictBody(headers, m);
  }

  /** as_dict: one entry, under the table name, holding the dictionary body. */
  function AsDictOf(name: Value, body: seq<Entries>): (r: map<Value, seq<Entries>>)
    ensures r.Keys == {name} && r[name] == body
  {
    map[name := body]
  }

  /** A table: its name, headers and raw rows, the type-inference engine, and the
      two lazily filled caches of the typed matrix and of its data. */
  class TableData {
    var tableName: Value
    const headers: seq<Value>
    const rows: seq<RowLike>
    const infer: Infer
    var dpCache: Option<seq<seq<TypedValue>>>
    var valueCache: Option<seq<seq<Value>>>
    /** How many times the typed matrix has been inferred. */
    ghost var inferenceRuns: nat

    /** The caches only ever hold what they stand for, the data is cached only
        after the typed matrix is, and the typed matrix has been inferred exactly
        once when it is cached and never before. Since every method below keeps
        the counter from decreasing, a cached typed matrix stays cached, and the
        typed matrix is inferred once at most over the table's life. */
    ghost predicate Valid()
      reads this
    {
      && (dpCache.Some? ==> DpMatrix(infer, headers, rows) == Success(dpCache.value))
      && (valueCache.Some? ==> ValueMatrixOf(infer, headers, rows) == Success(valueCache.value))
      && (valueCache.Some? ==> dpCache.Some?)
      && inferenceRuns == (if dpCache.Some? then 1 else 0)
    }

    /** __init__: missing (None) or empty headers and rows are stored as empty
        lists, anything else as given; nothing is inferred yet. */
    constructor (name: Value, headerList: Option<seq<Value>>, recordList: Option<seq<RowLike>>, engine: Infer)
      ensures Valid()
      ensures tableName == name && infer == engine
      ensures headers == (if headerList.Some? then headerList.value else [])
      ensures rows == (if recordList.Some? then recordList.value else [])
      ensures dpCache.None? && valueCache.None?
    {
      tableName := name;
      headers := if headerList.None? || |headerList.value| == 0 then [] else headerList.value;
      rows := if recordList.None? || |recordList.value| == 0 then [] else recordList.value;
      infer := engine;
      dpCache := None;
      valueCache := None;
      inferenceRuns := 0;
    }

    /** The table_name setter. */
    method SetTableName(name: Value)
      requires Valid()
      modifies this
      ensures Valid()
      ensures tableName == name
      ensures dpCache == old(dpCache) && valueCache == old(valueCache) && inferenceRuns == old(inferenceRuns)
    {
      tableName := name;
    }

    /** value_dp_matrix: inferred only while nothing is cached, then returned from
        the cache; a raw row that cannot be aligned raises the data error and
        leaves the cache empty. */
    method ValueDpMatrix() returns (r: Result<seq<seq<TypedValue>>, Error>)
      requires Valid()
      modifies this
      ensures Valid()
      ensures r == DpMatrix(infer, headers, rows)
      ensures tableName == old(tableName) && valueCache == old(valueCache)
      ensures old(dpCache).Some? ==> dpCache == old(dpCache) && inferenceRuns == old(inferenceRuns)
      ensures inferenceRuns >= old(inferenceRuns)
      ensures r.Success? <==> dpCache.Some?
    {
      if dpCache.None? {
        var aligned := ToRows(headers, rows);
        if aligned.Failure? {
          return Failure(aligned.error);
        }
        dpCache := Some(TypeMatrix(infer, aligned.value));
        inferenceRuns := inferenceRuns + 1;
      }
      return Success(dpCache.value);
    }

    /** value_matrix: the cache is trusted only when it holds a non-empty matrix
        (the getter tests its truthiness); otherwise the data is taken from
        value_dp_matrix and cached again. */
    method ValueMatrix() returns (r: Result<seq<seq<Value>>, Error>)
      requires Valid()
      modifies this
      ensures Valid()
      ensures r == ValueMatrixOf(infer, headers, rows)
      ensures tableName == old(tableName)
      ensures old(dpCache).Some? ==> dpCache == old(dpCache) && inferenceRuns == old(inferenceRuns)
      ensures inferenceRuns >= old(inferenceRuns)
      ensures r.Success? ==> valueCache == Some(r.value) && dpCache.Some?
      ensures r.Failure? ==> valueCache == old(valueCache) && dpCache == old(dpCache)
      ensures old(valueCache).Some? && |old(valueCache).value| > 0 ==>
        valueCache == old(valueCache) && dpCache == old(dpCache) && inferenceRuns == old(inferenceRuns)
    {
      if valueCache.Some? && |valueCache.value| > 0 {
        return Success(valueCache.value);
      }
      var dp := ValueDpMatrix();
      if dp.Failure? {
        return Failure(dp.error);
      }
      valueCache := Some(DataOf(dp.value));
      return Success(valueCache.value);
    }

    /** is_empty_header: typepy.is_empty_sequence on the stored headers, which the
        constructor made [] when they were None or empty. */
    predicate IsEmptyHeader()
      ensures IsEmptyHeader() <==> headers == []
    {
      |headers| == 0
    }

    /** is_empty_rows: only the first raw row is looked at; an IndexError (no
        rows) or a first row without length counts as empty. */
    predicate IsEmptyRows()
      ensures IsEmptyRows() <==> |rows| == 0 || !IsNotEmptySequence(rows[0])
      ensures |rows| > 0 && rows[0] == ListRow([]) ==> IsEmptyRows()
    {
      RowsEmpty(rows)
    }

    /** is_empty: a table is non-empty exactly when it has headers and a first raw
        row of positive length. */
    predicate IsEmpty()
      ensures !IsEmpty() <==> |headers| > 0 && |rows| > 0 && IsNotEmptySequence(rows[0])
    {
      IsEmptyHeader() || IsEmptyRows()
    }

    /** The typed matrix of this table, then, unless that raised, the typed matrix
        of the other one, each through its own cache. */
    method BothMatrices(other: TableData)
      returns (lhs: Result<seq<seq<TypedValue>>, Error>, rhs: Result<seq<seq<TypedValue>>, Error>)
      requires Valid() && other.Valid()
      modifies this, other
      ensures Valid() && other.Valid()
      ensures tableName == old(tableName) && other.tableName == old(other.tableName)
      ensures valueCache == old(valueCache) && other.valueCache == old(other.valueCache)
      ensures old(dpCache).Some? ==> dpCache == old(dpCache)
      ensures old(other.dpCache).Some? ==> other.dpCache == old(other.dpCache)
      ensures inferenceRuns >= old(inferenceRuns) && other.inferenceRuns >= old(other.inferenceRuns)
      ensures lhs == DpMatrix(infer, headers, rows)
      ensures lhs.Success? ==> rhs == DpMatrix(other.infer, other.headers, other.rows)
      ensures lhs.Success? && rhs.Success? ==> dpCache.Some? && other.dpCache.Some?
      ensures lhs.Success? ==> dpCache.Some?
      ensures lhs.Failure? ==> other.dpCache == old(other.dpCache) && other.inferenceRuns == old(other.inferenceRuns)
    {
      lhs := ValueDpMatrix();
      if lhs.Failure? {
        rhs := lhs;
        return;
      }
      rhs := other.ValueDpMatrix();
    }

    /** __eq__: names, headers and typed row counts first (the typed matrix of this
        table is computed before that of the other), then the rows pairwise. */
    method Equals(other: TableData) returns (r: Result<bool, Error>)
      requires Valid() && other.Valid()
      modifies this, other
      ensures Valid() && other.Valid()
      ensures tableName == old(tableName) && other.tableName == old(other.tableName)
      ensures valueCache == old(valueCache) && other.valueCache == old(other.valueCache)
      ensures old(dpCache).Some? ==> dpCache == old(dpCache)
      ensures old(other.dpCache).Some? ==> other.dpCache == old(other.dpCache)
      ensures inferenceRuns >= old(inferenceRuns) && other.inferenceRuns >= old(other.inferenceRuns)
      ensures r.Success? ==> dpCache.Some? && other.dpCache.Some?
      ensures DpMatrix(infer, headers, rows).Success? ==> dpCache.Some?
      ensures DpMatrix(infer, headers, rows).Failure? ==>
        other.dpCache == old(other.dpCache) && other.inferenceRuns == old(other.inferenceRuns)
      ensures r == CompareSpec(tableName, headers, DpMatrix(infer, headers, rows),
                               other.tableName, other.headers, DpMatrix(other.infer, other.headers, other.rows))
    {
      var nameEqual := tableName == other.tableName;
      var headersEqual := headers == other.headers;
      var lhs, rhs := BothMatrices(other);
      if lhs.Failure? {
        return Failure(lhs.error);
      }
      if rhs.Failure? {
        return Failure(rhs.error);
      }
      if !(nameEqual && headersEqual && |lhs.value| == |rhs.value|) {
        return Success(false);
      }
      var same := RowsAgree(lhs.value, rhs.value);
      return Success(same);
    }

    /** __ne__: the same walk with every test negated. */
    method NotEquals(other: TableData) returns (r: Result<bool, Error>)
      requires Valid() && other.Valid()
      modifies this, other
      ensures Valid() && other.Valid()
      ensures tableName == old(tableName) && other.tableName == old(other.tableName)
      ensures valueCache == old(valueCache) && other.valueCache == old(other.valueCache)
      ensures old(dpCache).Some? ==> dpCache == old(dpCache)
      ensures old(other.dpCache).Some? ==> other.dpCache == old(other.dpCache)
      ensures inferenceRuns >= old(inferenceRuns) && other.inferenceRuns >= old(other.inferenceRuns)
      ensures r.Success? ==> dpCache.Some? && other.dpCache.Some?
      ensures DpMatrix(infer, headers, rows).Success? ==> dpCache.Some?
      ensures DpMatrix(infer, headers, rows).Failure? ==>
        other.dpCache == old(other.dpCache) && other.inferenceRuns == old(other.inferenceRuns)
      ensures CompareSpec(tableName, headers, DpMatrix(infer, headers, rows),
                          other.tableName, other.headers, DpMatrix(other.infer, other.headers, other.rows)).Failure? ==>
        r == CompareSpec(tableName, headers, DpMatrix(infer, headers, rows),
                         other.tableName, other.headers, DpMatrix(other.infer, other.headers, other.rows))
      ensures CompareSpec(tableName, headers, DpMatrix(infer, headers, rows),
                          other.tableName, other.headers, DpMatrix(other.infer, other.headers, other.rows)).Success? ==>
        r == Success(!CompareSpec(tableName, headers, DpMatrix(infer, headers, rows),
                                  other.tableName, other.headers, DpMatrix(other.infer, other.headers, other.rows)).value)
    {
      var nameDiffers := tableName != other.tableName;
      var headersDiffer := headers != other.headers;
      var lhs, rhs := BothMatrices(other);
      if lhs.Failure? {
        return Failure(lhs.error);
      }
      if rhs.Failure? {
        return Failure(rhs.error);
      }
      if nameDiffers || headersDiffer || |lhs.value| != |rhs.value| {
        return Success(true);
      }
      var differ := RowsDiffer(lhs.value, rhs.value);
      return Success(differ);
    }

    /** as_dict: the typed matrix, then its dictionary body under the table name. */
    method AsDict() returns (r: Result<map<Value, seq<Entries>>, Error>)
      requires Valid()
      modifies this
      ensures Valid()
      ensures tableName == old(tableName) && valueCache == old(valueCache)
      ensures old(dpCache).Some? ==> dpCache == old(dpCache)
      ensures inferenceRuns >= old(inferenceRuns)
      ensures r.Success? ==> dpCache.Some?
      ensures DpMatrix(infer, headers, rows).Failure? ==> r == Failure(DpMatrix(infer, headers, rows).error)
      ensures DpMatrix(infer, headers, rows).Success? ==>
        r == Success(AsDictOf(tableName, DictBody(headers, DpMatrix(infer, headers, rows).value)))
    {
      var dp := ValueDpMatrix();
      if dp.Failure? {
        return Failure(dp.error);
      }
      var body := BuildDictBody(headers, dp.value);
      return Success(AsDictOf(tableName, body));
    }

    /** filter_column: a new table under the same name, with the headers the
        patterns select and the rows cut down to their columns; no patterns gives
        a copy of the headers and rows. The new table gets a fresh default engine,
        not this table's. */
    method FilterColumn(patterns: seq<string>, invert: bool, isRe: bool, mode: PatternMatch,
                        search: Search, defaultEngine: Infer)
      returns (r: Result<TableData, Error>)
      ensures r.Failure? <==> FilterColumns(headers, rows, patterns, invert, isRe, mode, search).Failure?
      ensures r.Failure? ==> r.error == FilterColumns(headers, rows, patterns, invert, isRe, mode, search).error
      ensures r.Success? ==>
        && fresh(r.value) && r.value.Valid()
        && r.value.tableName == tableName && r.value.infer == defaultEngine
        && (r.value.headers, r.value.rows) == FilterColumns(headers, rows, patterns, invert, isRe, mode, search).value
    {
      if |patterns| == 0 {
        var t := new TableData(tableName, Some(headers), Some(rows), defaultEngine);
        return Success(t);
      }
      if mode.Unrecognised? {
        return Failure(UnknownPatternMatch);
      }
      var rs := IterateAll(rows);
      if rs.Failure? {
        return Failure(rs.error);
      }
      var columns := Transpose(rs.value);
      var selected := SelectColumns(headers, columns, patterns, invert, isRe, mode, search);
      if selected.Failure? {
        return Failure(selected.error);
      }
      var (keptHeaders, keptColumns) := selected.value;
      var t := new TableData(tableName, Some(keptHeaders), Some(RowsOf(Transpose(keptColumns))), defaultEngine);
      return Success(t);
    }
  }

  /** The emptiness tests on three fresh tables: no headers and no rows; two
      headers and no rows; two headers and one row of two values. */
  method EmptinessExamples(name: Value, engine: Infer) returns (bare: bool, headed: bool, filled: bool)
    ensures bare && headed && !filled
  {
    var ab := [Str("a"), Str("b")];
    var t1 := new TableData(name, Some([]), Some([]), engine);
    var t2 := new TableData(name, Some(ab), Some([]), engine);
    var t3 := new TableData(name, Some(ab), Some([ListRow([Int(1), Int(2)])]), engine);
    bare := t1.IsEmptyHeader() && t1.IsEmptyRows() && t1.IsEmpty();
    headed := !t2.IsEmptyHeader() && t2.IsEmptyRows() && t2.IsEmpty();
    filled := t3.IsEmptyHeader() || t3.IsEmptyRows() || t3.IsEmpty();
  }
}
