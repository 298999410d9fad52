/** Row coercion (tabledata/_converter.py): every raw row is turned into a plain
    list of values aligned to the headers, or the whole conversion fails. */
module Converter {

  import opened Wrappers
  import opened Values

  /** _to_row: a named tuple is read as a mapping of its fields; with headers, a
      mapping is looked up header by header; a list or tuple passes through as it
      is; anything else is a data error. */
  function ToRow(headers: seq<Value>, row: RowLike): (r: Result<seq<Value>, Error>)
    ensures r.Failure? <==> row.ScalarRow? || (row.DictRow? && |headers| == 0)
    ensures r.Failure? ==> r.error == InvalidData
    ensures row.ListRow? ==> r == Success(row.items)
    ensures row.DictRow? && |headers| > 0 ==>
      r.Success? && |r.value| == |headers| &&
      forall j | 0 <= j < |headers| :: r.value[j] == Lookup(row.entries, headers[j])
    ensures row.RecordRow? && |headers| > 0 ==>
      r.Success? && |r.value| == |headers| &&
      forall j | 0 <= j < |headers| :: r.value[j] == Lookup(RecordAsDict(row.fields), headers[j])
    ensures row.RecordRow? && |headers| == 0 ==> r == Success(RecordValues(row.fields))
  {
    if |headers| > 0 && (row.DictRow? || row.RecordRow?) then
      var entries := if row.RecordRow? then RecordAsDict(row.fields) else row.entries;
      Success(seq(|headers|, j requires 0 <= j < |headers| => Lookup(entries, headers[j])))
    else
      match row
      case ListRow(items) => Success(items)
      case RecordRow(fields) => Success(RecordValues(fields))
      case _ => Failure(InvalidData)
  }

  /** The rows converted one by one in input order; the first row that fails aborts
      the whole conversion and nothing partial is returned. */
  function ToRows(headers: seq<Value>, rows: seq<RowLike>): (r: Result<seq<seq<Value>>, Error>)
    ensures r.Success? <==> forall i | 0 <= i < |rows| :: ToRow(headers, rows[i]).Success?
    ensures r.Success? ==>
      |r.value| == |rows| &&
      forall i | 0 <= i < |rows| :: ToRow(headers, rows[i]) == Success(r.value[i])
    ensures r.Failure? ==>
      exists i | 0 <= i < |rows| ::
        ToRow(headers, rows[i]) == Failure(r.error) &&
        forall k | 0 <= k < i :: ToRow(headers, rows[k]).Success?
    decreases |rows|
  {
    if |rows| == 0 then Success([])
    else
      match ToRow(headers, rows[0])
      case Failure(e) => Failure(e)
      case Success(first) =>
        match ToRows(headers, rows[1..])
        case Failure(e) =>
          assert forall k | 1 <= k < |rows| :: rows[k] == rows[1..][k - 1];
          Failure(e)
        case Success(rest) =>
          assert forall k | 1 <= k < |rows| :: rows[k] == rows[1..][k - 1];
          Success([first] + rest)
  }

  /** to_value_matrix: a missing matrix converts to no rows. */
  function ToValueMatrix(headers: seq<Value>, matrix: Option<seq<RowLike>>): (r: Result<seq<seq<Value>>, Error>)
    ensures matrix.None? ==> r == Success([])
    ensures matrix.Some? ==> r == ToRows(headers, matrix.value)
  {
    match matrix
    case None => Success([])
    case Some(rows) => ToRows(headers, rows)
  }

  /** A named tuple aligned to headers gives exactly what the mapping of its fields gives. */
  lemma RecordRowIsReadAsMapping(headers: seq<Value>, fields: seq<(string, Value)>)
    requires |headers| > 0
    ensures ToRow(headers, RecordRow(fields)) == ToRow(headers, DictRow(RecordAsDict(fields)))
  {
  }

  /** Keys of a mapping row that are not headers never reach the output, and headers
      that are not keys give None. */
  lemma {:induction false} ExtraKeysDropped(headers: seq<Value>, entries: seq<(Value, Value)>, extra: seq<(Value, Value)>)
    requires |headers| > 0
    requires forall k, j | 0 <= k < |extra| && 0 <= j < |headers| :: extra[k].0 != headers[j]
    ensures ToRow(headers, DictRow(entries + extra)) == ToRow(headers, DictRow(entries))
  {
    forall j | 0 <= j < |headers|
      ensures Lookup(entries + extra, headers[j]) == Lookup(entries, headers[j])
    {
      LookupAppend(entries, extra, headers[j]);
    }
    var a := ToRow(headers, DictRow(entries + extra)).value;
    var b := ToRow(headers, DictRow(entries)).value;
    assert a == b;
  }

  lemma {:induction false} LookupAppend(entries: seq<(Value, Value)>, extra: seq<(Value, Value)>, key: Value)
    requires forall k | 0 <= k < |extra| :: extra[k].0 != key
    ensures Lookup(entries + extra, key) == Lookup(entries, key)
  {
    if |entries| == 0 {
      assert entries + extra == extra;
    } else {
      assert (entries + extra)[1..] == entries[1..] + extra;
      LookupAppend(entries[1..], extra, key);
    }
  }

  /** Five dict rows over three headers: missing keys read as None, and a key
      that is not a header is dropped. */
  lemma DictRowsExample(a: Value, b: Value, c: Value, extra: Value)
    requires a != b && a != c && b != c
    requires extra != a && extra != b && extra != c
    ensures
      var f21, f01, fm01 := Opaque(21), Opaque(1), Opaque(100);
      ToValueMatrix([a, b, c], Some([
        DictRow([(a, Int(1))]),
        DictRow([(b, f21), (c, Str("hoge"))]),
        DictRow([(a, Int(0)), (b, f01), (c, Str("foo"))]),
        DictRow([]),
        DictRow([(a, Int(-1)), (b, fm01), (c, Str("bar")), (extra, Str("extra"))])]))
      == Success([
        [Int(1), Null, Null],
        [Null, f21, Str("hoge")],
        [Int(0), f01, Str("foo")],
        [Null, Null, Null],
        [Int(-1), fm01, Str("bar")]])
  {
    var h := [a, b, c];
    var f21, f01, fm01 := Opaque(21), Opaque(1), Opaque(100);
    var rows := [
      DictRow([(a, Int(1))]),
      DictRow([(b, f21), (c, Str("hoge"))]),
      DictRow([(a, Int(0)), (b, f01), (c, Str("foo"))]),
      DictRow([]),
      DictRow([(a, Int(-1)), (b, fm01), (c, Str("bar")), (extra, Str("extra"))])];
    var expected := [
      [Int(1), Null, Null],
      [Null, f21, Str("hoge")],
      [Int(0), f01, Str("foo")],
      [Null, Null, Null],
      [Int(-1), fm01, Str("bar")]];
    forall i | 0 <= i < |rows| ensures ToRow(h, rows[i]) == Success(expected[i]) {
      var e := rows[i].entries;
      if i == 2 || i == 4 {
        assert e[0].0 != c && e[1].0 != c && e[2].0 == c;
      }
      assert Lookup(e, a) == expected[i][0] && Lookup(e, b) == expected[i][1] && Lookup(e, c) == expected[i][2];
      forall j | 0 <= j < |h| ensures Lookup(e, h[j]) == expected[i][j] {
        if j == 0 { assert h[j] == a; } else if j == 1 { assert h[j] == b; } else { assert h[j] == c; }
      }
      DictRowConverts(h, e, expected[i]);
    }
    RowsConvert(h, rows, expected);
  }

  /** Under headers, a dict row converts to the list of its lookups. */
  lemma DictRowConverts(h: seq<Value>, entries: seq<(Value, Value)>, expected: seq<Value>)
    requires |h| > 0 && |expected| == |h|
    requires forall j | 0 <= j < |h| :: Lookup(entries, h[j]) == expected[j]
    ensures ToRow(h, DictRow(entries)) == Success(expected)
  {
    var r := ToRow(h, DictRow(entries)).value;
    assert forall j | 0 <= j < |h| :: r[j] == expected[j];
    assert r == expected;
  }

  /** Rows that each convert give the matrix of their conversions. */
  lemma RowsConvert(h: seq<Value>, rows: seq<RowLike>, expected: seq<seq<Value>>)
    requires |rows| == |expected|
    requires forall i | 0 <= i < |rows| :: ToRow(h, rows[i]) == Success(expected[i])
    ensures ToRows(h, rows) == Success(expected)
  {
    var m := ToRows(h, rows).value;
    assert forall i | 0 <= i < |rows| :: m[i] == expected[i];
    assert m == expected;
  }
}
