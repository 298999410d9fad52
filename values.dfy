/**
 * The data model shared by the table code: the dynamic values a table holds,
 * the row shapes it accepts, the typed values the type-inference engine returns,
 * and the exceptions the code raises (tabledata/error.py plus the built-in
 * exceptions the code lets escape).
 */
module Values {

  import opened Wrappers

  /** A dynamically typed cell, header or table name. Floats, decimals, dates and
      every other object are `Opaque`: the table code never looks inside them. */
  datatype Value = Null | Bool(b: bool) | Int(i: int) | Str(s: string) | Opaque(id: nat)

  /** The shapes a raw row can take. A dict is kept as its entries in insertion
      order (a well-formed dict has distinct keys); a named tuple as its fields in
      declaration order; anything else (a number, a string, ...) is a `ScalarRow`. */
  datatype RowLike =
    | ListRow(items: seq<Value>)
    | DictRow(entries: seq<(Value, Value)>)
    | RecordRow(fields: seq<(string, Value)>)
    | ScalarRow(v: Value)

  /** Classification tags of the type-inference engine; only `NoneCode` matters to the table code. */
  datatype Typecode = NoneCode | IntegerCode | RealNumberCode | StringCode | BoolCode | DateTimeCode | OtherCode

  /** A value together with its inferred classification. Two typed values are
      equal iff both the value and the classification are. */
  datatype TypedValue = TypedValue(data: Value, typecode: Typecode)

  /** The exceptions the modelled code raises. */
  datatype Error =
    | InvalidTableName      // InvalidTableNameError
    | InvalidHeaderName     // InvalidHeaderNameError
    | InvalidData           // InvalidDataError (imported as DataError by the converter)
    | EmptyData             // EmptyDataError: declared, never raised by the modelled code
    | NullName              // the name validator's NullNameError
    | UnknownPatternMatch   // ValueError("unknown matching") from filter_column
    | NotIterable           // TypeError: a row that zip(*rows) cannot iterate
    | NotAString            // TypeError: re.search applied to a non-string header
    | CharOutOfRange        // ValueError from chr() on a negative code point
    | MissingAttribute      // AttributeError
    | StrategyError(code: nat)  // any other exception raised by a normalizer strategy hook

  /** dict.get: the value stored under `key`, or None when the key is absent. */
  function Lookup(entries: seq<(Value, Value)>, key: Value): (r: Value)
    ensures (forall i | 0 <= i < |entries| :: entries[i].0 != key) ==> r == Null
    ensures forall i | 0 <= i < |entries| ::
      entries[i].0 == key && (forall k | 0 <= k < i :: entries[k].0 != key) ==> r == entries[i].1
  {
    if |entries| == 0 then Null
    else if entries[0].0 == key then entries[0].1
    else Lookup(entries[1..], key)
  }

  /** namedtuple._asdict(): the fields as a mapping from field name to value. */
  function RecordAsDict(fields: seq<(string, Value)>): (r: seq<(Value, Value)>)
    ensures |r| == |fields|
    ensures forall i | 0 <= i < |fields| :: r[i] == (Str(fields[i].0), fields[i].1)
  {
    seq(|fields|, i requires 0 <= i < |fields| => (Str(fields[i].0), fields[i].1))
  }

  /** The values of a named tuple, which is itself a tuple. */
  function RecordValues(fields: seq<(string, Value)>): (r: seq<Value>)
    ensures |r| == |fields|
    ensures forall i | 0 <= i < |fields| :: r[i] == fields[i].1
  {
    seq(|fields|, i requires 0 <= i < |fields| => fields[i].1)
  }

  /** A named tuple read through `_asdict()` and read as a tuple agree: under each
      field name sits the value at that field's position, and a key that names no
      field gives None. The field names of a named tuple are distinct. */
  lemma RecordViewsAgree(fields: seq<(string, Value)>)
    requires forall i, j | 0 <= i < j < |fields| :: fields[i].0 != fields[j].0
    ensures forall i | 0 <= i < |fields| ::
      Lookup(RecordAsDict(fields), Str(fields[i].0)) == RecordValues(fields)[i]
    ensures forall key | (forall i | 0 <= i < |fields| :: key != Str(fields[i].0)) ::
      Lookup(RecordAsDict(fields), key) == Null
  {
    var d := RecordAsDict(fields);
    forall i | 0 <= i < |fields| ensures Lookup(d, Str(fields[i].0)) == RecordValues(fields)[i] {
      assert d[i].0 == Str(fields[i].0);
      forall k | 0 <= k < i ensures d[k].0 != Str(fields[i].0) {
        assert fields[k].0 != fields[i].0;
      }
    }
  }

  /** iter(row): what iterating over the raw row yields (a dict yields its keys,
      a string its characters), or None when the row is not iterable (TypeError). */
  function Iterate(row: RowLike): Option<seq<Value>>
  {
    match row
    case ListRow(items) => Some(items)
    case DictRow(entries) => Some(seq(|entries|, i requires 0 <= i < |entries| => entries[i].0))
    case RecordRow(fields) => Some(RecordValues(fields))
    case ScalarRow(v) =>
      if v.Str? then Some(seq(|v.s|, i requires 0 <= i < |v.s| => Str([v.s[i]]))) else None
  }

  /** typepy.is_not_empty_sequence: the value has a length and it is positive. */
  predicate IsNotEmptySequence(row: RowLike)
  {
    match row
    case ListRow(items) => |items| > 0
    case DictRow(entries) => |entries| > 0
    case RecordRow(fields) => |fields| > 0
    case ScalarRow(v) => v.Str? && |v.s| > 0
  }
}
