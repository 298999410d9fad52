/** The table normaliser (tabledata/normalizer.py): a strategy of six hooks run
    once for the table name and once per header — preprocess, validate, and on an
    invalid-name error normalise once and validate again — and a new table built
    from the results and the unchanged rows. */
module Normalizer {

  import opened Wrappers
  import opened Values
  import opened Table

  /** The hooks a concrete normaliser supplies; every hook may raise. The table-name
      preprocessing hook is given the current table name. */
  datatype Strategy = Strategy(
    preprocessTableName: Value -> Result<Value, Error>,
    validateTableName: Value -> Outcome<Error>,
    normalizeTableName: Value -> Result<Value, Error>,
    preprocessHeader: (nat, Value) -> Result<Value, Error>,
    validateHeader: Value -> Outcome<Error>,
    normalizeHeader: Value -> Result<Value, Error>)

  /** The try/except shared by the table name and the headers: a candidate that
      validates is kept as it is; the invalid-name error `invalid` earns one
      normalisation and one more validation, whose errors pass through unchanged;
      a null-name error becomes `invalid`; any other error passes through. */
  function Settle(candidate: Value, validate: Value -> Outcome<Error>,
                  normalize: Value -> Result<Value, Error>, invalid: Error): (r: Result<Value, Error>)
    requires invalid == InvalidTableName || invalid == InvalidHeaderName
    ensures r.Success? ==> validate(r.value).Pass?
    ensures validate(candidate).Pass? ==> r == Success(candidate)
    ensures validate(candidate) == Fail(NullName) ==> r == Failure(invalid)
    ensures validate(candidate).Fail? && validate(candidate).error != invalid && validate(candidate).error != NullName ==>
      r == Failure(validate(candidate).error)
    ensures validate(candidate) == Fail(invalid) && normalize(candidate).Failure? ==>
      r == Failure(normalize(candidate).error)
    ensures validate(candidate) == Fail(invalid) && normalize(candidate).Success? &&
            validate(normalize(candidate).value).Pass? ==>
      r == Success(normalize(candidate).value)
    ensures validate(candidate) == Fail(invalid) && normalize(candidate).Success? &&
            validate(normalize(candidate).value).Fail? ==>
      r == Failure(validate(normalize(candidate).value).error)
  {
    match validate(candidate)
    case Pass => Success(candidate)
    case Fail(e) =>
      if e == invalid then
        match normalize(candidate)
        case Failure(e') => Failure(e')
        case Success(renamed) =>
          match validate(renamed)
          case Pass => Success(renamed)
          case Fail(e'') => Failure(e'')
      else if e == NullName then Failure(invalid)
      else Failure(e)
  }

  /** __normalize_table_name: the preprocessed table name, settled. */
  function NormalizedName(s: Strategy, name: Value): Result<Value, Error>
  {
    match s.preprocessTableName(name)
    case Failure(e) => Failure(e)
    case Success(candidate) => Settle(candidate, s.validateTableName, s.normalizeTableName, InvalidTableName)
  }

  /** One round of _normalize_header_list: header `h` at column `col`, preprocessed
      and settled. */
  function NormalizedHeader(s: Strategy, col: nat, h: Value): Result<Value, Error>
  {
    match s.preprocessHeader(col, h)
    case Failure(e) => Failure(e)
    case Success(candidate) => Settle(candidate, s.validateHeader, s.normalizeHeader, InvalidHeaderName)
  }

  /** A name only ever leaves normalisation as one that the validator accepts, and
      a preprocessed name that validates is kept verbatim. */
  lemma NormalizedNameValidates(s: Strategy, name: Value)
    ensures NormalizedName(s, name).Success? ==> s.validateTableName(NormalizedName(s, name).value).Pass?
    ensures s.preprocessTableName(name).Success? && s.validateTableName(s.preprocessTableName(name).value).Pass? ==>
      NormalizedName(s, name) == s.preprocessTableName(name)
    ensures s.preprocessTableName(name).Success? && s.validateTableName(s.preprocessTableName(name).value) == Fail(NullName) ==>
      NormalizedName(s, name) == Failure(InvalidTableName)
  {
  }

  /** The normalised header list: every header in column order, the first one that
      raises aborting the whole list. */
  function NormalizedHeaders(s: Strategy, headers: seq<Value>): (r: Result<seq<Value>, Error>)
    ensures r.Success? ==> |r.value| == |headers|
    decreases |headers|
  {
    if |headers| == 0 then Success([])
    else
      var n := |headers| - 1;
      match NormalizedHeaders(s, headers[..n])
      case Failure(e) => Failure(e)
      case Success(front) =>
        match NormalizedHeader(s, n, headers[n])
        case Failure(e) => Failure(e)
        case Success(last) => Success(front + [last])
  }

  /** The list succeeds iff every header does; entry i is then what header i alone
      gives at column i; a failure is that of the first header that fails. */
  lemma {:induction false} NormalizedHeadersMeaning(s: Strategy, headers: seq<Value>)
    ensures NormalizedHeaders(s, headers).Success? <==>
      forall i | 0 <= i < |headers| :: NormalizedHeader(s, i, headers[i]).Success?
    ensures NormalizedHeaders(s, headers).Success? ==>
      forall i | 0 <= i < |headers| :: NormalizedHeader(s, i, headers[i]) == Success(NormalizedHeaders(s, headers).value[i])
    ensures NormalizedHeaders(s, headers).Failure? ==>
      exists i | 0 <= i < |headers| ::
        NormalizedHeader(s, i, headers[i]) == Failure(NormalizedHeaders(s, headers).error) &&
        forall k | 0 <= k < i :: NormalizedHeader(s, k, headers[k]).Success?
    decreases |headers|
  {
    if |headers| > 0 {
      var n := |headers| - 1;
      var front := headers[..n];
      NormalizedHeadersMeaning(s, front);
      assert forall i | 0 <= i < n :: front[i] == headers[i];
      var r := NormalizedHeaders(s, headers);
      if NormalizedHeaders(s, front).Success? && NormalizedHeader(s, n, headers[n]).Failure? {
        assert NormalizedHeader(s, n, headers[n]) == Failure(r.error);
      }
    }
  }

  /** _normalize_header_list: the loop that appends each settled header in turn. */
  method NormalizeHeaderList(s: Strategy, headers: seq<Value>) returns (r: Result<seq<Value>, Error>)
    ensures r == NormalizedHeaders(s, headers)
  {
    var renamed: seq<Value> := [];
    var i := 0;
    while i < |headers|
      invariant 0 <= i <= |headers|
      invariant NormalizedHeaders(s, headers[..i]) == Success(renamed)
    {
      assert headers[..i + 1][..i] == headers[..i];
      var h := NormalizedHeader(s, i, headers[i]);
      if h.Failure? {
        NormalizedHeadersFailureExtends(s, headers, i + 1);
        return Failure(h.error);
      }
      renamed := renamed + [h.value];
      i := i + 1;
    }
    assert headers[..i] == headers;
    return Success(renamed);
  }

  /** Once a prefix of the headers fails, the whole list fails the same way. */
  lemma {:induction false} NormalizedHeadersFailureExtends(s: Strategy, headers: seq<Value>, i: nat)
    requires i <= |headers| && NormalizedHeaders(s, headers[..i]).Failure?
    ensures NormalizedHeaders(s, headers) == NormalizedHeaders(s, headers[..i])
    decreases |headers| - i
  {
    if i < |headers| {
      assert headers[..i + 1][..i] == headers[..i];
      NormalizedHeadersFailureExtends(s, headers, i + 1);
    } else {
      assert headers[..i] == headers;
    }
  }

  /** validate: the raw table name, then every raw header in order; nothing is
      preprocessed, normalised or translated, and the first error is raised. */
  function ValidateHeaders(s: Strategy, headers: seq<Value>): Outcome<Error>
    decreases |headers|
  {
    if |headers| == 0 then Pass
    else
      var n := |headers| - 1;
      match ValidateHeaders(s, headers[..n])
      case Fail(e) => Fail(e)
      case Pass => s.validateHeader(headers[n])
  }

  function ValidateTable(s: Strategy, name: Value, headers: seq<Value>): Outcome<Error>
  {
    match s.validateTableName(name)
    case Fail(e) => Fail(e)
    case Pass => ValidateHeaders(s, headers)
  }

  /** validate passes iff the table name and every header pass; otherwise its error
      is that of the name, or else of the first header that fails. */
  lemma {:induction false} ValidateTableMeaning(s: Strategy, name: Value, headers: seq<Value>)
    ensures ValidateTable(s, name, headers).Pass? <==>
      s.validateTableName(name).Pass? && forall i | 0 <= i < |headers| :: s.validateHeader(headers[i]).Pass?
    ensures s.validateTableName(name).Fail? ==> ValidateTable(s, name, headers) == s.validateTableName(name)
    ensures s.validateTableName(name).Pass? && ValidateTable(s, name, headers).Fail? ==>
      exists i | 0 <= i < |headers| ::
        s.validateHeader(headers[i]) == ValidateTable(s, name, headers) &&
        forall k | 0 <= k < i :: s.validateHeader(headers[k]).Pass?
  {
    ValidateHeadersMeaning(s, headers);
  }

  lemma {:induction false} ValidateHeadersMeaning(s: Strategy, headers: seq<Value>)
    ensures ValidateHeaders(s, headers).Pass? <==> forall i | 0 <= i < |headers| :: s.validateHeader(headers[i]).Pass?
    ensures ValidateHeaders(s, headers).Fail? ==>
      exists i | 0 <= i < |headers| ::
        s.validateHeader(headers[i]) == ValidateHeaders(s, headers) &&
        forall k | 0 <= k < i :: s.validateHeader(headers[k]).Pass?
    decreases |headers|
  {
    if |headers| > 0 {
      var n := |headers| - 1;
      var front := headers[..n];
      ValidateHeadersMeaning(s, front);
      assert forall i | 0 <= i < n :: front[i] == headers[i];
    }
  }

  /** validate on a table: the name check, then the loop of _validate_header_list;
      the table is left as it was. */
  method Validate(s: Strategy, t: TableData) returns (r: Outcome<Error>)
    ensures r == ValidateTable(s, t.tableName, t.headers)
  {
    var nameCheck := s.validateTableName(t.tableName);
    if nameCheck.Fail? {
      return nameCheck;
    }
    var headers := t.headers;
    var i := 0;
    while i < |headers|
      invariant 0 <= i <= |headers|
      invariant ValidateHeaders(s, headers[..i]) == Pass
    {
      assert headers[..i + 1][..i] == headers[..i];
      var check := s.validateHeader(headers[i]);
      if check.Fail? {
        ValidateHeadersFailureExtends(s, headers, i + 1);
        return check;
      }
      i := i + 1;
    }
    assert headers[..i] == headers;
    return Pass;
  }

  lemma {:induction false} ValidateHeadersFailureExtends(s: Strategy, headers: seq<Value>, i: nat)
    requires i <= |headers| && ValidateHeaders(s, headers[..i]).Fail?
    ensures ValidateHeaders(s, headers) == ValidateHeaders(s, headers[..i])
    decreases |headers| - i
  {
    if i < |headers| {
      assert headers[..i + 1][..i] == headers[..i];
      ValidateHeadersFailureExtends(s, headers, i + 1);
    } else {
      assert headers[..i] == headers;
    }
  }

  /** normalize as written: the table name, the header list and the rows are
      produced in that order, and then the new table asks the source table for a
      public `dp_extractor` attribute, which TableData does not have (its engine
      is kept under a private, name-mangled attribute): AttributeError. */
  function NormalizeAsWritten(s: Strategy, name: Value, headers: seq<Value>, rows: seq<RowLike>):
    Result<(Value, seq<Value>, seq<RowLike>), Error>
  {
    match NormalizedName(s, name)
    case Failure(e) => Failure(e)
    case Success(newName) =>
      match NormalizedHeaders(s, headers)
      case Failure(e) => Failure(e)
      case Success(newHeaders) => Failure(MissingAttribute)
  }

  /** As written, normalize never returns a table: an error of the name or of a
      header is raised first, and otherwise the missing attribute. */
  lemma NormalizeAsWrittenNeverSucceeds(s: Strategy, name: Value, headers: seq<Value>, rows: seq<RowLike>)
    ensures NormalizeAsWritten(s, name, headers, rows).Failure?
    ensures NormalizedName(s, name).Success? && NormalizedHeaders(s, headers).Success? ==>
      NormalizeAsWritten(s, name, headers, rows) == Failure(MissingAttribute)
  {
  }

  /** normalize as intended: the settled name, the settled headers and the rows of
      the source table unchanged, the name's error raised before any header's. */
  function NormalizedParts(s: Strategy, name: Value, headers: seq<Value>, rows: seq<RowLike>):
    (r: Result<(Value, seq<Value>, seq<RowLike>), Error>)
    ensures r.Success? <==> NormalizedName(s, name).Success? && NormalizedHeaders(s, headers).Success?
    ensures NormalizedName(s, name).Failure? ==> r == Failure(NormalizedName(s, name).error)
    ensures NormalizedName(s, name).Success? && NormalizedHeaders(s, headers).Failure? ==>
      r == Failure(NormalizedHeaders(s, headers).error)
    ensures r.Success? ==>
      && r.value.0 == NormalizedName(s, name).value
      && r.value.1 == NormalizedHeaders(s, headers).value
      && |r.value.1| == |headers|
      && r.value.2 == rows
  {
    match NormalizedName(s, name)
    case Failure(e) => Failure(e)
    case Success(newName) =>
      match NormalizedHeaders(s, headers)
      case Failure(e) => Failure(e)
      case Success(newHeaders) => Success((newName, newHeaders, rows))
  }

  /** normalize as intended: a new table of the settled name and headers and the
      source rows, typed by the source table's own engine. */
  method Normalize(s: Strategy, t: TableData) returns (r: Result<TableData, Error>)
    ensures r.Failure? <==> NormalizedParts(s, t.tableName, t.headers, t.rows).Failure?
    ensures r.Failure? ==> r.error == NormalizedParts(s, t.tableName, t.headers, t.rows).error
    ensures r.Success? ==>
      && fresh(r.value) && r.value.Valid()
      && (r.value.tableName, r.value.headers, r.value.rows) == NormalizedParts(s, t.tableName, t.headers, t.rows).value
      && r.value.infer == t.infer
  {
    var name := NormalizedName(s, t.tableName);
    if name.Failure? {
      return Failure(name.error);
    }
    var headers := NormalizeHeaderList(s, t.headers);
    if headers.Failure? {
      return Failure(headers.error);
    }
    var table := new TableData(name.value, Some(headers.value), Some(t.rows), t.infer);
    return Success(table);
  }

  /** TableDataNormalizer: preprocessing returns the name or header as it is, a
      name or header is valid iff it is a string, and normalisation converts it to
      a string (`render` stands for str() on a value that is not one). */
  function DefaultStrategy(render: Value -> string): (s: Strategy)
    ensures forall v :: s.validateTableName(v).Pass? <==> v.Str?
    ensures forall v :: s.validateHeader(v).Pass? <==> v.Str?
  {
    Strategy(
      (name: Value) => Success(name),
      (name: Value) => if name.Str? then Pass else Fail(InvalidTableName),
      (name: Value) => Success(ForceString(render, name)),
      (col: nat, h: Value) => Success(h),
      (h: Value) => if h.Str? then Pass else Fail(InvalidHeaderName),
      (h: Value) => Success(ForceString(render, h)))
  }

  /** typepy's String(value).force_convert(): a string is kept, anything else rendered. */
  function ForceString(render: Value -> string, v: Value): (r: Value)
    ensures r.Str?
    ensures v.Str? ==> r == v
  {
    if v.Str? then v else Str(render(v))
  }

  /** Under the default strategy a name never fails: a string name is kept and any
      other name is rendered as a string, which then validates. */
  lemma DefaultNameNeverFails(render: Value -> string, name: Value)
    ensures NormalizedName(DefaultStrategy(render), name) == Success(ForceString(render, name))
  {
  }

  /** Under the default strategy the header list never fails: it keeps its length,
      every header becomes a string, and string headers are kept as they are. */
  lemma {:induction false} DefaultHeadersNeverFail(render: Value -> string, headers: seq<Value>)
    ensures var r := NormalizedHeaders(DefaultStrategy(render), headers);
      && r.Success? && |r.value| == |headers|
      && forall i | 0 <= i < |headers| :: r.value[i] == ForceString(render, headers[i])
    decreases |headers|
  {
    if |headers| > 0 {
      var n := |headers| - 1;
      DefaultHeadersNeverFail(render, headers[..n]);
      var s := DefaultStrategy(render);
      assert NormalizedHeader(s, n, headers[n]) == Success(ForceString(render, headers[n]));
    }
  }

  /** The cases of the default normaliser's own examples: a table whose name and
      headers are all strings comes back with the same name, headers and rows. */
  lemma DefaultKeepsStringTables(render: Value -> string, name: Value, headers: seq<Value>, rows: seq<RowLike>)
    requires name.Str? && forall i | 0 <= i < |headers| :: headers[i].Str?
    ensures NormalizedParts(DefaultStrategy(render), name, headers, rows) == Success((name, headers, rows))
  {
    DefaultHeadersNeverFail(render, headers);
    var r := NormalizedHeaders(DefaultStrategy(render), headers).value;
    assert r == headers;
  }
}
