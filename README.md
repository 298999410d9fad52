# tabledata, modelled in Dafny

This project models the core of the Python package `tabledata`. The package's
`TableData` is a named table: a table name, a list of headers and a list of raw
rows. A raw row is a list or tuple, a dict, or a namedtuple. The table infers the
type of every cell on first use (the "typed matrix", `value_dp_matrix`) and
caches it. On top of that it offers:

- comparison (`__eq__`, `__ne__`);
- emptiness tests;
- a dictionary view (`as_dict`);
- a column filter that matches header patterns (`filter_column`).

Beside the class there are:

- the row aligner `to_value_matrix`;
- spreadsheet column labels (`convert_idx_to_alphabet`);
- a normalizer that validates and repairs the table name and headers.

Modules (one file each):

| file | module | models |
|---|---|---|
| wrappers.dfy | Wrappers | `Option`, `Result`, and `Outcome` (a check that passes or raises) |
| values.dfy | Values | Python values, raw rows, typed values, the package's exceptions, `dict.get`, namedtuple `_asdict` |
| subseq.dfy | Subsequence | keeping the elements a list of booleans selects (the list comprehensions with `if`) |
| converter.dfy | Converter | `tabledata/_converter.py` |
| common.dfy | Common | `tabledata/_common.py` |
| column_filter.dfy | ColumnFilter | `filter_column`, `__is_match` and `zip(*rows)` from `tabledata/_core.py` |
| dict_view.dfy | DictView | the body of `as_dict` and `OrderedDict` construction |
| core.dfy | Table | the `TableData` class: constructor, caches, comparisons, emptiness, `as_dict`, `filter_column`, and the unused sequential converter |
| normalizer.dfy | Normalizer | `tabledata/normalizer.py` |

The model makes these choices:

- A Python value is `Null`, `Bool`, `Int`, `Str` or `Opaque(id)`. Floats, `Decimal` and dates are opaque.
- The type-inference engine (the `DataPropertyExtractor` a table is built with) is a function parameter `infer: Value -> TypedValue`, applied cell by cell.
- Regular-expression search is a parameter `search`.
- `TableData` is a class.
  - The constructor arguments become `const` fields.
  - The two caches and the table name are mutable fields.
  - A ghost counter records how many times the typed matrix has been inferred.
  - `Valid()` states that each cache holds exactly what it stands for, and that inference ran once at most.

## Model

| member | source | states |
|---|---|---|
| Values.Lookup | tabledata/_converter.py:27 | `dict.get`: the value under the first entry with that key, or `None` when no entry has it |
| Values.RecordViewsAgree | tabledata/_converter.py:21-34 | a namedtuple read through `_asdict()` and read as a tuple agree: the value under each field name is the value at that field's position, and a key naming no field gives `None` |
| Subsequence.KeptIndicesMeaning | tabledata/_core.py:322-324 | the kept positions increase strictly, and every selected position is among them |
| Subsequence.CompressMeaning | tabledata/_core.py:322-324 | the kept elements are exactly the elements at the kept positions, in order |
| Converter.ToRow | tabledata/_converter.py:19-34 | the outcome for each row shape. A list or tuple is returned as is. A dict, or a namedtuple under headers, gives one `get` per header. A namedtuple without headers gives its values. A dict without headers, or a non-sequence, raises the data error |
| Converter.ToRows | tabledata/_converter.py:16 | every row is converted, and the result holds as many rows as the input. A failure is the error of the first row that fails, with every earlier row succeeding |
| Converter.RecordRowIsReadAsMapping | tabledata/_converter.py:21-27 | under headers, a namedtuple row converts exactly like the dict of its fields |
| Converter.ExtraKeysDropped | tabledata/_converter.py:27 | dict keys that are not headers do not affect the converted row |
| Converter.DictRowsExample | test/test_converter.py:11-32 | the dict rows of the converter test, over any three distinct header keys, give the expected matrix: missing keys become `None` and an extra non-header key is dropped |
| Common.ColumnLabel | tabledata/_common.py:8-15 | a non-empty run of capital letters whose last letter is `A + idx mod 26`. It is one letter exactly when `idx < 26` |
| Common.ConvertIdxToAlphabet | tabledata/_common.py:8-15 | a non-negative index gives its label. An index from -65 to -1 gives `chr(65 + idx)`, a single character before 'A'. Below -65, `chr` raises |
| Common.LabelDecodes | tabledata/_common.py:8-15 | the label is the bijective base-26 numeral of `idx + 1` (A = 1, ..., Z = 26) |
| Common.LabelsAreDistinct | tabledata/_common.py:8-15 | distinct indices have distinct labels |
| Common.EveryWordIsALabel | tabledata/_common.py:8-15 | every non-empty word of capital letters is the label of exactly the index its numeral denotes minus one, so the labelling is onto |
| Common.OneLetterExamples | tabledata/_common.py:9-10 | 0 gives "A" and 25 gives "Z" |
| Common.LongerLabelExamples | tabledata/_common.py:12-15 | 26 gives "AA", 27 "AB", 701 "ZZ" and 702 "AAA" |
| ColumnFilter.Shortest | tabledata/_core.py:312 | the length of the shortest row, which is the length of some row |
| ColumnFilter.TransposeTwice | tabledata/_core.py:312-331 | `zip(*zip(*rows))` gives back a non-empty table whose rows all have the same positive length |
| ColumnFilter.DecideMeaning | tabledata/_core.py:305-322 | OR keeps a header when some pattern's entry holds, AND when every one does. The regex error comes up only when there is a pattern to try |
| ColumnFilter.DecisionsMeaning | tabledata/_core.py:312-322 | one decision per header, in order, succeeding iff every header's decision does. A failure is the first header's error |
| ColumnFilter.SelectColumns | tabledata/_core.py:302-324 | an unknown matching mode raises. Otherwise the loop keeps exactly the headers and columns, of the zipped pairs, whose decision holds |
| ColumnFilter.SelectPairs | tabledata/_core.py:312-324 | the loop over header/column pairs keeps the pairs the decisions select, and stops at the first error |
| ColumnFilter.DecideHeader | tabledata/_core.py:313-322 | the loop over patterns computes the header's decision |
| ColumnFilter.MatchPatterns | tabledata/_core.py:313-320 | the loop over patterns gives one entry per pattern, or raises the regex error on a non-string header |
| ColumnFilter.FilterColumnsGuards | tabledata/_core.py:297-310 | no patterns copy the headers and rows unchanged. An unknown mode raises `ValueError`. A row that cannot be iterated raises `TypeError` |
| ColumnFilter.FilterColumnsAborts | tabledata/_core.py:312-322 | the first failing header decision is the error of `filter_column` |
| ColumnFilter.FilterColumnsSelects | tabledata/_core.py:302-331 | the new headers are exactly the selected ones, in order. Each new row holds the cells of the selected columns of the matching old row. When nothing is selected, there are no rows |
| ColumnFilter.KeptCells | tabledata/_core.py:324-331 | transposing, keeping columns and transposing back picks, in every row, the cells at the kept positions |
| ColumnFilter.KeptRows | tabledata/_core.py:331 | the rows of the new table are the picked cells of each old row, or none when no column is kept |
| ColumnFilter.NoRowsKeepsNothing | tabledata/_core.py:312 | with no rows, `zip` yields nothing, so patterns keep no header at all |
| ColumnFilter.TwoColumnFilter | tabledata/_core.py:297-331 | on a 2x2 table, each of the four decision pairs keeps exactly the matching columns |
| ColumnFilter.SinglePatternDecision | tabledata/_core.py:313-322 | with one plain pattern, a header is kept iff it equals the pattern XOR inversion |
| ColumnFilter.ExactMatchExample | test/test_tabledata.py:426-433 | pattern "abcde" on headers abcde/test keeps the first column |
| ColumnFilter.InvertedMatchExample | test/test_tabledata.py:442-449 | the inverted match keeps the second column |
| ColumnFilter.UnmatchedExample | test/test_tabledata.py:552-559 | pattern "abc" keeps nothing: no headers and no rows |
| DictView.IndexOf | tabledata/_core.py:250 | the position of the key in an ordered dict, or none when the key is absent |
| DictView.OrderedDictOf | tabledata/_core.py:250 | `OrderedDict(pairs)` has no more entries than pairs, and is non-empty when the pairs are |
| DictView.InsertMeaning | tabledata/_core.py:250 | assignment into an ordered dict keeps keys distinct, adds the key, holds the new pair, and leaves every other pair |
| DictView.OrderedDictMeaning | tabledata/_core.py:250 | `OrderedDict(pairs)` has distinct keys and the keys of the pairs. For each key, the pair kept is its last one. The keys appear in the order of their first occurrence among the pairs |
| DictView.DistinctPairsUnchanged | tabledata/_core.py:250 | pairs whose keys are already distinct are kept as they are |
| DictView.RowPairsMeaning | tabledata/_core.py:241-245 | the row's pairs are the (header, data) pairs of exactly the zipped cells whose type is not NONE, in order |
| DictView.DictBody | tabledata/_core.py:236-250 | the body has at most one dict per typed row |
| DictView.EmptyRowKeepsNothing | tabledata/_core.py:238-239 | an empty typed row has no pairs, so skipping it changes nothing |
| DictView.DictBodyMeaning | tabledata/_core.py:236-250 | the body is the ordered dicts of the kept rows, in row order |
| DictView.DictBodyEntries | tabledata/_core.py:236-250 | every dict of the body is non-empty and has distinct keys |
| DictView.IncludeNoneExample | test/test_tabledata.py:249-254 | NONE-typed cells are left out, and a row of NONE cells is skipped entirely |
| Table.DpMatrixMeaning | tabledata/_core.py:88-92 | the typed matrix exists iff every row aligns to the headers. It has one row per raw row, and its cell j is the inferred type of aligned cell j |
| Table.ValueMatrixOfFaithfulEngine | tabledata/_core.py:64-92 | with an engine that returns each value as its data, `value_matrix` is the aligned rows |
| Table.ToRowHelper | tabledata/_core.py:422-451 | a dict or namedtuple gives the inferred data of `get` per header. Any other iterable gives the inferred data of its items. A non-iterable raises the data error |
| Table.ToValueMatrixSt | tabledata/_core.py:375-379 | every row is converted, in input order; one failing row makes the whole conversion fail with the data error |
| Table.ToValueMatrixRows | tabledata/_core.py:360-373 | without headers the rows are returned untouched; with headers they are the sequential conversion |
| Table.ToRowHelperAgrees | tabledata/_core.py:404-451 | under headers, the sequential row conversion equals aligning, then inferring. A string row is the exception: aligning rejects it, and the helper iterates its characters |
| Table.ToValueMatrixStAgrees | tabledata/_core.py:354-379 | without string rows, the sequential path gives exactly `value_matrix` |
| Table.StringRowDiverges | tabledata/_core.py:416-417 | a string row fails `value_matrix` with the data error, while the sequential path reads one cell per character |
| Table.SameTableIsEquality | tabledata/_core.py:143-158 | the field-by-field test of `__eq__` is equality of name, headers and typed matrix |
| Table.RowsEmptyMeaning | tabledata/_core.py:190-199 | no rows, or an empty first row, count as empty even when later rows hold data; a non-empty first row does not |
| Table.RowsAgree | tabledata/_core.py:151-158 | the loop answers whether every zipped pair of typed rows has equal length and equal cells |
| Table.RowsDiffer | tabledata/_core.py:168-175 | the loop answers the negation of the same test |
| Table.BuildDictBody | tabledata/_core.py:236-250 | the loop of `as_dict` builds exactly the dictionary body |
| Table.TableData.constructor | tabledata/_core.py:98-127 | `None` or empty headers and rows are stored as empty lists, and anything else as given. The name and engine are kept, and both caches are empty |
| Table.TableData.SetTableName | tabledata/_core.py:42-44 | the name changes and the caches are untouched |
| Table.TableData.ValueDpMatrix | tabledata/_core.py:81-92 | returns the typed matrix of the aligned rows. It infers only when nothing is cached, and then returns the cache without inferring again. A failure leaves the cache empty |
| Table.TableData.ValueMatrix | tabledata/_core.py:64-79 | returns the data of the typed matrix. A non-empty cached matrix is returned as is; an empty one is computed again. After a success, the value cache holds the result and the typed matrix is cached; a failure changes neither cache. A cached typed matrix is kept, and the inference counter never decreases |
| Table.TableData.BothMatrices | tabledata/_core.py:143-175 | the left typed matrix through its cache, then, unless that raised, the right one. Value caches are untouched and a set typed-matrix cache is kept. After a left success the left typed matrix is cached, even when the right one raises; after a left failure the other table is not touched; both are cached after two successes |
| Table.TableData.Equals | tabledata/_core.py:143-158 | the left typed matrix is inferred first, then the right one, and the first error propagates. Otherwise the result is the comparison of name, headers and typed matrices. Both value caches are untouched and a set typed-matrix cache is kept. The left typed matrix stays cached whenever it could be computed; when it raises, the other table is not touched; on success both typed matrices are cached |
| Table.TableData.NotEquals | tabledata/_core.py:160-175 | the same errors, and otherwise the negation of `__eq__`, with the same guarantees about both tables' caches |
| Table.TableData.AsDict | tabledata/_core.py:211-252 | an alignment error propagates; otherwise the result is the table name mapped to the dictionary body of the typed matrix. The value cache is untouched, a set typed-matrix cache is kept, and on success the typed matrix is cached |
| Table.TableData.IsEmptyHeader | tabledata/_core.py:177-183 | true iff the stored headers are empty, which they are when the constructor got `None` or an empty list |
| Table.TableData.IsEmptyRows | tabledata/_core.py:190-199 | true iff there are no rows or the first raw row has no positive length; an empty first row makes the rows empty whatever follows |
| Table.TableData.IsEmpty | tabledata/_core.py:201-209 | false iff the table has headers and a first raw row of positive length |
| Table.TableData.FilterColumn | tabledata/_core.py:289-331 | fails exactly when the column filter does, with its error. Otherwise it returns a fresh, valid table under the same name, holding the filtered headers and rows and the default engine |
| Table.EmptinessExamples | test/test_tabledata.py:358-396 | no headers and no rows: every emptiness test holds. Headers and no rows: only the header test fails. Headers and a row: every test fails |
| Normalizer.Settle | tabledata/normalizer.py:137-168 | a name that validates is kept. The class's own invalid-name error earns one normalisation and one more validation, whose errors propagate. A null-name error becomes the invalid-name error, and any other error propagates. A success always validates |
| Normalizer.NormalizedNameValidates | tabledata/normalizer.py:137-149 | the normalised table name validates. A preprocessed name that validates is kept, and a null name is rejected as invalid |
| Normalizer.NormalizedHeadersMeaning | tabledata/normalizer.py:151-168 | each header is normalised with its column index, in order. The list succeeds iff every header does, and a failure is the first header's error |
| Normalizer.NormalizeHeaderList | tabledata/normalizer.py:151-168 | the loop computes exactly the normalised header list |
| Normalizer.NormalizedHeadersFailureExtends | tabledata/normalizer.py:154-166 | once a header fails, the later headers do not change the outcome |
| Normalizer.ValidateTableMeaning | tabledata/normalizer.py:39-41 | validation passes iff the name and every header validate. The name is checked first, then the headers in order, and the first error is raised |
| Normalizer.ValidateHeadersMeaning | tabledata/normalizer.py:133-135 | the headers pass iff each does; a failure is the first header's error |
| Normalizer.Validate | tabledata/normalizer.py:39-41 | the loop computes exactly that validation outcome for the table |
| Normalizer.ValidateHeadersFailureExtends | tabledata/normalizer.py:133-135 | once a header fails validation, the later headers do not change the outcome |
| Normalizer.NormalizeAsWrittenNeverSucceeds | tabledata/normalizer.py:54-58 | as written, `normalize` never returns a table; when name and headers normalise, it raises `AttributeError` |
| Normalizer.NormalizedParts | tabledata/normalizer.py:54-57 | the name is normalised first, then the headers, and the first error propagates. On success the new table has the normalised name and headers (one per old header) and the rows unchanged |
| Normalizer.Normalize | tabledata/normalizer.py:48-58 | fails iff the normalised parts fail, with the same error. Otherwise it returns a fresh, valid table of the normalised parts, with the old table's engine |
| Normalizer.DefaultStrategy | tabledata/normalizer.py:171-195 | the default validators accept exactly strings |
| Normalizer.ForceString | tabledata/normalizer.py:182-183 | `force_convert` always gives a string, and leaves a string as it is |
| Normalizer.DefaultNameNeverFails | tabledata/normalizer.py:137-149 | under the default strategy every table name normalises, to its string rendering |
| Normalizer.DefaultHeadersNeverFail | tabledata/normalizer.py:151-168 | under the default strategy every header list normalises, each header to its string rendering |
| Normalizer.DefaultKeepsStringTables | test/test_normalizer.py:8-48 | a table whose name and headers are all strings normalises to the same name, headers and rows |

## Left out

- Multiprocess conversion (`__to_value_matrix_mt`, _core.py:381-401). It is process-pool concurrency. The sequential path it shares its row helper with is modelled.
- The type-inference engine (`DataPropertyExtractor` from the `dataproperty` package) is not part of this model. It is a function parameter applied cell by cell, so column-wise inference, `strip_str_header`, `quoting_flags`, `float_type = Decimal` and `max_workers` are not represented.
- `header_dp_list` (_core.py:94-96) only delegates to the engine, and is not modelled.
- `re.search` is the `search` parameter; regular-expression syntax and its errors are not modelled.
- `as_dataframe` and `from_dataframe` depend on pandas, and are not modelled.
- `__repr__` is string formatting only, and is not modelled.
- Logging is not modelled.
- The deprecated aliases `is_empty_record` and `sanitize` only delegate to `is_empty_rows` and `normalize`.
- Equality of values is Dafny equality wherever the source compares them: cells in `__eq__`/`__ne__`, the table-name and header comparisons there (_core.py:145-146, 162-163), and the key matching of `dict.get` in Values.Lookup (_converter.py:27). Python's cross-type equality (`1 == 1.0 == True`, so `{1: x}.get(True)` finds `x` where the model gives `None`), the matching hashes it relies on, and NaN are not represented, because floats are opaque values and `Bool` and `Int` are distinct.
- `_converter.py` imports `DataError`, which `tabledata/error.py` does not define, and `_core.py` raises `InvalidDataError`. Both are modelled as the one error `InvalidData`.
- `filter_column` with `pattern_list=None` is modelled as an empty pattern list; both are falsy and give the same copy.
- Table.TableData.FilterColumn: the new table's default engine is a parameter, because `TableData(...)` creates a new `DataPropertyExtractor` that the model cannot construct.
- Normalizer.Strategy: `_preprocess_table_name` receives the table name, which is all the default implementation reads.
- Normalizer.DefaultStrategy: `typepy.String(v).validate()` is modelled as "v is a string". `force_convert` is a `render` parameter that maps any value to text.
- `typepy.is_not_empty_sequence` is modelled as "has a length and it is positive", with a string row counting by its length.
- Table.ToValueMatrixRows: `__to_value_matrix` has no caller in `_core.py`. It is modelled, and its difference from `value_matrix` on string rows is stated, but nothing else uses it.
- Table.TableData.ValueDpMatrix: the cache is tested against `None`, as the source does. An empty typed matrix is therefore cached.
- Table.TableData.Equals: `other` is assumed to be a `TableData`. Comparing with an object of another class raises `AttributeError` in the source, and is not modelled.
- Normalizer.Normalize: in the source the headers live in the extractor object (`header_list` reads the extractor's `header_list`, _core.py:53), and the constructor overwrites that attribute (_core.py:119-122) and sets `strip_str_header` on it (_core.py:109). The intended `normalize` hands the old table's extractor to the new table, so the old table's headers would become the normalised ones as well. The model keeps each table's headers in the table itself and leaves the old table untouched, so this aliasing is not captured.
- Table.TableData.constructor: two tables built over one extractor share their headers in the source, and the last constructor to run decides them for both. The model stores the headers per table, so this sharing is not represented.

## Findings

| source | as written | input that shows it | evidently intended | confidence | as-written member | corrected member |
|---|---|---|---|---|---|---|
| tabledata/normalizer.py:54-58 | `normalize` passes `dp_extractor=self._tabledata.dp_extractor`, but `TableData` keeps its extractor in the name-mangled private attribute `__dp_extractor` and defines no `dp_extractor` | any table whose name and headers normalise, e.g. `TableData("normal", ["a", "b_c"], [[1, 2], [3, 4]])` from test/test_normalizer.py:11-16 | a new table with the normalised name and headers, the same rows, and the old table's extractor | not executed | Normalizer.NormalizeAsWrittenNeverSucceeds | Normalizer.Normalize |
