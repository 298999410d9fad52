/** Column selection of TableData.filter_column (tabledata/_core.py): which
    headers survive a list of patterns, and the column-major round trip through
    zip(*rows) that carries their cells along. */
module ColumnFilter {

  import opened Wrappers
  import opened Values
  import opened Subsequence

  /** PatternMatch.OR, PatternMatch.AND, or any other value a caller passes. */
  datatype PatternMatch = Or | And | Unrecognised(code: int)

  /** re.search(pattern, text) is not None, supplied by the regular-expression engine. */
  type Search = (string, string) -> bool

  /** The headers that survive, with their columns. */
  type Selection = (seq<Value>, seq<seq<Value>>)

  /** The headers and rows of a filtered table. */
  type Filtered = (seq<Value>, seq<RowLike>)

  /** Every raw row iterated, or the TypeError that zip(*rows) raises when a row is not iterable. */
  function IterateAll(rows: seq<RowLike>): (r: Result<seq<seq<Value>>, Error>)
    ensures r.Success? <==> forall i | 0 <= i < |rows| :: Iterate(rows[i]).Some?
    ensures r.Success? ==> |r.value| == |rows| && forall i | 0 <= i < |rows| :: Iterate(rows[i]) == Some(r.value[i])
    ensures r.Failure? ==> r.error == NotIterable
  {
    if forall i | 0 <= i < |rows| :: Iterate(rows[i]).Some? then
      Success(seq(|rows|, i requires 0 <= i < |rows| => Iterate(rows[i]).value))
    else Failure(NotIterable)
  }

  /** The length of the shortest of several sequences. */
  function Shortest(rs: seq<seq<Value>>): (n: nat)
    requires |rs| > 0
    ensures forall i | 0 <= i < |rs| :: n <= |rs[i]|
    ensures exists i | 0 <= i < |rs| :: n == |rs[i]|
  {
    if |rs| == 1 then |rs[0]| else Min(|rs[0]|, Shortest(rs[1..]))
  }

  /** zip(*rs): the i-th elements of all the sequences, for every i up to the
      shortest one; zip() of nothing is empty. */
  function Transpose(rs: seq<seq<Value>>): (cols: seq<seq<Value>>)
    ensures |rs| == 0 ==> cols == []
    ensures |rs| > 0 ==> |cols| == Shortest(rs)
    ensures forall j | 0 <= j < |cols| ::
      |cols[j]| == |rs| && forall i | 0 <= i < |rs| :: cols[j][i] == rs[i][j]
  {
    if |rs| == 0 then []
    else
      seq(Shortest(rs), j requires 0 <= j < Shortest(rs) =>
        seq(|rs|, i requires 0 <= i < |rs| => rs[i][j]))
  }

  /** Whether a header matches a pattern, ignoring the error case: exact equality,
      or a regular-expression search inside a string header. */
  predicate Matches(header: Value, pattern: string, isRe: bool, search: Search)
  {
    if isRe then header.Str? && search(pattern, header.s) else header == Str(pattern)
  }

  /** __is_match: re.search raises TypeError on a header that is not a string. */
  function IsMatch(header: Value, pattern: string, isRe: bool, search: Search): (r: Result<bool, Error>)
    ensures r.Failure? <==> isRe && !header.Str?
    ensures r.Failure? ==> r.error == NotAString
    ensures r.Success? ==> r.value == Matches(header, pattern, isRe, search)
  {
    if isRe then
      if header.Str? then Success(search(pattern, header.s)) else Failure(NotAString)
    else Success(header == Str(pattern))
  }

  /** any(...) for OR, all(...) for AND. */
  function Combine(mode: PatternMatch, bs: seq<bool>): bool
    requires !mode.Unrecognised?
  {
    if mode.Or? then true in bs else false !in bs
  }

  /** The retention decision for one header: each pattern's match XOR the
      inversion flag, combined by any (OR) or all (AND). */
  function Decide(header: Value, patterns: seq<string>, invert: bool, isRe: bool, mode: PatternMatch, search: Search): Result<bool, Error>
    requires !mode.Unrecognised?
  {
    if isRe && !header.Str? && |patterns| > 0 then Failure(NotAString)
    else Success(Combine(mode, PatternBits(header, patterns, invert, isRe, search)))
  }

  /** is_match_list: for each pattern, whether it matches exactly when the match is not inverted. */
  function PatternBits(header: Value, patterns: seq<string>, invert: bool, isRe: bool, search: Search): (bs: seq<bool>)
    ensures |bs| == |patterns|
    ensures forall k | 0 <= k < |patterns| :: bs[k] == (Matches(header, patterns[k], isRe, search) != invert)
  {
    seq(|patterns|, k requires 0 <= k < |patterns| =>
      var m := Matches(header, patterns[k], isRe, search);
      (m && !invert) || (!m && invert))
  }

  /** A header is kept iff some pattern (OR) or every pattern (AND) matches it,
      each match flipped by the inversion flag; only a non-string header under
      regular-expression matching makes the decision raise. */
  lemma DecideMeaning(header: Value, patterns: seq<string>, invert: bool, isRe: bool, mode: PatternMatch, search: Search)
    requires !mode.Unrecognised?
    ensures var r := Decide(header, patterns, invert, isRe, mode, search);
      && (r.Failure? <==> isRe && !header.Str? && |patterns| > 0)
      && (r.Failure? ==> r.error == NotAString)
      && (r.Success? && mode.Or? ==>
           (r.value <==> exists k | 0 <= k < |patterns| :: Matches(header, patterns[k], isRe, search) != invert))
      && (r.Success? && mode.And? ==>
           (r.value <==> forall k | 0 <= k < |patterns| :: Matches(header, patterns[k], isRe, search) != invert))
  {
  }

  /** The decisions for a list of headers, left to right; the first header whose
      matching raises aborts the whole selection. */
  function Decisions(headers: seq<Value>, patterns: seq<string>, invert: bool, isRe: bool, mode: PatternMatch, search: Search): (r: Result<seq<bool>, Error>)
    requires !mode.Unrecognised?
    ensures r.Success? ==> |r.value| == |headers|
    decreases |headers|
  {
    if |headers| == 0 then Success([])
    else
      var n := |headers| - 1;
      match Decisions(headers[..n], patterns, invert, isRe, mode, search)
      case Failure(e) => Failure(e)
      case Success(bits) =>
        match Decide(headers[n], patterns, invert, isRe, mode, search)
        case Failure(e) => Failure(e)
        case Success(keep) => Success(bits + [keep])
  }

  /** The decisions succeed iff every header's does, one per header in order; on
      failure the error is that of the first header whose decision raises. */
  lemma {:induction false} DecisionsMeaning(headers: seq<Value>, patterns: seq<string>, invert: bool, isRe: bool, mode: PatternMatch, search: Search)
    requires !mode.Unrecognised?
    ensures var r := Decisions(headers, patterns, invert, isRe, mode, search);
      && (r.Success? <==> forall j | 0 <= j < |headers| :: Decide(headers[j], patterns, invert, isRe, mode, search).Success?)
      && (r.Success? ==>
           |r.value| == |headers| &&
           forall j | 0 <= j < |headers| :: Decide(headers[j], patterns, invert, isRe, mode, search) == Success(r.value[j]))
      && (r.Failure? ==>
           exists j | 0 <= j < |headers| ::
             Decide(headers[j], patterns, invert, isRe, mode, search) == Failure(r.error) &&
             forall q | 0 <= q < j :: Decide(headers[q], patterns, invert, isRe, mode, search).Success?)
    decreases |headers|
  {
    if |headers| > 0 {
      var n := |headers| - 1;
      DecisionsMeaning(headers[..n], patterns, invert, isRe, mode, search);
      assert forall q | 0 <= q < n :: headers[..n][q] == headers[q];
    }
  }

  /** The header/column pairs whose decision holds, in their order, or the error
      of the first header whose decision raises. */
  function Selected(hs: seq<Value>, cs: seq<seq<Value>>, patterns: seq<string>,
                    invert: bool, isRe: bool, mode: PatternMatch, search: Search): Result<Selection, Error>
    requires !mode.Unrecognised? && |hs| == |cs|
  {
    match Decisions(hs, patterns, invert, isRe, mode, search)
    case Failure(e) => Failure(e)
    case Success(bits) => Success((Compress(hs, bits), Compress(cs, bits)))
  }

  /** The loop of filter_column: the headers (and their columns) whose decision
      holds, in their original order, over the pairs that zip(headers, columns) forms. */
  method SelectColumns(headers: seq<Value>, columns: seq<seq<Value>>, patterns: seq<string>,
                       invert: bool, isRe: bool, mode: PatternMatch, search: Search)
    returns (r: Result<Selection, Error>)
    ensures mode.Unrecognised? ==> r == Failure(UnknownPatternMatch)
    ensures !mode.Unrecognised? ==>
      r == Selected(headers[..Min(|headers|, |columns|)], columns[..Min(|headers|, |columns|)],
                    patterns, invert, isRe, mode, search)
  {
    if mode.Unrecognised? {
      return Failure(UnknownPatternMatch);
    }
    var n := Min(|headers|, |columns|);
    r := SelectPairs(headers[..n], columns[..n], patterns, invert, isRe, mode, search);
  }

  /** The body of that loop over the pairs zip(headers, columns) forms: each pair
      whose header is kept is appended, in order. */
  method SelectPairs(hs: seq<Value>, cs: seq<seq<Value>>, patterns: seq<string>,
                     invert: bool, isRe: bool, mode: PatternMatch, search: Search)
    returns (r: Result<Selection, Error>)
    requires !mode.Unrecognised? && |hs| == |cs|
    ensures r == Selected(hs, cs, patterns, invert, isRe, mode, search)
  {
    var keptHeaders: seq<Value> := [];
    var keptColumns: seq<seq<Value>> := [];
    ghost var bits: seq<bool> := [];
    var j := 0;
    while j < |hs|
      invariant 0 <= j <= |hs|
      invariant Decisions(hs[..j], patterns, invert, isRe, mode, search) == Success(bits)
      invariant keptHeaders == Compress(hs[..j], bits)
      invariant keptColumns == Compress(cs[..j], bits)
    {
      var keep;
      keep, keptHeaders, keptColumns, bits :=
        SelectNext(hs, cs, j, bits, keptHeaders, keptColumns, patterns, invert, isRe, mode, search);
      if keep.Failure? {
        return Failure(keep.error);
      }
      j := j + 1;
    }
    assert hs[..j] == hs && cs[..j] == cs;
    return Success((keptHeaders, keptColumns));
  }

  /** One pass of that loop: the header at j is decided, and the pair is appended
      when it is kept; a header whose matching raises ends the whole selection. */
  method SelectNext(hs: seq<Value>, cs: seq<seq<Value>>, j: nat, ghost bits: seq<bool>,
                    keptHeaders: seq<Value>, keptColumns: seq<seq<Value>>,
                    patterns: seq<string>, invert: bool, isRe: bool, mode: PatternMatch, search: Search)
    returns (keep: Result<bool, Error>, headersAfter: seq<Value>, columnsAfter: seq<seq<Value>>, ghost bitsAfter: seq<bool>)
    requires !mode.Unrecognised? && j < |hs| == |cs|
    requires Decisions(hs[..j], patterns, invert, isRe, mode, search) == Success(bits)
    requires keptHeaders == Compress(hs[..j], bits) && keptColumns == Compress(cs[..j], bits)
    ensures keep.Failure? ==> Decisions(hs, patterns, invert, isRe, mode, search) == Failure(keep.error)
    ensures keep.Success? ==>
      && Decisions(hs[..j + 1], patterns, invert, isRe, mode, search) == Success(bitsAfter)
      && headersAfter == Compress(hs[..j + 1], bitsAfter)
      && columnsAfter == Compress(cs[..j + 1], bitsAfter)
  {
    headersAfter, columnsAfter, bitsAfter := keptHeaders, keptColumns, bits;
    keep := DecideHeader(hs[j], patterns, invert, isRe, mode, search);
    if keep.Failure? {
      DecisionsFailAtEnd(hs, j, patterns, invert, isRe, mode, search);
      return;
    }
    SelectStep(hs, cs, j, bits, keep.value, patterns, invert, isRe, mode, search);
    if keep.value {
      headersAfter := keptHeaders + [hs[j]];
      columnsAfter := keptColumns + [cs[j]];
    }
    bitsAfter := bits + [keep.value];
  }

  /** The inner loop of filter_column: one boolean per pattern, the match XOR the
      inversion flag; a non-string header under regular-expression matching raises
      at the first pattern. */
  method MatchPatterns(header: Value, patterns: seq<string>, invert: bool, isRe: bool, search: Search)
    returns (r: Result<seq<bool>, Error>)
    ensures r.Failure? <==> isRe && !header.Str? && |patterns| > 0
    ensures r.Failure? ==> r.error == NotAString
    ensures r.Success? ==>
      |r.value| == |patterns| &&
      forall q | 0 <= q < |patterns| :: r.value[q] == (Matches(header, patterns[q], isRe, search) != invert)
  {
    var matches: seq<bool> := [];
    var k := 0;
    while k < |patterns|
      invariant 0 <= k <= |patterns|
      invariant !isRe || header.Str? || k == 0
      invariant |matches| == k
      invariant forall q | 0 <= q < k :: matches[q] == (Matches(header, patterns[q], isRe, search) != invert)
    {
      var m := IsMatch(header, patterns[k], isRe, search);
      if m.Failure? {
        return Failure(m.error);
      }
      matches := matches + [(m.value && !invert) || (!m.value && invert)];
      k := k + 1;
    }
    return Success(matches);
  }

  /** The decision is the combination of the per-pattern booleans the inner loop computed. */
  lemma DecideFromMatches(header: Value, patterns: seq<string>, invert: bool, isRe: bool, mode: PatternMatch, search: Search, ms: seq<bool>)
    requires !mode.Unrecognised?
    requires !isRe || header.Str? || |patterns| == 0
    requires |ms| == |patterns|
    requires forall q | 0 <= q < |patterns| :: ms[q] == (Matches(header, patterns[q], isRe, search) != invert)
    ensures Decide(header, patterns, invert, isRe, mode, search) == Success(Combine(mode, ms))
  {
    assert PatternBits(header, patterns, invert, isRe, search) == ms;
  }

  /** The decision for one header: the inner loop, then any (OR) or all (AND). */
  method DecideHeader(header: Value, patterns: seq<string>, invert: bool, isRe: bool, mode: PatternMatch, search: Search)
    returns (r: Result<bool, Error>)
    requires !mode.Unrecognised?
    ensures r == Decide(header, patterns, invert, isRe, mode, search)
  {
    var matches := MatchPatterns(header, patterns, invert, isRe, search);
    if matches.Failure? {
      return Failure(matches.error);
    }
    DecideFromMatches(header, patterns, invert, isRe, mode, search, matches.value);
    return Success(if mode.Or? then true in matches.value else false !in matches.value);
  }

  /** One iteration of the selection loop keeps its invariants. */
  lemma SelectStep(hs: seq<Value>, cs: seq<seq<Value>>, j: nat, bits: seq<bool>, keep: bool,
                   patterns: seq<string>, invert: bool, isRe: bool, mode: PatternMatch, search: Search)
    requires !mode.Unrecognised? && j < |hs| == |cs|
    requires Decisions(hs[..j], patterns, invert, isRe, mode, search) == Success(bits)
    requires Decide(hs[j], patterns, invert, isRe, mode, search) == Success(keep)
    ensures Decisions(hs[..j + 1], patterns, invert, isRe, mode, search) == Success(bits + [keep])
    ensures Compress(hs[..j + 1], bits + [keep]) == Compress(hs[..j], bits) + (if keep then [hs[j]] else [])
    ensures Compress(cs[..j + 1], bits + [keep]) == Compress(cs[..j], bits) + (if keep then [cs[j]] else [])
  {
    DecisionsStep(hs, j, bits, keep, patterns, invert, isRe, mode, search);
    CompressStep(hs, j, bits, keep);
    CompressStep(cs, j, bits, keep);
  }

  /** One more header whose decision is made. */
  lemma DecisionsStep(headers: seq<Value>, j: nat, bits: seq<bool>, keep: bool, patterns: seq<string>, invert: bool, isRe: bool, mode: PatternMatch, search: Search)
    requires !mode.Unrecognised? && j < |headers|
    requires Decisions(headers[..j], patterns, invert, isRe, mode, search) == Success(bits)
    requires Decide(headers[j], patterns, invert, isRe, mode, search) == Success(keep)
    ensures Decisions(headers[..j + 1], patterns, invert, isRe, mode, search) == Success(bits + [keep])
  {
    assert headers[..j + 1][..j] == headers[..j];
  }

  /** One more element considered for selection. */
  lemma CompressStep<T>(xs: seq<T>, j: nat, bits: seq<bool>, keep: bool)
    requires j < |xs| && |bits| == j
    ensures Compress(xs[..j + 1], bits + [keep]) == Compress(xs[..j], bits) + (if keep then [xs[j]] else [])
  {
    assert xs[..j + 1][..j] == xs[..j];
    assert (bits + [keep])[..j] == bits;
  }

  /** When the matching of header j raises, the selection of the whole list raises the same error. */
  lemma DecisionsFailAtEnd(headers: seq<Value>, j: nat, patterns: seq<string>, invert: bool, isRe: bool, mode: PatternMatch, search: Search)
    requires !mode.Unrecognised? && j < |headers|
    requires Decisions(headers[..j], patterns, invert, isRe, mode, search).Success?
    requires Decide(headers[j], patterns, invert, isRe, mode, search).Failure?
    ensures Decisions(headers, patterns, invert, isRe, mode, search)
         == Failure(Decide(headers[j], patterns, invert, isRe, mode, search).error)
  {
    assert headers[..j + 1][..j] == headers[..j];
    DecisionsFailureExtends(headers, j + 1, patterns, invert, isRe, mode, search);
  }

  /** A failure on a prefix of the headers is the failure of the whole list. */
  lemma {:induction false} DecisionsFailureExtends(headers: seq<Value>, j: nat, patterns: seq<string>, invert: bool, isRe: bool, mode: PatternMatch, search: Search)
    requires !mode.Unrecognised? && j <= |headers|
    requires Decisions(headers[..j], patterns, invert, isRe, mode, search).Failure?
    ensures Decisions(headers, patterns, invert, isRe, mode, search) == Decisions(headers[..j], patterns, invert, isRe, mode, search)
    decreases |headers| - j
  {
    if j < |headers| {
      var n := |headers| - 1;
      assert headers[..n][..j] == headers[..j];
      DecisionsFailureExtends(headers[..n], j, patterns, invert, isRe, mode, search);
    } else {
      assert headers[..j] == headers;
    }
  }

  /** Every sequence has length m, so the shortest is m. */
  lemma ShortestOfUniform(rs: seq<seq<Value>>, m: nat)
    requires |rs| > 0 && forall i | 0 <= i < |rs| :: |rs[i]| == m
    ensures Shortest(rs) == m
  {
  }

  /** zip(*zip(*rs)) gives back a table whose rows all have one and the same
      non-zero length. (With rows of length zero the first zip is already empty,
      and so is the second.) */
  lemma TransposeTwice(rs: seq<seq<Value>>)
    requires |rs| > 0 && |rs[0]| > 0
    requires forall i | 0 <= i < |rs| :: |rs[i]| == |rs[0]|
    ensures Transpose(Transpose(rs)) == rs
  {
    var cols := Transpose(rs);
    ShortestOfUniform(rs, |rs[0]|);
    ShortestOfUniform(cols, |rs|);
    var back := Transpose(cols);
    forall i | 0 <= i < |rs| ensures back[i] == rs[i] {
      forall j | 0 <= j < |rs[i]| ensures back[i][j] == rs[i][j] {
        assert back[i][j] == cols[j][i];
      }
    }
  }

  /** list(zip(*columns)) for the selected columns: one tuple per row, or none at all. */
  function RowsOf(t: seq<seq<Value>>): (rows: seq<RowLike>)
    ensures |rows| == |t| && forall i | 0 <= i < |t| :: rows[i] == ListRow(t[i])
  {
    seq(|t|, i requires 0 <= i < |t| => ListRow(t[i]))
  }

  /** filter_column on headers and raw rows: the new table's headers and rows.
      Patterns given as None are the empty list here. */
  function FilterColumns(headers: seq<Value>, rows: seq<RowLike>, patterns: seq<string>,
                         invert: bool, isRe: bool, mode: PatternMatch, search: Search): (r: Result<Filtered, Error>)
  {
    if |patterns| == 0 then Success((headers, rows))
    else if mode.Unrecognised? then Failure(UnknownPatternMatch)
    else
      match IterateAll(rows)
      case Failure(e) => Failure(e)
      case Success(rs) =>
        var cols := Transpose(rs);
        var n := Min(|headers|, |cols|);
        match Decisions(headers[..n], patterns, invert, isRe, mode, search)
        case Failure(e) => Failure(e)
        case Success(bits) =>
          Success((Compress(headers[..n], bits), RowsOf(Transpose(Compress(cols[..n], bits)))))
  }

  /** The cells that survive a double transposition: row i of the result holds, in
      order, the cells of raw row i at the kept column positions, and when no column
      is kept there are no rows at all. */
  lemma KeptCells(rs: seq<seq<Value>>, bits: seq<bool>)
    requires |bits| <= |Transpose(rs)|
    ensures var ks := KeptIndices(bits);
      var out := Transpose(Compress(Transpose(rs)[..|bits|], bits));
      && (|ks| == 0 ==> out == [])
      && (|ks| > 0 ==>
            |out| == |rs| &&
            forall i | 0 <= i < |rs| ::
              |out[i]| == |ks| && forall k | 0 <= k < |ks| :: out[i][k] == rs[i][ks[k]])
  {
    var ks := KeptIndices(bits);
    var cols := Transpose(rs);
    var kept := Compress(cols[..|bits|], bits);
    CompressMeaning(cols[..|bits|], bits);
    assert |kept| == |ks|;
    if |ks| > 0 {
      assert |rs| > 0;
      forall k | 0 <= k < |kept|
        ensures |kept[k]| == |rs| && forall i | 0 <= i < |rs| :: kept[k][i] == rs[i][ks[k]]
      {
        var j := ks[k];
        assert kept[k] == cols[..|bits|][j] == cols[j];
      }
      ShortestOfUniform(kept, |rs|);
      var out := Transpose(kept);
      assert |out| == |rs|;
      forall i | 0 <= i < |rs|
        ensures |out[i]| == |ks| && forall k | 0 <= k < |ks| :: out[i][k] == rs[i][ks[k]]
      {
        forall k | 0 <= k < |ks|
          ensures out[i][k] == rs[i][ks[k]]
        {
          assert out[i][k] == kept[k][i];
        }
      }
    }
  }

  /** The guards of filter_column, in the order it meets them: no patterns (None or
      an empty list) returns the table as it is, an unknown matching mode raises
      next, and then a row that zip cannot iterate. */
  lemma FilterColumnsGuards(headers: seq<Value>, rows: seq<RowLike>, patterns: seq<string>,
                            invert: bool, isRe: bool, mode: PatternMatch, search: Search)
    ensures var r := FilterColumns(headers, rows, patterns, invert, isRe, mode, search);
      && (|patterns| == 0 ==> r == Success((headers, rows)))
      && (|patterns| > 0 && mode.Unrecognised? ==> r == Failure(UnknownPatternMatch))
      && (|patterns| > 0 && !mode.Unrecognised? && (exists i | 0 <= i < |rows| :: Iterate(rows[i]).None?) ==>
            r == Failure(NotIterable))
  {
  }

  /** Once every row is iterable, the first header among the first
      min(#headers, #columns) whose matching raises aborts filter_column. */
  lemma FilterColumnsAborts(headers: seq<Value>, rows: seq<RowLike>, patterns: seq<string>,
                            invert: bool, isRe: bool, mode: PatternMatch, search: Search)
    requires |patterns| > 0 && !mode.Unrecognised?
    requires IterateAll(rows).Success?
    ensures var n := Min(|headers|, |Transpose(IterateAll(rows).value)|);
      var d := Decisions(headers[..n], patterns, invert, isRe, mode, search);
      d.Failure? ==> FilterColumns(headers, rows, patterns, invert, isRe, mode, search) == Failure(d.error)
  {
  }

  /** Once every row is iterable and no matching raises, the kept headers are, in
      order, those among the first min(#headers, #columns) whose decision holds, and
      each row is the raw row restricted to the kept positions; when nothing is kept
      there are no rows at all. */
  lemma FilterColumnsSelects(headers: seq<Value>, rows: seq<RowLike>, patterns: seq<string>,
                             invert: bool, isRe: bool, mode: PatternMatch, search: Search)
    requires |patterns| > 0 && !mode.Unrecognised?
    requires IterateAll(rows).Success?
    requires Decisions(headers[..Min(|headers|, |Transpose(IterateAll(rows).value)|)], patterns, invert, isRe, mode, search).Success?
    ensures var rs := IterateAll(rows).value;
      var bits := Decisions(headers[..Min(|headers|, |Transpose(rs)|)], patterns, invert, isRe, mode, search).value;
      var ks := KeptIndices(bits);
      var r := FilterColumns(headers, rows, patterns, invert, isRe, mode, search);
      && r.Success?
      && |r.value.0| == |ks|
      && (forall k | 0 <= k < |ks| :: r.value.0[k] == headers[ks[k]])
      && (|ks| == 0 ==> r.value.1 == [])
      && (|ks| > 0 ==>
            |r.value.1| == |rows| && forall i | 0 <= i < |rows| :: r.value.1[i] == ListRow(Pick(rs[i], ks)))
  {
    var rs := IterateAll(rows).value;
    var cols := Transpose(rs);
    var n := Min(|headers|, |cols|);
    var bits := Decisions(headers[..n], patterns, invert, isRe, mode, search).value;
    assert |bits| == n;
    assert FilterColumns(headers, rows, patterns, invert, isRe, mode, search)
        == Success((Compress(headers[..n], bits), RowsOf(Transpose(Compress(cols[..n], bits)))));
    KeptHeaders(headers, bits);
    KeptRows(rs, bits);
  }

  /** The kept headers are the headers at the kept positions. */
  lemma KeptHeaders(headers: seq<Value>, bits: seq<bool>)
    requires |bits| <= |headers|
    ensures var ks := KeptIndices(bits);
      var kept := Compress(headers[..|bits|], bits);
      |kept| == |ks| && forall k | 0 <= k < |ks| :: kept[k] == headers[ks[k]]
  {
    var n := |bits|;
    var ks := KeptIndices(bits);
    CompressMeaning(headers[..n], bits);
    forall k | 0 <= k < |ks| ensures headers[..n][ks[k]] == headers[ks[k]] {
    }
  }

  /** The cells of one row at the given positions, in the order the positions come. */
  function Pick(row: seq<Value>, ks: seq<nat>): (r: seq<Value>)
    requires forall k | 0 <= k < |ks| :: ks[k] < |row|
    ensures |r| == |ks| && forall k | 0 <= k < |ks| :: r[k] == row[ks[k]]
  {
    seq(|ks|, k requires 0 <= k < |ks| => row[ks[k]])
  }

  /** KeptCells, stated on the rows that filter_column hands to the new table. */
  lemma KeptRows(rs: seq<seq<Value>>, bits: seq<bool>)
    requires |bits| <= |Transpose(rs)|
    ensures var ks := KeptIndices(bits);
      var out := RowsOf(Transpose(Compress(Transpose(rs)[..|bits|], bits)));
      && (|ks| == 0 ==> out == [])
      && (|ks| > 0 ==>
            |out| == |rs| &&
            forall i | 0 <= i < |rs| :: out[i] == ListRow(Pick(rs[i], ks)))
  {
    var ks := KeptIndices(bits);
    var t := Transpose(Compress(Transpose(rs)[..|bits|], bits));
    KeptCells(rs, bits);
    if |ks| > 0 {
      forall i | 0 <= i < |rs|
        ensures t[i] == Pick(rs[i], ks)
      {
        assert |t[i]| == |ks|;
      }
    }
  }

  /** With no rows there are no columns to pair with, so every header is dropped. */
  lemma NoRowsKeepsNothing(headers: seq<Value>, patterns: seq<string>,
                           invert: bool, isRe: bool, mode: PatternMatch, search: Search)
    requires |patterns| > 0 && !mode.Unrecognised?
    ensures FilterColumns(headers, [], patterns, invert, isRe, mode, search) == Success(([], []))
  {
    assert headers[..0] == [];
  }

  /** A table of two headers and two rows of two cells: zip(*rows) pairs the
      first cells and the second cells. */
  lemma TwoColumnShape(h: seq<Value>, rows: seq<RowLike>, a: Value, b: Value, c: Value, d: Value)
    requires |h| == 2 && rows == [ListRow([a, b]), ListRow([c, d])]
    ensures IterateAll(rows) == Success([[a, b], [c, d]])
    ensures |Transpose(IterateAll(rows).value)| == 2
    ensures h[..Min(|h|, 2)] == h
  {
    var rs := [[a, b], [c, d]];
    assert IterateAll(rows).value == rs;
    assert rs[1..] == [[c, d]];
    assert Shortest(rs) == 2;
  }

  /** Two headers decided one by one. */
  lemma TwoDecisions(h: seq<Value>, patterns: seq<string>, invert: bool, isRe: bool, mode: PatternMatch, search: Search, b0: bool, b1: bool)
    requires |h| == 2 && !mode.Unrecognised?
    requires Decide(h[0], patterns, invert, isRe, mode, search) == Success(b0)
    requires Decide(h[1], patterns, invert, isRe, mode, search) == Success(b1)
    ensures Decisions(h, patterns, invert, isRe, mode, search) == Success([b0, b1])
  {
    assert h[..0] == [];
    DecisionsStep(h, 0, [], b0, patterns, invert, isRe, mode, search);
    assert Decisions(h[..1], patterns, invert, isRe, mode, search) == Success([] + [b0]);
    assert [] + [b0] == [b0];
    assert Decisions(h[..1], patterns, invert, isRe, mode, search) == Success([b0]);
    DecisionsStep(h, 1, [b0], b1, patterns, invert, isRe, mode, search);
    assert h[..2] == h && [b0] + [b1] == [b0, b1];
  }

  /** The kept positions of two decisions. */
  lemma PairIndices(b0: bool, b1: bool)
    ensures KeptIndices([b0, b1]) == (if b0 then [0] else []) + (if b1 then [1] else [])
  {
    assert [b0, b1][..1] == [b0];
    assert [b0][..0] == [];
  }

  /** The cells of a two-cell row at each choice of kept positions. */
  lemma PickFromPair(row: seq<Value>)
    requires |row| == 2
    ensures Pick(row, [0, 1]) == row && Pick(row, [0]) == [row[0]] && Pick(row, [1]) == [row[1]]
  {
  }

  /** What the general selection lemma says about a two-column table. */
  lemma TwoColumnSelection(h: seq<Value>, rows: seq<RowLike>, a: Value, b: Value, c: Value, d: Value,
                           patterns: seq<string>, invert: bool, isRe: bool, mode: PatternMatch, search: Search,
                           b0: bool, b1: bool)
      returns (r: Filtered)
    requires |h| == 2 && rows == [ListRow([a, b]), ListRow([c, d])]
    requires |patterns| > 0 && !mode.Unrecognised?
    requires Decide(h[0], patterns, invert, isRe, mode, search) == Success(b0)
    requires Decide(h[1], patterns, invert, isRe, mode, search) == Success(b1)
    ensures FilterColumns(h, rows, patterns, invert, isRe, mode, search) == Success(r)
    ensures SelectedFromPair(r, h, a, b, c, d, KeptIndices([b0, b1]))
  {
    TwoColumnShape(h, rows, a, b, c, d);
    TwoDecisions(h, patterns, invert, isRe, mode, search, b0, b1);
    FilterColumnsSelects(h, rows, patterns, invert, isRe, mode, search);
    r := FilterColumns(h, rows, patterns, invert, isRe, mode, search).value;
  }

  /** The shape FilterColumnsSelects gives for two headers and rows [a, b] and [c, d]. */
  predicate SelectedFromPair(r: Filtered, h: seq<Value>, a: Value, b: Value, c: Value, d: Value, ks: seq<nat>)
    requires |h| == 2 && forall k | 0 <= k < |ks| :: ks[k] < 2
  {
    && |r.0| == |ks| && (forall k | 0 <= k < |ks| :: r.0[k] == h[ks[k]])
    && (|ks| == 0 ==> r.1 == [])
    && (|ks| > 0 ==> |r.1| == 2 && r.1[0] == ListRow(Pick([a, b], ks)) && r.1[1] == ListRow(Pick([c, d], ks)))
  }

  /** Reading off that shape for each pair of decisions. */
  lemma SelectedFromPairCases(r: Filtered, h: seq<Value>, a: Value, b: Value, c: Value, d: Value, b0: bool, b1: bool)
    requires |h| == 2
    requires SelectedFromPair(r, h, a, b, c, d, KeptIndices([b0, b1]))
    ensures b0 && b1 ==> r == (h, [ListRow([a, b]), ListRow([c, d])])
    ensures b0 && !b1 ==> r == ([h[0]], [ListRow([a]), ListRow([c])])
    ensures !b0 && b1 ==> r == ([h[1]], [ListRow([b]), ListRow([d])])
    ensures !b0 && !b1 ==> r == ([], [])
  {
    PairIndices(b0, b1);
    PickFromPair([a, b]);
    PickFromPair([c, d]);
    if b0 && b1 {
      assert KeptIndices([b0, b1]) == [0, 1];
      assert r.0 == h;
      assert r.1 == [ListRow([a, b]), ListRow([c, d])];
    } else if b0 {
      assert KeptIndices([b0, b1]) == [0];
      assert r.0 == [h[0]];
      assert r.1 == [ListRow([a]), ListRow([c])];
    } else if b1 {
      assert KeptIndices([b0, b1]) == [1];
      assert r.0 == [h[1]];
      assert r.1 == [ListRow([b]), ListRow([d])];
    }
  }

  /** filter_column on a table of two headers and two rows of two cells, given the
      decision for each header: both kept leaves the table unchanged, one kept keeps
      that cell of each row, none kept leaves no headers and no rows. */
  lemma TwoColumnFilter(h: seq<Value>, rows: seq<RowLike>, a: Value, b: Value, c: Value, d: Value,
                        patterns: seq<string>, invert: bool, isRe: bool, mode: PatternMatch, search: Search,
                        b0: bool, b1: bool)
    requires |h| == 2 && rows == [ListRow([a, b]), ListRow([c, d])]
    requires |patterns| > 0 && !mode.Unrecognised?
    requires Decide(h[0], patterns, invert, isRe, mode, search) == Success(b0)
    requires Decide(h[1], patterns, invert, isRe, mode, search) == Success(b1)
    ensures var r := FilterColumns(h, rows, patterns, invert, isRe, mode, search);
      && (b0 && b1 ==> r == Success((h, rows)))
      && (b0 && !b1 ==> r == Success(([h[0]], [ListRow([a]), ListRow([c])])))
      && (!b0 && b1 ==> r == Success(([h[1]], [ListRow([b]), ListRow([d])])))
      && (!b0 && !b1 ==> r == Success(([], [])))
  {
    var r := TwoColumnSelection(h, rows, a, b, c, d, patterns, invert, isRe, mode, search, b0, b1);
    SelectedFromPairCases(r, h, a, b, c, d, b0, b1);
  }

  /** Exact matching against a single pattern keeps a header iff it equals the
      pattern, or iff it does not when the match is inverted. */
  lemma SinglePatternDecision(header: Value, pattern: string, invert: bool, search: Search)
    ensures Decide(header, [pattern], invert, false, Or, search) == Success((header == Str(pattern)) != invert)
  {
    assert PatternBits(header, [pattern], invert, false, search) == [(header == Str(pattern)) != invert];
  }

  /** Exact matching on the table with headers "abcde" and "test" and rows [1, 2]
      and [3, 4]: a pattern keeps the column it names. */
  lemma ExactMatchExample(h: seq<Value>, rows: seq<RowLike>, search: Search)
    requires h == [Str("abcde"), Str("test")]
    requires rows == [ListRow([Int(1), Int(2)]), ListRow([Int(3), Int(4)])]
    ensures FilterColumns(h, rows, ["abcde"], false, false, Or, search)
         == Success(([Str("abcde")], [ListRow([Int(1)]), ListRow([Int(3)])]))
  {
    SinglePatternDecision(h[0], "abcde", false, search);
    SinglePatternDecision(h[1], "abcde", false, search);
    TwoColumnFilter(h, rows, Int(1), Int(2), Int(3), Int(4), ["abcde"], false, false, Or, search, true, false);
  }

  /** The same table with the match inverted keeps the other column. */
  lemma InvertedMatchExample(h: seq<Value>, rows: seq<RowLike>, search: Search)
    requires h == [Str("abcde"), Str("test")]
    requires rows == [ListRow([Int(1), Int(2)]), ListRow([Int(3), Int(4)])]
    ensures FilterColumns(h, rows, ["abcde"], true, false, Or, search)
         == Success(([Str("test")], [ListRow([Int(2)]), ListRow([Int(4)])]))
  {
    SinglePatternDecision(h[0], "abcde", true, search);
    SinglePatternDecision(h[1], "abcde", true, search);
    TwoColumnFilter(h, rows, Int(1), Int(2), Int(3), Int(4), ["abcde"], true, false, Or, search, false, true);
  }

  /** A pattern that equals no header, matched exactly, keeps nothing: a prefix is not a match. */
  lemma UnmatchedExample(h: seq<Value>, rows: seq<RowLike>, search: Search)
    requires h == [Str("abcde"), Str("test")]
    requires rows == [ListRow([Int(1), Int(2)]), ListRow([Int(3), Int(4)])]
    ensures FilterColumns(h, rows, ["abc"], false, false, Or, search) == Success(([], []))
  {
    SinglePatternDecision(h[0], "abc", false, search);
    SinglePatternDecision(h[1], "abc", false, search);
    assert h[0] != Str("abc") by { assert |h[0].s| != |"abc"|; }
    TwoColumnFilter(h, rows, Int(1), Int(2), Int(3), Int(4), ["abc"], false, false, Or, search, false, false);
  }
}
