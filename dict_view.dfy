/** The projection of TableData.as_dict (tabledata/_core.py): each typed row
    becomes an ordered mapping from header to value, cells typed NONE are left
    out, and rows left with nothing are dropped. */
module DictView {

  import opened Wrappers
  import opened Values
  import opened Subsequence

  /** An OrderedDict, as its (key, value) entries in order. */
  type Entries = seq<(Value, Value)>

  /** The position of `key` among the keys of `d`, if it is there. */
  function IndexOf(d: Entries, key: Value): (r: Option<nat>)
    ensures r.None? <==> forall i | 0 <= i < |d| :: d[i].0 != key
    ensures r.Some? ==> r.value < |d| && d[r.value].0 == key
  {
    if |d| == 0 then None
    else if d[|d| - 1].0 == key then Some(|d| - 1)
    else IndexOf(d[..|d| - 1], key)
  }

  /** od[key] = value: a key already present keeps its place and takes the new
      value; a new key goes at the end. */
  function Insert(d: Entries, kv: (Value, Value)): (r: Entries)
  {
    match IndexOf(d, kv.0)
    case Some(i) => d[i := kv]
    case None => d + [kv]
  }

  /** OrderedDict(pairs): the pairs inserted one after another. */
  function OrderedDictOf(pairs: Entries): (d: Entries)
    ensures |d| <= |pairs|
    ensures |pairs| > 0 ==> |d| > 0
  {
    if |pairs| == 0 then []
    else Insert(OrderedDictOf(pairs[..|pairs| - 1]), pairs[|pairs| - 1])
  }

  /** No key occurs twice. */
  predicate DistinctKeys(d: Entries)
  {
    forall i, j | 0 <= i < j < |d| :: d[i].0 != d[j].0
  }

  /** The keys of some entries. */
  function KeySet(d: Entries): set<Value>
  {
    set i | 0 <= i < |d| :: d[i].0
  }

  /** Inserting into a mapping keeps its keys distinct, adds the key and nothing
      else, and stores the new value under it. */
  lemma InsertMeaning(d: Entries, kv: (Value, Value))
    requires DistinctKeys(d)
    ensures DistinctKeys(Insert(d, kv))
    ensures KeySet(Insert(d, kv)) == KeySet(d) + {kv.0}
    ensures kv in Insert(d, kv)
    ensures forall e | e in d && e.0 != kv.0 :: e in Insert(d, kv)
    ensures forall e | e in Insert(d, kv) && e.0 != kv.0 :: e in d
  {
    var r := Insert(d, kv);
    match IndexOf(d, kv.0)
    case Some(i) =>
      assert r == d[i := kv];
      forall x | x in KeySet(d) + {kv.0} ensures x in KeySet(r) {
        if x != kv.0 {
          var j :| 0 <= j < |d| && d[j].0 == x;
          assert r[j] == d[j];
        } else {
          assert r[i].0 == x;
        }
      }
      forall e | e in d && e.0 != kv.0 ensures e in r {
        var j :| 0 <= j < |d| && d[j] == e;
        assert r[j] == e;
      }
    case None =>
      assert r == d + [kv];
      assert r[|d|] == kv;
      forall x | x in KeySet(d) ensures x in KeySet(r) {
        var j :| 0 <= j < |d| && d[j].0 == x;
        assert r[j] == d[j];
      }
      forall e | e in d ensures e in r {
        var j :| 0 <= j < |d| && d[j] == e;
        assert r[j] == e;
      }
  }

  /** The keys of some entries and one more. */
  lemma KeySetSnoc(d: Entries, kv: (Value, Value))
    ensures KeySet(d + [kv]) == KeySet(d) + {kv.0}
  {
    var r := d + [kv];
    forall x | x in KeySet(r) ensures x in KeySet(d) + {kv.0} {
      var j :| 0 <= j < |r| && r[j].0 == x;
      if j < |d| { assert r[j] == d[j]; }
    }
    forall x | x in KeySet(d) ensures x in KeySet(r) {
      var j :| 0 <= j < |d| && d[j].0 == x;
      assert r[j] == d[j];
    }
    assert r[|d|] == kv;
  }

  /** The position of the first pair with key `k`, or |pairs| when there is none. */
  function FirstAt(pairs: Entries, k: Value): (i: nat)
    ensures i <= |pairs|
    ensures i < |pairs| ==> pairs[i].0 == k
    ensures forall j | 0 <= j < i :: pairs[j].0 != k
  {
    if |pairs| == 0 then 0
    else if pairs[0].0 == k then 0
    else 1 + FirstAt(pairs[1..], k)
  }

  /** The ordered mapping built from some pairs has distinct keys, exactly the keys
      of the pairs, under each key the value of the last pair with that key, and
      its keys in the order in which they first occur among the pairs. */
  lemma {:induction false} OrderedDictMeaning(pairs: Entries)
    ensures DistinctKeys(OrderedDictOf(pairs))
    ensures KeySet(OrderedDictOf(pairs)) == KeySet(pairs)
    ensures forall i | 0 <= i < |pairs| && (forall j | i < j < |pairs| :: pairs[j].0 != pairs[i].0) ::
      pairs[i] in OrderedDictOf(pairs)
    ensures forall a, b | 0 <= a < b < |OrderedDictOf(pairs)| ::
      FirstAt(pairs, OrderedDictOf(pairs)[a].0) < FirstAt(pairs, OrderedDictOf(pairs)[b].0)
    decreases |pairs|
  {
    if |pairs| > 0 {
      var n := |pairs| - 1;
      var front := pairs[..n];
      assert pairs == front + [pairs[n]];
      OrderedDictMeaning(front);
      InsertMeaning(OrderedDictOf(front), pairs[n]);
      KeySetSnoc(front, pairs[n]);
      LastValueKept(pairs);
      FirstOrderKept(pairs);
    }
  }

  /** A key that occurs among the first n pairs first occurs at the same place
      among all of them. */
  lemma FirstAtPrefix(pairs: Entries, n: nat, k: Value)
    requires n <= |pairs| && k in KeySet(pairs[..n])
    ensures FirstAt(pairs[..n], k) < n
    ensures FirstAt(pairs, k) == FirstAt(pairs[..n], k)
  {
    var front := pairs[..n];
    var i0, i1 := FirstAt(front, k), FirstAt(pairs, k);
    var w :| 0 <= w < n && front[w].0 == k;
    assert i0 < n;
    assert front[i0] == pairs[i0];
  }

  /** A last key that is new first occurs last. */
  lemma FirstAtNewKey(pairs: Entries)
    requires |pairs| > 0 && pairs[|pairs| - 1].0 !in KeySet(pairs[..|pairs| - 1])
    ensures FirstAt(pairs, pairs[|pairs| - 1].0) == |pairs| - 1
  {
    var n := |pairs| - 1;
    var front := pairs[..n];
    forall j | 0 <= j < n ensures pairs[j].0 != pairs[n].0 {
      assert front[j] == pairs[j];
      assert front[j].0 in KeySet(front);
    }
  }

  /** The step of OrderedDictMeaning for the order of the keys. */
  lemma FirstOrderKept(pairs: Entries)
    requires |pairs| > 0
    requires var front := pairs[..|pairs| - 1];
      && DistinctKeys(OrderedDictOf(front))
      && KeySet(OrderedDictOf(front)) == KeySet(front)
      && forall a, b | 0 <= a < b < |OrderedDictOf(front)| ::
           FirstAt(front, OrderedDictOf(front)[a].0) < FirstAt(front, OrderedDictOf(front)[b].0)
    ensures forall a, b | 0 <= a < b < |OrderedDictOf(pairs)| ::
      FirstAt(pairs, OrderedDictOf(pairs)[a].0) < FirstAt(pairs, OrderedDictOf(pairs)[b].0)
  {
    var n := |pairs| - 1;
    var front := pairs[..n];
    var d0 := OrderedDictOf(front);
    var d := OrderedDictOf(pairs);
    assert d == Insert(d0, pairs[n]);
    // Every key of d0 keeps its first position.
    forall a | 0 <= a < |d0| ensures FirstAt(pairs, d0[a].0) == FirstAt(front, d0[a].0) < n {
      assert d0[a].0 in KeySet(d0);
      FirstAtPrefix(pairs, n, d0[a].0);
    }
    match IndexOf(d0, pairs[n].0)
    case Some(i) =>
      assert d == d0[i := pairs[n]];
      forall a | 0 <= a < |d| ensures d[a].0 == d0[a].0 {
      }
    case None =>
      assert d == d0 + [pairs[n]];
      assert pairs[n].0 !in KeySet(front);
      FirstAtNewKey(pairs);
      forall a, b | 0 <= a < b < |d| ensures FirstAt(pairs, d[a].0) < FirstAt(pairs, d[b].0) {
        if b == |d0| {
          assert d[a] == d0[a];
        } else {
          assert d[a] == d0[a] && d[b] == d0[b];
        }
      }
  }

  /** The step of OrderedDictMeaning for the last-value property. */
  lemma LastValueKept(pairs: Entries)
    requires |pairs| > 0
    requires var front := pairs[..|pairs| - 1];
      forall i | 0 <= i < |front| && (forall j | i < j < |front| :: front[j].0 != front[i].0) ::
        front[i] in OrderedDictOf(front)
    requires DistinctKeys(OrderedDictOf(pairs[..|pairs| - 1]))
    ensures forall i | 0 <= i < |pairs| && (forall j | i < j < |pairs| :: pairs[j].0 != pairs[i].0) ::
      pairs[i] in OrderedDictOf(pairs)
  {
    var n := |pairs| - 1;
    var front := pairs[..n];
    InsertMeaning(OrderedDictOf(front), pairs[n]);
    forall i | 0 <= i < |pairs| && (forall j | i < j < |pairs| :: pairs[j].0 != pairs[i].0)
      ensures pairs[i] in OrderedDictOf(pairs)
    {
      if i < n {
        assert front[i] == pairs[i];
        assert forall j | i < j < |front| :: front[j] == pairs[j];
        assert pairs[i] in OrderedDictOf(front);
        assert pairs[n].0 != pairs[i].0;
      }
    }
  }

  /** Pairs whose keys are already distinct come out as they went in. */
  lemma {:induction false} DistinctPairsUnchanged(pairs: Entries)
    requires DistinctKeys(pairs)
    ensures OrderedDictOf(pairs) == pairs
    decreases |pairs|
  {
    if |pairs| > 0 {
      var n := |pairs| - 1;
      var front := pairs[..n];
      DistinctPairsUnchanged(front);
      assert IndexOf(front, pairs[n].0).None?;
    }
  }

  /** The cells of one typed row worth keeping: those whose typecode is not NONE. */
  function Typed(row: seq<TypedValue>): (bits: seq<bool>)
    ensures |bits| == |row| && forall j | 0 <= j < |row| :: bits[j] == (row[j].typecode != NoneCode)
  {
    seq(|row|, j requires 0 <= j < |row| => row[j].typecode != NoneCode)
  }

  /** zip(headers, row) as (header, value.data) pairs. */
  function Labelled(headers: seq<Value>, row: seq<TypedValue>): (ps: Entries)
    ensures |ps| == Min(|headers|, |row|)
    ensures forall j | 0 <= j < |ps| :: ps[j] == (headers[j], row[j].data)
  {
    var n := Min(|headers|, |row|);
    seq(n, j requires 0 <= j < n => (headers[j], row[j].data))
  }

  /** The (header, value) pairs as_dict keeps from one typed row. */
  function RowPairs(headers: seq<Value>, row: seq<TypedValue>): (ps: Entries)
  {
    var n := Min(|headers|, |row|);
    Compress(Labelled(headers, row), Typed(row[..n]))
  }

  /** The pairs kept from a row are, in order, the header and value of exactly the
      cells, up to the shorter of headers and row, whose typecode is not NONE. */
  lemma RowPairsMeaning(headers: seq<Value>, row: seq<TypedValue>)
    ensures var n := Min(|headers|, |row|);
      var ks := KeptIndices(Typed(row[..n]));
      var ps := RowPairs(headers, row);
      && |ps| == |ks| <= n
      && (forall k | 0 <= k < |ks| ::
            ks[k] < n && ps[k] == (headers[ks[k]], row[ks[k]].data) && row[ks[k]].typecode != NoneCode)
      && (forall j | 0 <= j < n && row[j].typecode != NoneCode :: j in ks)
  {
    var n := Min(|headers|, |row|);
    var ks := KeptIndices(Typed(row[..n]));
    KeptIndicesMeaning(Typed(row[..n]));
    CompressMeaning(Labelled(headers, row), Typed(row[..n]));
    forall k | 0 <= k < |ks| ensures row[ks[k]].typecode != NoneCode {
      assert row[..n][ks[k]] == row[ks[k]];
    }
    forall j | 0 <= j < n && row[j].typecode != NoneCode ensures j in ks {
      assert row[..n][j] == row[j];
    }
  }

  /** The body of as_dict: one ordered mapping per typed row that keeps some pair,
      in row order. */
  function DictBody(headers: seq<Value>, m: seq<seq<TypedValue>>): (body: seq<Entries>)
    ensures |body| <= |m|
  {
    if |m| == 0 then []
    else
      var n := |m| - 1;
      DictBody(headers, m[..n]) +
        (if |m[n]| == 0 then []
         else if |RowPairs(headers, m[n])| == 0 then []
         else [OrderedDictOf(RowPairs(headers, m[n]))])
  }

  /** Extending the rows by one extends the body by that row's mapping, if any. */
  lemma DictBodyStep(headers: seq<Value>, m: seq<seq<TypedValue>>, i: nat)
    requires i < |m|
    ensures DictBody(headers, m[..i + 1]) == DictBody(headers, m[..i]) +
      (if |m[i]| == 0 then []
       else if |RowPairs(headers, m[i])| == 0 then []
       else [OrderedDictOf(RowPairs(headers, m[i]))])
  {
    assert m[..i + 1][..i] == m[..i];
  }

  /** For each typed row: does it give an entry of the body, and which. */
  function RowKept(headers: seq<Value>, m: seq<seq<TypedValue>>): (bits: seq<bool>)
    ensures |bits| == |m| && forall i | 0 <= i < |m| :: bits[i] == (|RowPairs(headers, m[i])| > 0)
  {
    seq(|m|, i requires 0 <= i < |m| => |RowPairs(headers, m[i])| > 0)
  }

  function RowDicts(headers: seq<Value>, m: seq<seq<TypedValue>>): (ds: seq<Entries>)
    ensures |ds| == |m| && forall i | 0 <= i < |m| :: ds[i] == OrderedDictOf(RowPairs(headers, m[i]))
  {
    seq(|m|, i requires 0 <= i < |m| => OrderedDictOf(RowPairs(headers, m[i])))
  }

  /** A typed row with no cells keeps no pair. */
  lemma EmptyRowKeepsNothing(headers: seq<Value>, row: seq<TypedValue>)
    requires |row| == 0
    ensures |RowPairs(headers, row)| == 0
  {
    assert |Labelled(headers, row)| == 0;
  }

  /** The body is, in row order, the ordered mapping of every typed row that keeps
      at least one pair, and of no other row; an empty typed row keeps no pair. */
  lemma {:induction false} DictBodyMeaning(headers: seq<Value>, m: seq<seq<TypedValue>>)
    ensures DictBody(headers, m) == Compress(RowDicts(headers, m), RowKept(headers, m))
    decreases |m|
  {
    if |m| > 0 {
      var n := |m| - 1;
      DictBodyMeaning(headers, m[..n]);
      RowViewsOfPrefix(headers, m, n);
      CompressSnoc(RowDicts(headers, m), RowKept(headers, m));
      DictBodySnoc(headers, m);
    }
  }

  /** The body of one more typed row: that row's mapping if it keeps some pair. */
  lemma DictBodySnoc(headers: seq<Value>, m: seq<seq<TypedValue>>)
    requires |m| > 0
    ensures DictBody(headers, m) == DictBody(headers, m[..|m| - 1]) +
      (if RowKept(headers, m)[|m| - 1] then [RowDicts(headers, m)[|m| - 1]] else [])
  {
    var n := |m| - 1;
    if |m[n]| == 0 {
      EmptyRowKeepsNothing(headers, m[n]);
    }
  }

  /** The per-row views of a prefix of the rows are the prefixes of the views. */
  lemma RowViewsOfPrefix(headers: seq<Value>, m: seq<seq<TypedValue>>, n: nat)
    requires n <= |m|
    ensures RowDicts(headers, m)[..n] == RowDicts(headers, m[..n])
    ensures RowKept(headers, m)[..n] == RowKept(headers, m[..n])
  {
    var ds, bs := RowDicts(headers, m), RowKept(headers, m);
    forall i | 0 <= i < n ensures ds[..n][i] == RowDicts(headers, m[..n])[i] {
      assert m[..n][i] == m[i];
    }
    forall i | 0 <= i < n ensures bs[..n][i] == RowKept(headers, m[..n])[i] {
      assert m[..n][i] == m[i];
    }
  }

  /** Every entry of the body is a non-empty mapping with distinct keys, and there
      are never more entries than typed rows. */
  lemma DictBodyEntries(headers: seq<Value>, m: seq<seq<TypedValue>>)
    ensures |DictBody(headers, m)| <= |m|
    ensures forall k | 0 <= k < |DictBody(headers, m)| ::
      |DictBody(headers, m)[k]| > 0 && DistinctKeys(DictBody(headers, m)[k])
  {
    DictBodyMeaning(headers, m);
    CompressMeaning(RowDicts(headers, m), RowKept(headers, m));
    var ks := KeptIndices(RowKept(headers, m));
    forall k | 0 <= k < |ks|
      ensures |DictBody(headers, m)[k]| > 0 && DistinctKeys(DictBody(headers, m)[k])
    {
      OrderedDictMeaning(RowPairs(headers, m[ks[k]]));
    }
  }

  /** The pairs kept from a two-cell row under two headers. */
  lemma TwoCellPairs(a: Value, b: Value, u: TypedValue, v: TypedValue)
    ensures RowPairs([a, b], [u, v]) ==
      (if u.typecode != NoneCode then [(a, u.data)] else []) +
      (if v.typecode != NoneCode then [(b, v.data)] else [])
  {
    var row := [u, v];
    var ps := Labelled([a, b], row);
    var bits := Typed(row[..2]);
    assert row[..2] == row;
    assert ps[..1] == [(a, u.data)] && bits[..1] == [u.typecode != NoneCode];
    assert ps[..1][..0] == [] && bits[..1][..0] == [];
    assert Compress(ps[..1], bits[..1]) == (if u.typecode != NoneCode then [(a, u.data)] else []);
  }

  /** A mapping built from one pair is that pair. */
  lemma SinglePairDict(kv: (Value, Value))
    ensures OrderedDictOf([kv]) == [kv]
  {
    assert [kv][..0] == [];
  }

  /** The include_none case of as_dict: under headers a, b the typed rows
      [NONE, x], [NONE, NONE], [y, NONE], [NONE, NONE] give the two mappings
      {b: x} and {a: y}. */
  lemma IncludeNoneExample(a: Value, b: Value, none: TypedValue, x: TypedValue, y: TypedValue)
    requires none.typecode == NoneCode && x.typecode != NoneCode && y.typecode != NoneCode
    ensures DictBody([a, b], [[none, x], [none, none], [y, none], [none, none]]) == [[(b, x.data)], [(a, y.data)]]
  {
    var h := [a, b];
    var m := [[none, x], [none, none], [y, none], [none, none]];
    TwoCellPairs(a, b, none, x);
    TwoCellPairs(a, b, none, none);
    TwoCellPairs(a, b, y, none);
    SinglePairDict((b, x.data));
    SinglePairDict((a, y.data));
    assert m[..0] == [];
    DictBodyStep(h, m, 0);
    assert DictBody(h, m[..1]) == [[(b, x.data)]];
    DictBodyStep(h, m, 1);
    assert DictBody(h, m[..2]) == [[(b, x.data)]];
    DictBodyStep(h, m, 2);
    assert DictBody(h, m[..3]) == [[(b, x.data)], [(a, y.data)]];
    DictBodyStep(h, m, 3);
    assert m[..4] == m;
  }
}
