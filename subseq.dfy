/** Order-preserving selection of the elements of a sequence, used where the
    table code keeps some columns (filter_column) or some cells (as_dict). */
module Subsequence {

  /** The length zip() stops at for two sequences. */
  function Min(a: nat, b: nat): nat
  {
    if a <= b then a else b
  }

  /** The positions of `bits` that hold true, in increasing order. */
  function KeptIndices(bits: seq<bool>): (r: seq<nat>)
    ensures forall k | 0 <= k < |r| :: r[k] < |bits| && bits[r[k]]
    ensures |r| <= |bits|
  {
    if |bits| == 0 then []
    else
      var n := |bits| - 1;
      KeptIndices(bits[..n]) + (if bits[n] then [n] else [])
  }

  /** The kept positions are strictly increasing, and every position that holds
      true is among them. */
  lemma {:induction false} KeptIndicesMeaning(bits: seq<bool>)
    ensures var r := KeptIndices(bits);
      && (forall k, l | 0 <= k < l < |r| :: r[k] < r[l])
      && (forall j | 0 <= j < |bits| && bits[j] :: j in r)
  {
    if |bits| > 0 {
      var n := |bits| - 1;
      KeptIndicesMeaning(bits[..n]);
      var front := KeptIndices(bits[..n]);
      assert forall k | 0 <= k < |front| :: front[k] < n;
      forall j | 0 <= j < n && bits[j] ensures j in KeptIndices(bits) {
        assert bits[..n][j];
      }
    }
  }

  /** The elements of `xs` at the positions where `bits` holds, in their original order. */
  function Compress<T>(xs: seq<T>, bits: seq<bool>): (r: seq<T>)
    requires |xs| == |bits|
  {
    if |xs| == 0 then []
    else
      var n := |xs| - 1;
      Compress(xs[..n], bits[..n]) + (if bits[n] then [xs[n]] else [])
  }

  /** The selection has one element per kept position, and element k is the
      element of `xs` at the k-th kept position. */
  lemma {:induction false} CompressMeaning<T>(xs: seq<T>, bits: seq<bool>)
    requires |xs| == |bits|
    ensures var r := Compress(xs, bits);
      && |r| == |KeptIndices(bits)|
      && forall k | 0 <= k < |r| :: r[k] == xs[KeptIndices(bits)[k]]
  {
    if |xs| > 0 {
      var n := |xs| - 1;
      CompressMeaning(xs[..n], bits[..n]);
      var front, ks := Compress(xs[..n], bits[..n]), KeptIndices(bits[..n]);
      assert KeptIndices(bits) == ks + (if bits[n] then [n] else []);
      forall k | 0 <= k < |front| ensures front[k] == xs[ks[k]] {
        assert xs[..n][ks[k]] == xs[ks[k]];
      }
    }
  }

  /** Selection over a sequence with one more element. */
  lemma CompressSnoc<T>(xs: seq<T>, bits: seq<bool>)
    requires |xs| == |bits| > 0
    ensures Compress(xs, bits) ==
      Compress(xs[..|xs| - 1], bits[..|xs| - 1]) + (if bits[|xs| - 1] then [xs[|xs| - 1]] else [])
  {
  }

  /** Selecting with no position set keeps nothing; with every position set keeps everything. */
  lemma {:induction false} CompressExtremes<T>(xs: seq<T>, bits: seq<bool>)
    requires |xs| == |bits|
    ensures (forall j | 0 <= j < |bits| :: !bits[j]) ==> Compress(xs, bits) == []
    ensures (forall j | 0 <= j < |bits| :: bits[j]) ==> Compress(xs, bits) == xs
  {
    if |xs| > 0 {
      var n := |xs| - 1;
      assert forall j | 0 <= j < n :: bits[..n][j] == bits[j];
      CompressExtremes(xs[..n], bits[..n]);
      assert xs[..n] + [xs[n]] == xs;
    }
  }
}
