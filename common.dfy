/** Spreadsheet-style column labels (tabledata/_common.py): 0 is "A", 25 is "Z",
    26 is "AA", and so on, in bijective base 26. */
module Common {

  import opened Wrappers
  import opened Values

  predicate IsUpperLetters(s: string)
  {
    forall k | 0 <= k < |s| :: 'A' <= s[k] <= 'Z'
  }

  /** convert_idx_to_alphabet on the indices it is meant for. */
  function ColumnLabel(idx: nat): (r: string)
    ensures |r| >= 1
    ensures IsUpperLetters(r)
    ensures r[|r| - 1] == (65 + idx % 26) as char
    ensures idx < 26 <==> |r| == 1
    decreases idx
  {
    if idx < 26 then [(65 + idx) as char]
    else ColumnLabel(idx / 26 - 1) + ColumnLabel(idx % 26)
  }

  /** convert_idx_to_alphabet on any integer: below 26 it is chr(65 + idx), which
      for a negative index is a character before 'A', and raises below -65. */
  function ConvertIdxToAlphabet(idx: int): (r: Result<string, Error>)
    ensures idx >= 0 ==> r == Success(ColumnLabel(idx))
    ensures -65 <= idx < 0 ==> r == Success([(65 + idx) as char]) && r.value[0] < 'A'
    ensures idx < -65 ==> r == Failure(CharOutOfRange)
  {
    if idx < 26 then
      if 65 + idx < 0 then Failure(CharOutOfRange) else Success([(65 + idx) as char])
    else Success(ColumnLabel(idx))
  }

  /** The number a label denotes in bijective base 26 (A = 1, ..., Z = 26). */
  function LabelValue(s: string): nat
    requires IsUpperLetters(s)
  {
    if |s| == 0 then 0
    else LabelValue(s[..|s| - 1]) * 26 + (s[|s| - 1] as int - 64)
  }

  /** Decoding a label gives back its index: the label is the bijective base-26
      numeral of idx + 1. */
  lemma {:induction false} LabelDecodes(idx: nat)
    ensures LabelValue(ColumnLabel(idx)) == idx + 1
    decreases idx
  {
    var r := ColumnLabel(idx);
    if idx < 26 {
      assert r[..0] == [];
    } else {
      var q, m := idx / 26 - 1, idx % 26;
      LabelDecodes(q);
      LabelValueSnoc(ColumnLabel(q), (65 + m) as char);
      assert idx + 1 == (q + 1) * 26 + m + 1;
    }
  }

  /** Appending a letter multiplies the value by 26 and adds the letter's digit. */
  lemma LabelValueSnoc(p: string, c: char)
    requires IsUpperLetters(p) && 'A' <= c <= 'Z'
    ensures IsUpperLetters(p + [c])
    ensures LabelValue(p + [c]) == LabelValue(p) * 26 + (c as int - 64)
  {
    assert (p + [c])[..|p|] == p;
  }

  /** Distinct indices get distinct labels. */
  lemma LabelsAreDistinct(i: nat, j: nat)
    requires i != j
    ensures ColumnLabel(i) != ColumnLabel(j)
  {
    LabelDecodes(i);
    LabelDecodes(j);
  }

  /** Every non-empty word of capital letters is the label of some index, namely
      of the number it denotes minus one. */
  lemma {:induction false} EveryWordIsALabel(s: string) returns (idx: nat)
    requires |s| >= 1 && IsUpperLetters(s)
    ensures LabelValue(s) == idx + 1
    ensures ColumnLabel(idx) == s
    decreases |s|
  {
    var n := |s| - 1;
    var p := s[..n];
    var d := LetterLabel(s[n]);
    assert s == p + [s[n]];
    if n == 0 {
      idx := d;
      assert s == [s[n]];
      assert p == [];
    } else {
      var q := EveryWordIsALabel(p);
      idx := StepIndex(q, d);
      LabelSplits(idx, p, [s[n]]);
    }
  }

  /** The index whose label extends the label of q by the letter of d. */
  lemma StepIndex(q: nat, d: nat) returns (idx: nat)
    requires d < 26
    ensures idx >= 26 && idx / 26 - 1 == q && idx % 26 == d
    ensures idx + 1 == (q + 1) * 26 + d + 1
  {
    idx := (q + 1) * 26 + d;
    DivModBase(q + 1, d);
  }

  /** A single capital letter is the label of its position in the alphabet. */
  lemma LetterLabel(c: char) returns (d: nat)
    requires 'A' <= c <= 'Z'
    ensures d < 26 && d == c as int - 65
    ensures ColumnLabel(d) == [c]
  {
    d := c as int - 65;
  }

  /** One step of the recursion, stated on its two halves. */
  lemma LabelSplits(idx: nat, prefix: string, last: string)
    requires idx >= 26
    requires ColumnLabel(idx / 26 - 1) == prefix && ColumnLabel(idx % 26) == last
    ensures ColumnLabel(idx) == prefix + last
  {
  }

  lemma DivModBase(v: nat, d: nat)
    requires d < 26
    ensures (v * 26 + d) / 26 == v && (v * 26 + d) % 26 == d
    ensures v >= 1 ==> v * 26 + d >= 26
  {
  }

  /** The one-letter labels at both ends of the alphabet. */
  lemma OneLetterExamples()
    ensures ColumnLabel(0) == "A" && ColumnLabel(25) == "Z"
  {
  }

  /** The first two-letter labels, the last one, and the first three-letter label. */
  lemma LongerLabelExamples()
    ensures ColumnLabel(26) == "AA"
    ensures ColumnLabel(27) == "AB"
    ensures ColumnLabel(701) == "ZZ"
    ensures ColumnLabel(702) == "AAA"
  {
    var a, b, z := ColumnLabel(0), ColumnLabel(1), ColumnLabel(25);
    assert a == "A" && b == "B" && z == "Z";
    assert ColumnLabel(26) == a + a;
    assert ColumnLabel(27) == a + b;
    assert ColumnLabel(701) == z + z;
    assert ColumnLabel(702) == ColumnLabel(26) + a;
  }
}
