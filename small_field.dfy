/** Fields of the Nastran small-field bulk-data format, which are eight
    characters wide. */
module SmallField {
  import opened Common
  import opened Text

  /** Python's `min(a, b)` on integers. */
  function Min(a: int, b: int): int
  {
    if a <= b then a else b
  }

  /** `create_padded_bulkdata_field` on the text `s` of a value: one blank in
      front when there is room for it, then the text, then blanks up to
      eight characters.  Python's `" " * n` is empty for n <= 0. */
  function PaddedField(s: string): (r: string)
  {
    var front := Min(1, 8 - |s|);
    Spaces(front) + s + Spaces(8 - |s| - front)
  }

  /** Text of at most seven characters becomes a blank, the text and
      trailing blanks, eight characters in all; longer text is kept as it
      is, so the field is eight wide exactly when the text fits. */
  lemma PaddedFieldLayout(s: string)
    ensures |s| <= 7 ==> PaddedField(s) == [' '] + s + Spaces(7 - |s|)
    ensures |s| >= 8 ==> PaddedField(s) == s
    ensures |PaddedField(s)| == 8 <==> |s| <= 8
  {
    if |s| <= 7 {
      assert Spaces(1) == [' '];
    }
  }

  /** The text can be read back from its padded field: it sits at position
      1 when it was shorter than eight characters, at 0 otherwise, and
      every other character is a blank. */
  lemma PaddedFieldRoundTrip(s: string)
    ensures var r := PaddedField(s);
      var at := if |s| <= 7 then 1 else 0;
      at + |s| <= |r| && r[at..at + |s|] == s &&
      (forall i :: 0 <= i < |r| && !(at <= i < at + |s|) ==> r[i] == ' ')
  {
    PaddedFieldLayout(s);
    var r := PaddedField(s);
    if |s| <= 7 {
      assert r[1..1 + |s|] == s;
      forall i | 0 <= i < |r| && !(1 <= i < 1 + |s|) ensures r[i] == ' ' {
        if i > 0 {
          assert r[i] == Spaces(7 - |s|)[i - 1 - |s|];
        }
      }
    }
  }

  /** Fields written one after the other, as the card writers build a
      line with `+=`. */
  function Fields(fs: seq<string>): string
  {
    if fs == [] then "" else Fields(fs[..|fs| - 1]) + fs[|fs| - 1]
  }

  /** Field k, counted from 0, of a line of small fields. */
  function FieldAt(line: string, k: nat): string
    requires 8 * k + 8 <= |line|
  {
    line[8 * k..8 * k + 8]
  }

  /** Fields of eight characters each can be read back at positions that
      are multiples of eight. */
  lemma {:induction false} FieldsAt(fs: seq<string>)
    requires forall k :: 0 <= k < |fs| ==> |fs[k]| == 8
    ensures |Fields(fs)| == 8 * |fs|
    ensures forall k :: 0 <= k < |fs| ==> FieldAt(Fields(fs), k) == fs[k]
  {
    if fs != [] {
      var n := |fs| - 1;
      FieldsAt(fs[..n]);
      var front := Fields(fs[..n]);
      assert Fields(fs) == front + fs[n];
      forall k | 0 <= k < |fs| ensures FieldAt(Fields(fs), k) == fs[k] {
        if k < n {
          assert Fields(fs)[8 * k..8 * k + 8] == front[8 * k..8 * k + 8];
          assert fs[..n][k] == fs[k];
        } else {
          assert Fields(fs)[8 * k..8 * k + 8] == fs[n];
        }
      }
    }
  }
}
