/** The regular expressions the label checks use for Nastran reals.

    `is_valid_nastran_real` (macros/export_nodeset.py) deletes every
    whitespace character and then needs the whole text to match
    `[+|-]?[0-9]{1,}\.[0-9]{0,}E?[-|+]?[0-9]{0,}` or
    `[+|-]?\.[0-9]{1,}E?[-|+]?[0-9]{0,}`.  `is_valid_MAT1_card`
    (macros/export_mystran_analysis.py) uses `re.match`, which only needs a
    PREFIX of the field to match, with `[-|+]{0,1}[0-9]*\.[0-9]*E[-|+]{0,1}[0-9]+`
    or `[0-9]+\.[0-9]+`.  The character class `[+|-]` holds '+', '|' and '-'.

    Each pattern is computed by a left-to-right scanner and is also stated
    as a "form": the positions where its pieces start and end.  The lemmas
    prove scanner and form agree. */
module RealSyntax {
  import opened Text

  /** The sign class `[+|-]`, which also admits '|'. */
  predicate IsSign(c: char)
  {
    c == '+' || c == '|' || c == '-'
  }

  /** Python's `\s` on a `str` pattern: the characters `str.isspace()`
      accepts. */
  predicate IsSpace(c: char)
  {
    var n := c as int;
    (9 <= n <= 13) || (28 <= n <= 32) || n == 0x85 || n == 0xA0 || n == 0x1680 ||
    (0x2000 <= n <= 0x200A) || n == 0x2028 || n == 0x2029 || n == 0x202F ||
    n == 0x205F || n == 0x3000
  }

  /** `re.sub(r"\s", "", x)`. */
  function StripSpaces(x: string): (r: string)
    ensures forall i :: 0 <= i < |r| ==> !IsSpace(r[i])
    ensures (forall i :: 0 <= i < |x| ==> !IsSpace(x[i])) ==> r == x
  {
    if x == [] then []
    else
      var front := StripSpaces(x[..|x| - 1]);
      var last := x[|x| - 1];
      assert x[..|x| - 1] + [last] == x;
      if IsSpace(last) then front else front + [last]
  }

  /** Deleting whitespace from two pieces deletes it from their
      concatenation. */
  lemma {:induction false} StripAppend(a: string, b: string)
    ensures StripSpaces(a + b) == StripSpaces(a) + StripSpaces(b)
    decreases |b|
  {
    if b == [] {
      assert a + b == a;
    } else {
      var front := b[..|b| - 1];
      assert (a + b)[..|a + b| - 1] == a + front;
      StripAppend(a, front);
    }
  }

  /** Every character that is not whitespace survives the deletion. */
  lemma {:induction false} StripHas(x: string, c: char)
    requires c in x && !IsSpace(c)
    ensures c in StripSpaces(x)
  {
    var front := x[..|x| - 1];
    assert x == front + [x[|x| - 1]];
    if c != x[|x| - 1] {
      StripHas(front, c);
    }
  }

  /** All of s[i..j] are decimal digits. */
  ghost predicate DigitsIn(s: string, i: int, j: int)
  {
    0 <= i <= j <= |s| && forall k :: i <= k < j ==> IsDigit(s[k])
  }

  /** The end of the run of digits that starts at i. */
  function SkipDigits(s: string, i: nat): (j: nat)
    requires i <= |s|
    ensures i <= j <= |s| && DigitsIn(s, i, j) && (j == |s| || !IsDigit(s[j]))
    decreases |s| - i
  {
    if i < |s| && IsDigit(s[i]) then SkipDigits(s, i + 1) else i
  }

  /** A run of digits ends at the first character that is not one. */
  lemma RunEnd(s: string, i: nat, j: nat)
    requires DigitsIn(s, i, j) && (j == |s| || !IsDigit(s[j]))
    ensures SkipDigits(s, i) == j
  {
  }

  /** Past an optional sign `[+|-]?`. */
  function OptSign(s: string, i: nat): (j: nat)
    requires i <= |s|
  {
    if i < |s| && IsSign(s[i]) then i + 1 else i
  }

  /** s[..i] is an optional leading sign. */
  ghost predicate LeadingSign(s: string, i: int)
  {
    i == 0 || (i == 1 && |s| > 0 && IsSign(s[0]))
  }

  // ---------------------------------------------------------------
  // is_valid_nastran_real: anchored patterns

  /** `[0-9]{0,}E?[-|+]?[0-9]{0,}$` scanned from position a. */
  predicate TailAt(s: string, a: nat)
    requires a <= |s|
  {
    var k := SkipDigits(s, a);
    var l := if k < |s| && s[k] == 'E' then k + 1 else k;
    SkipDigits(s, OptSign(s, l)) == |s|
  }

  /** The pieces of that pattern: digits s[a..k], an optional 'E' s[k..l],
      an optional sign s[l..m], digits s[m..]. */
  ghost predicate TailParts(s: string, a: int, k: int, l: int, m: int)
  {
    a <= k <= l <= m <= |s| && DigitsIn(s, a, k) &&
    (l == k || (l == k + 1 && s[k] == 'E')) &&
    (m == l || (m == l + 1 && IsSign(s[l]))) &&
    DigitsIn(s, m, |s|)
  }

  ghost predicate TailForm(s: string, a: int)
  {
    exists k, l, m :: TailParts(s, a, k, l, m)
  }

  lemma TailAgrees(s: string, a: nat)
    requires a <= |s|
    ensures TailAt(s, a) <==> TailForm(s, a)
  {
    var k := SkipDigits(s, a);
    var l := if k < |s| && s[k] == 'E' then k + 1 else k;
    var m := OptSign(s, l);
    if TailAt(s, a) {
      assert TailParts(s, a, k, l, m);
    }
    if TailForm(s, a) {
      var k', l', m' :| TailParts(s, a, k', l', m');
      if l' == k' && m' == l' {
        assert DigitsIn(s, a, |s|);
        RunEnd(s, a, |s|);
      } else {
        RunEnd(s, a, k');
        if m' == l' && l' < |s| {
          assert IsDigit(s[l']);
        }
        RunEnd(s, m', |s|);
      }
    }
  }

  /** `^[+|-]?[0-9]{1,}\.[0-9]{0,}E?[-|+]?[0-9]{0,}$`. */
  predicate DigitsBeforePoint(s: string)
  {
    var i := OptSign(s, 0);
    var j := SkipDigits(s, i);
    i < j < |s| && s[j] == '.' && TailAt(s, j + 1)
  }

  /** The pieces: an optional sign s[..i], digits s[i..j] (at least one),
      the point at j, then the tail. */
  ghost predicate BeforePointParts(s: string, i: int, j: int)
  {
    LeadingSign(s, i) && i < j < |s| && DigitsIn(s, i, j) && s[j] == '.' && TailForm(s, j + 1)
  }

  ghost predicate DigitsBeforePointForm(s: string)
  {
    exists i, j :: BeforePointParts(s, i, j)
  }

  lemma DigitsBeforePointAgrees(s: string)
    ensures DigitsBeforePoint(s) <==> DigitsBeforePointForm(s)
  {
    var i := OptSign(s, 0);
    var j := SkipDigits(s, i);
    if DigitsBeforePoint(s) {
      TailAgrees(s, j + 1);
      assert BeforePointParts(s, i, j);
    }
    if DigitsBeforePointForm(s) {
      var i', j' :| BeforePointParts(s, i', j');
      if i' == 0 {
        assert IsDigit(s[0]);
      }
      RunEnd(s, i', j');
      TailAgrees(s, j' + 1);
    }
  }

  /** `^[+|-]?\.[0-9]{1,}E?[-|+]?[0-9]{0,}$`. */
  predicate DigitsAfterPoint(s: string)
  {
    var i := OptSign(s, 0);
    i + 1 < |s| && s[i] == '.' && IsDigit(s[i + 1]) && TailAt(s, i + 2)
  }

  /** The pieces: an optional sign s[..i], the point at i, a digit, then
      the tail (whose leading digits complete `[0-9]{1,}`). */
  ghost predicate AfterPointParts(s: string, i: int)
  {
    LeadingSign(s, i) && i + 1 < |s| && s[i] == '.' && IsDigit(s[i + 1]) && TailForm(s, i + 2)
  }

  ghost predicate DigitsAfterPointForm(s: string)
  {
    exists i :: AfterPointParts(s, i)
  }

  lemma DigitsAfterPointAgrees(s: string)
    ensures DigitsAfterPoint(s) <==> DigitsAfterPointForm(s)
  {
    var i := OptSign(s, 0);
    if DigitsAfterPoint(s) {
      TailAgrees(s, i + 2);
      assert AfterPointParts(s, i);
    }
    if DigitsAfterPointForm(s) {
      var i' :| AfterPointParts(s, i');
      TailAgrees(s, i' + 2);
    }
  }

  /** `is_valid_nastran_real(x)`: whitespace deleted, then either pattern
      matches the whole text.  It returns a boolean for every input. */
  predicate IsValidNastranReal(x: string)
  {
    var y := StripSpaces(x);
    DigitsBeforePoint(y) || DigitsAfterPoint(y)
  }

  /** A text accepted as a Nastran real is, once its whitespace is deleted,
      one of the two forms. */
  lemma NastranRealForms(x: string)
    ensures IsValidNastranReal(x) <==>
            DigitsBeforePointForm(StripSpaces(x)) || DigitsAfterPointForm(StripSpaces(x))
  {
    DigitsBeforePointAgrees(StripSpaces(x));
    DigitsAfterPointAgrees(StripSpaces(x));
  }

  /** The characters the two forms are made of. */
  predicate RealChar(c: char)
  {
    IsSign(c) || IsDigit(c) || c == '.' || c == 'E'
  }

  lemma TailChars(s: string, a: int, p: int)
    requires TailForm(s, a) && a <= p < |s|
    ensures RealChar(s[p])
  {
    var k, l, m :| TailParts(s, a, k, l, m);
  }

  /** Either form is made of signs, digits, '.' and 'E' only. */
  lemma FormChars(y: string, p: int)
    requires DigitsBeforePointForm(y) || DigitsAfterPointForm(y)
    requires 0 <= p < |y|
    ensures RealChar(y[p])
  {
    if DigitsBeforePointForm(y) {
      var i, j :| BeforePointParts(y, i, j);
      if p > j {
        TailChars(y, j + 1, p);
      }
    } else {
      var i :| AfterPointParts(y, i);
      if p > i + 1 {
        TailChars(y, i + 2, p);
      }
    }
  }

  /** An accepted text holds only signs, digits, '.', 'E' and whitespace;
      in particular no ',' and no '_'. */
  lemma NastranRealChars(x: string, c: char)
    requires IsValidNastranReal(x) && c in x && !IsSpace(c)
    ensures RealChar(c)
  {
    var y := StripSpaces(x);
    StripHas(x, c);
    var p :| 0 <= p < |y| && y[p] == c;
    NastranRealForms(x);
    FormChars(y, p);
  }

  // ---------------------------------------------------------------
  // is_valid_MAT1_card: prefix patterns (`re.match`)

  /** `re.match(r'[-|+]{0,1}[0-9]*\.[0-9]*E[-|+]{0,1}[0-9]+', f)`. */
  predicate ExponentPrefix(f: string)
  {
    var j := SkipDigits(f, OptSign(f, 0));
    j < |f| && f[j] == '.' &&
    var k := SkipDigits(f, j + 1);
    k < |f| && f[k] == 'E' &&
    var m := OptSign(f, k + 1);
    m < |f| && IsDigit(f[m])
  }

  /** The pieces of a match of f[..e]: an optional sign f[..i], digits
      f[i..j], the point, digits f[j+1..k], 'E', an optional sign
      f[k+1..m] and digits f[m..e] (at least one). */
  ghost predicate ExponentParts(f: string, i: int, j: int, k: int, m: int, e: int)
  {
    LeadingSign(f, i) && DigitsIn(f, i, j) && j < |f| && f[j] == '.' &&
    DigitsIn(f, j + 1, k) && k < |f| && f[k] == 'E' &&
    m < e && DigitsIn(f, m, e) &&
    (m == k + 1 || (m == k + 2 && IsSign(f[k + 1])))
  }

  ghost predicate ExponentPrefixForm(f: string)
  {
    exists i, j, k, m, e :: ExponentParts(f, i, j, k, m, e)
  }

  lemma ExponentPrefixAgrees(f: string)
    ensures ExponentPrefix(f) <==> ExponentPrefixForm(f)
  {
    var i := OptSign(f, 0);
    var j := SkipDigits(f, i);
    if ExponentPrefix(f) {
      var k := SkipDigits(f, j + 1);
      var m := OptSign(f, k + 1);
      assert ExponentParts(f, i, j, k, m, m + 1);
    }
    if ExponentPrefixForm(f) {
      var i', j', k', m', e' :| ExponentParts(f, i', j', k', m', e');
      if i' == 0 && j' > 0 {
        assert IsDigit(f[0]);
      }
      RunEnd(f, i', j');
      RunEnd(f, j' + 1, k');
      if m' == k' + 1 {
        assert IsDigit(f[k' + 1]);
      }
    }
  }

  /** `re.match(r'[0-9]+\.[0-9]+', f)`. */
  predicate DecimalPrefix(f: string)
  {
    var j := SkipDigits(f, 0);
    0 < j && j + 1 < |f| && f[j] == '.' && IsDigit(f[j + 1])
  }

  /** The pieces of a match of f[..e]: digits f[..j] (at least one), the
      point, digits f[j+1..e] (at least one). */
  ghost predicate DecimalParts(f: string, j: int, e: int)
  {
    0 < j && j + 1 < e && DigitsIn(f, 0, j) && DigitsIn(f, j + 1, e) && f[j] == '.'
  }

  ghost predicate DecimalPrefixForm(f: string)
  {
    exists j, e :: DecimalParts(f, j, e)
  }

  lemma DecimalPrefixAgrees(f: string)
    ensures DecimalPrefix(f) <==> DecimalPrefixForm(f)
  {
    var j := SkipDigits(f, 0);
    if DecimalPrefix(f) {
      assert DecimalParts(f, j, j + 2);
    }
    if DecimalPrefixForm(f) {
      var j', e' :| DecimalParts(f, j', e');
      RunEnd(f, 0, j');
    }
  }

  /** A MAT1 field value: either pattern matches a prefix. */
  predicate Mat1Real(f: string)
  {
    ExponentPrefix(f) || DecimalPrefix(f)
  }
}
