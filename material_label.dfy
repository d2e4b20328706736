/** The MAT1 material label of the MYSTRAN export
    (`is_valid_MAT1_card`, macros/export_mystran_analysis.py).

    A material object's label such as `steel MAT1_2.0E5__0.3_7.85E-9`
    abbreviates a MAT1 card: the label splits at '_', the first field must
    contain "MAT1" (a name may precede it), and the next four are Young's
    modulus, the shear modulus (which may be empty), Poisson's ratio and the
    density.  Each value must start with a Nastran real in one of the two
    forms of `RealSyntax.Mat1Real`. */
module MaterialLabel {
  import opened Common
  import opened Text
  import opened RealSyntax

  /** The `ValueError`s the label test raises, and the `IndexError` a label with
      too few fields raises. */
  datatype Mat1Error =
    | NoMat1
    | NoUnderscore
    | NoMat1InFirstField
    | MissingField
    | BadYoungs
    | BadShear
    | BadPoisson
    | BadDensity

  /** The checks before any value is read.  On success, the fields with the
      first replaced by "MAT1". */
  function LabelFields(text: string): (r: Result<seq<string>, Mat1Error>)
    ensures r.Ok? ==> |r.value| == |Split(text, '_')| >= 2
  {
    if !Contains(text, "MAT1") then Err(NoMat1)
    else if '_' !in text then Err(NoUnderscore)
    else
      var parts := Split(text, '_');
      SplitTwo(text, '_');
      if !Contains(parts[0], "MAT1") then Err(NoMat1InFirstField)
      else Ok(["MAT1"] + parts[1..])
  }

  /** The Young's modulus test as written: when the field does not start
      with the exponent form, the decimal form is tried on the NEXT field. */
  function YoungsAsWritten(f: seq<string>): Result<(), Mat1Error>
    requires |f| >= 2
  {
    if ExponentPrefix(f[1]) then Ok(())
    else if |f| < 3 then Err(MissingField)
    else if DecimalPrefix(f[2]) then Ok(())
    else Err(BadYoungs)
  }

  /** The Young's modulus test as intended: either form on its own field. */
  function Youngs(f: seq<string>): Result<(), Mat1Error>
    requires |f| >= 2
  {
    if Mat1Real(f[1]) then Ok(()) else Err(BadYoungs)
  }

  /** Shear modulus (or nothing), Poisson's ratio and density, in that
      order; a missing field raises when it is first read. */
  function OtherValues(f: seq<string>): Result<(), Mat1Error>
  {
    if |f| < 3 then Err(MissingField)
    else if !(f[2] == "" || Mat1Real(f[2])) then Err(BadShear)
    else if |f| < 4 then Err(MissingField)
    else if !Mat1Real(f[3]) then Err(BadPoisson)
    else if |f| < 5 then Err(MissingField)
    else if !Mat1Real(f[4]) then Err(BadDensity)
    else Ok(())
  }

  /** `is_valid_MAT1_card` as written. */
  function Mat1CardAsWritten(text: string): Result<(), Mat1Error>
  {
    match LabelFields(text)
    case Err(e) => Err(e)
    case Ok(f) =>
      match YoungsAsWritten(f)
      case Err(e) => Err(e)
      case Ok(_) => OtherValues(f)
  }

  /** `is_valid_MAT1_card` with Young's modulus read from its own field. */
  function Mat1Card(text: string): Result<(), Mat1Error>
  {
    match LabelFields(text)
    case Err(e) => Err(e)
    case Ok(f) =>
      match Youngs(f)
      case Err(e) => Err(e)
      case Ok(_) => OtherValues(f)
  }

  /** A MAT1 value: a prefix in the exponent form or the decimal form. */
  ghost predicate Mat1RealForm(f: string)
  {
    ExponentPrefixForm(f) || DecimalPrefixForm(f)
  }

  /** What an accepted label looks like: at least five '_'-separated fields,
      "MAT1" in the first, values in the next four (the shear modulus may be
      empty). */
  ghost predicate Mat1Shaped(text: string)
  {
    var parts := Split(text, '_');
    |parts| >= 5 && Contains(parts[0], "MAT1") &&
    Mat1RealForm(parts[1]) && (parts[2] == "" || Mat1RealForm(parts[2])) &&
    Mat1RealForm(parts[3]) && Mat1RealForm(parts[4])
  }

  /** The same, with the Young's modulus test as written. */
  ghost predicate Mat1ShapedAsWritten(text: string)
  {
    var parts := Split(text, '_');
    |parts| >= 5 && Contains(parts[0], "MAT1") &&
    (ExponentPrefixForm(parts[1]) || DecimalPrefixForm(parts[2])) &&
    (parts[2] == "" || Mat1RealForm(parts[2])) &&
    Mat1RealForm(parts[3]) && Mat1RealForm(parts[4])
  }

  /** A first field that holds "MAT1" puts "MAT1" in the label, and a
      second field puts '_' in it: the first two checks only decide which
      error is reported. */
  lemma FirstFieldInLabel(text: string)
    requires |Split(text, '_')| >= 2
    ensures '_' in text
    ensures Contains(Split(text, '_')[0], "MAT1") ==> Contains(text, "MAT1")
  {
    JoinSplit(text, '_');
    ContainsJoin(Split(text, '_'), '_', "MAT1");
  }

  /** Fields joined with '_' come back from the label test unchanged, the
      first replaced by "MAT1". */
  lemma LabelFieldsJoin(parts: seq<string>)
    requires |parts| >= 2 && Contains(parts[0], "MAT1")
    requires forall k :: 0 <= k < |parts| ==> '_' !in parts[k]
    ensures LabelFields(Join(parts, '_')) == Ok(["MAT1"] + parts[1..])
  {
    SplitJoin(parts, '_');
    ContainsJoin(parts, '_', "MAT1");
  }

  lemma Mat1Values(f: string)
    ensures Mat1Real(f) <==> Mat1RealForm(f)
  {
    ExponentPrefixAgrees(f);
    DecimalPrefixAgrees(f);
  }

  /** The corrected label test accepts exactly the labels of MAT1 shape. */
  lemma Mat1CardAccepts(text: string)
    ensures Mat1Card(text).Ok? <==> Mat1Shaped(text)
  {
    var parts := Split(text, '_');
    if |parts| >= 2 {
      FirstFieldInLabel(text);
    }
    if |parts| >= 5 {
      Mat1Values(parts[1]);
      Mat1Values(parts[2]);
      Mat1Values(parts[3]);
      Mat1Values(parts[4]);
    }
  }

  /** The label test as written accepts exactly the labels of the as-written
      shape. */
  lemma Mat1CardAsWrittenAccepts(text: string)
    ensures Mat1CardAsWritten(text).Ok? <==> Mat1ShapedAsWritten(text)
  {
    var parts := Split(text, '_');
    if |parts| >= 2 {
      FirstFieldInLabel(text);
    }
    if |parts| >= 5 {
      ExponentPrefixAgrees(parts[1]);
      DecimalPrefixAgrees(parts[2]);
      Mat1Values(parts[2]);
      Mat1Values(parts[3]);
      Mat1Values(parts[4]);
    }
  }

  /** Writing a label from its parts: a name holding "MAT1", four values and
      any further fields, none holding '_', joined with '_', passes the
      corrected label test. */
  lemma Mat1LabelAccepted(name: string, e: string, g: string, nu: string, rho: string, extra: seq<string>)
    requires Contains(name, "MAT1")
    requires Mat1RealForm(e) && (g == "" || Mat1RealForm(g)) && Mat1RealForm(nu) && Mat1RealForm(rho)
    requires forall k :: 0 <= k < |[name, e, g, nu, rho] + extra| ==> '_' !in ([name, e, g, nu, rho] + extra)[k]
    ensures Mat1Card(Join([name, e, g, nu, rho] + extra, '_')).Ok?
  {
    var parts := [name, e, g, nu, rho] + extra;
    SplitJoin(parts, '_');
    Mat1CardAccepts(Join(parts, '_'));
  }

  /** A value `d.d` is in the decimal form and not in the exponent form. */
  lemma ShortDecimal(f: string)
    requires |f| == 3 && IsDigit(f[0]) && f[1] == '.' && IsDigit(f[2])
    ensures DecimalPrefix(f) && !ExponentPrefix(f)
  {
    RunEnd(f, 0, 1);
    RunEnd(f, 2, 3);
  }

  /** A value that starts with neither a digit, a sign nor a point is in
      neither form. */
  lemma NotAReal(f: string)
    requires |f| > 0 && !IsDigit(f[0]) && !IsSign(f[0]) && f[0] != '.'
    ensures !Mat1Real(f)
  {
    RunEnd(f, 0, 0);
  }

  /** The labels a list of fields joined with '_' gives. */
  ghost predicate Mat1Fields(parts: seq<string>)
  {
    |parts| >= 5 && Contains(parts[0], "MAT1") &&
    (forall k :: 0 <= k < |parts| ==> '_' !in parts[k]) &&
    Mat1Real(parts[3]) && Mat1Real(parts[4])
  }

  /** As written, a decimal shear modulus lets ANY Young's modulus
      through. */
  lemma AsWrittenSkipsYoungs(parts: seq<string>)
    requires Mat1Fields(parts) && DecimalPrefix(parts[2])
    ensures Mat1CardAsWritten(Join(parts, '_')).Ok?
  {
    LabelFieldsJoin(parts);
  }

  /** As written, an empty shear modulus rejects every Young's modulus not
      in the exponent form, plain decimals included. */
  lemma AsWrittenNeedsExponent(parts: seq<string>)
    requires Mat1Fields(parts) && parts[2] == "" && !ExponentPrefix(parts[1])
    ensures Mat1CardAsWritten(Join(parts, '_')) == Err(BadYoungs)
  {
    LabelFieldsJoin(parts);
  }

  /** The corrected label test reads Young's modulus from its own field. */
  lemma CorrectedReadsYoungs(parts: seq<string>)
    requires Mat1Fields(parts) && (parts[2] == "" || Mat1Real(parts[2]))
    ensures Mat1Card(Join(parts, '_')).Ok? <==> Mat1Real(parts[1])
  {
    LabelFieldsJoin(parts);
  }

  /** An instance of the first: Young's modulus "x". */
  lemma Mat1IgnoresYoungs()
    ensures Mat1CardAsWritten(Join(["MAT1", "x", "1.0", "0.3", "1.0"], '_')).Ok?
    ensures Mat1Card(Join(["MAT1", "x", "1.0", "0.3", "1.0"], '_')) == Err(BadYoungs)
  {
    var parts := ["MAT1", "x", "1.0", "0.3", "1.0"];
    assert OccursAt(parts[0], "MAT1", 0);
    ContainsAt(parts[0], "MAT1", 0);
    ShortDecimal("1.0");
    ShortDecimal("0.3");
    NotAReal("x");
    AsWrittenSkipsYoungs(parts);
    CorrectedReadsYoungs(parts);
  }

  /** An instance of the second: Young's modulus "2.0" with no shear
      modulus. */
  lemma Mat1RejectsDecimalYoungs()
    ensures Mat1CardAsWritten(Join(["MAT1", "2.0", "", "0.3", "7.8"], '_')) == Err(BadYoungs)
    ensures Mat1Card(Join(["MAT1", "2.0", "", "0.3", "7.8"], '_')).Ok?
  {
    var parts := ["MAT1", "2.0", "", "0.3", "7.8"];
    assert OccursAt(parts[0], "MAT1", 0);
    ContainsAt(parts[0], "MAT1", 0);
    ShortDecimal("2.0");
    ShortDecimal("0.3");
    ShortDecimal("7.8");
    AsWrittenNeedsExponent(parts);
    CorrectedReadsYoungs(parts);
  }
}
