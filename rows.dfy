/**
 * What one spreadsheet row contributes to its document: the pronoun chosen
 * from the gender cell and the context the template is rendered with.
 */
module Rows {
  import opened Wrappers
  import opened Text
  import opened Filenames

  /** `his_or_her`: "his" when the stripped, lower-cased gender is `male` or `m`, otherwise "her". */
  function Pronoun(gender: string): (r: string)
    ensures r == "his" || r == "her"
  {
    var g := Lower(Strip(gender));
    if g == "male" || g == "m" then "his" else "her"
  }

  /** `t` spells the lower-case word `w` in any mixture of cases. */
  predicate CaseVariant(t: string, w: string) {
    |t| == |w| && forall k :: 0 <= k < |t| ==> LowerChar(t[k]) == w[k]
  }

  /** Lower-casing gives the lower-case word `w` exactly on the case variants of `w`. */
  lemma LowerIsCaseVariant(t: string, w: string)
    ensures Lower(t) == w <==> CaseVariant(t, w)
  {
    if CaseVariant(t, w) {
      assert forall k :: 0 <= k < |w| ==> Lower(t)[k] == w[k];
    }
  }

  /**
   * The pronoun is "his" exactly when the gender, once stripped of
   * surrounding whitespace, is `male` or `m` in some mixture of cases; every
   * other value (the empty cell, `female`, `man`, `f`, ...) gives "her".
   */
  lemma PronounIsHisExactly(gender: string)
    ensures Pronoun(gender) == "his" <==> CaseVariant(Strip(gender), "male") || CaseVariant(Strip(gender), "m")
    ensures Pronoun(gender) == "her" <==> !CaseVariant(Strip(gender), "male") && !CaseVariant(Strip(gender), "m")
  {
    LowerIsCaseVariant(Strip(gender), "male");
    LowerIsCaseVariant(Strip(gender), "m");
  }

  /** Surrounding whitespace and capitals do not change the pronoun. */
  lemma PronounOfPaddedMale(pad: string)
    requires AllSpace(pad)
    ensures Pronoun(pad + "MALE" + pad) == "his"
  {
    StripAround(pad, "MALE");
    assert Lower("MALE") == "male" by {
      LowerIsCaseVariant("MALE", "male");
    }
  }

  /** Whitespace around a word without padding of its own is what the strip cuts. */
  lemma StripAround(pad: string, w: string)
    requires AllSpace(pad)
    requires w != [] && !IsSpace(w[0]) && !IsSpace(w[|w| - 1])
    ensures Strip(pad + w + pad) == w
  {
    var s := pad + w + pad;
    assert s[|pad|..|pad| + |w|] == w;
    assert s[..|pad|] == pad && s[|pad| + |w|..] == pad;
    StripPadded(s, w, |pad|);
  }

  /** An empty gender cell gives "her". */
  lemma PronounOfEmpty()
    ensures Pronoun("") == "her"
  {
    assert Strip("") == [] by {
      assert AllSpace("");
    }
  }

  /** The template context: the six values the document template is rendered with. */
  datatype Context = Context(
    empName: string, city: string, state: string, joiningDate: string, address: string, hisOrHer: string)

  /**
   * The template context of a row. The name, city, state and address are
   * stripped; the date is formatted as in the filenames.
   */
  function RowContext(row: Row, parseDate: string -> Option<string>): (ctx: Context)
    ensures ctx.hisOrHer == "his" || ctx.hisOrHer == "her"
  {
    Context(
      Strip(Cell(row, "emp_name")),
      Strip(Cell(row, "city")),
      Strip(Cell(row, "state")),
      FormatDate(Cell(row, "joining_date"), parseDate),
      Strip(Cell(row, "address")),
      Pronoun(Cell(row, "gender")))
  }

  /**
   * The document and its filename agree: the name, city, state and joining
   * date of the context are the values the filename pattern substitutes.
   */
  lemma ContextAgreesWithFilename(row: Row, idx: nat, parseDate: string -> Option<string>)
    ensures var vs, ctx := FilenameValues(row, idx, parseDate), RowContext(row, parseDate);
      && vs[0] == ("{emp_name}", ctx.empName)
      && vs[1] == ("{city}", ctx.city)
      && vs[2] == ("{state}", ctx.state)
      && vs[3] == ("{joining_date}", ctx.joiningDate)
  {
  }
}
