/**
 * `render_filename`: the five filename values of a row, substituted into the
 * user's pattern by whole-string replaces in a fixed key order, then
 * sanitized.
 */
module Filenames {
  import opened Wrappers
  import opened Text
  import opened Sanitizer

  /** A spreadsheet row: column name to the cell's text (`str(cell)`). */
  type Row = map<string, string>

  /** `str(row.get(col, ""))`. */
  function Cell(row: Row, col: string): string {
    if col in row then row[col] else ""
  }

  /**
   * The joining date as `dd-mm-YYYY` when `parseDate` (standing for
   * `pd.to_datetime(...).strftime("%d-%m-%Y")`) succeeds, else the raw text.
   */
  function FormatDate(raw: string, parseDate: string -> Option<string>): string {
    parseDate(raw).GetOr(raw)
  }

  /** The placeholder keys, in the order the values dictionary lists them. */
  const Keys: seq<string> := ["emp_name", "city", "state", "joining_date", "index"]

  /** The placeholder of a key, `"{" + k + "}"`. */
  function Token(key: string): (t: string)
    ensures t != []
  {
    "{" + key + "}"
  }

  /** The placeholders of the five keys, spelled out. */
  const Tokens: seq<string> := ["{emp_name}", "{city}", "{state}", "{joining_date}", "{index}"]

  lemma TokensSpellKeys()
    ensures |Tokens| == |Keys| && forall j :: 0 <= j < |Keys| ==> Tokens[j] == Token(Keys[j])
  {
  }

  /**
   * The values dictionary of `render_filename`, in insertion order, each
   * value paired with the placeholder it replaces.
   */
  function FilenameValues(row: Row, idx: nat, parseDate: string -> Option<string>): (vs: seq<(string, string)>)
    ensures |vs| == |Tokens| && forall j :: 0 <= j < |vs| ==> vs[j].0 == Tokens[j]
  {
    [ ("{emp_name}", Strip(Cell(row, "emp_name"))),
      ("{city}", Strip(Cell(row, "city"))),
      ("{state}", Strip(Cell(row, "state"))),
      ("{joining_date}", FormatDate(Cell(row, "joining_date"), parseDate)),
      ("{index}", NatToString(idx)) ]
  }

  /** Placeholders are never empty. */
  predicate Placeholders(vs: seq<(string, string)>) {
    forall j :: 0 <= j < |vs| ==> vs[j].0 != []
  }

  /**
   * The loop `for k, v in values.items(): result = result.replace("{"+k+"}", v)`:
   * each replace runs on the output of the previous one, so text brought in
   * by an earlier value is scanned by the later replaces.
   */
  function Substitute(t: string, vs: seq<(string, string)>): string
    requires Placeholders(vs)
    decreases |vs|
  {
    if vs == [] then t else Substitute(ReplaceAll(t, vs[0].0, vs[0].1), vs[1..])
  }

  /** `render_filename(template, row, idx)`: always a non-empty, safe name. */
  function RenderFilename(template: string, row: Row, idx: nat, parseDate: string -> Option<string>): (r: string)
    ensures r != []
    ensures forall k :: 0 <= k < |r| ==> !IsSeparator(r[k]) && !IsReserved(r[k])
    ensures forall k :: 0 <= k < |r| ==> IsSpace(r[k]) ==> r[k] == ' '
  {
    Sanitize(Substitute(template, FilenameValues(row, idx, parseDate)))
  }

  // ---------------------------------------------------------------------------
  // Substitution

  /** Replacing placeholders that do not occur leaves the text as it is. */
  lemma {:induction false} SubstituteAbsent(t: string, vs: seq<(string, string)>)
    requires Placeholders(vs)
    requires forall j :: 0 <= j < |vs| ==> !Occurs(vs[j].0, t)
    ensures Substitute(t, vs) == t
    decreases |vs|
  {
    if vs != [] {
      ReplaceAbsent(t, vs[0].0, vs[0].1);
      SubstituteAbsent(t, vs[1..]);
    }
  }

  /** Text without a `{` holds none of the placeholders. */
  lemma UnbracedHoldsNoToken(t: string, vs: seq<(string, string)>, n: nat)
    requires '{' !in t
    requires forall j :: n <= j < |vs| ==> '{' in vs[j].0
    ensures forall j :: n <= j < |vs| ==> !Occurs(vs[j].0, t)
  {
    forall j | n <= j < |vs| ensures !Occurs(vs[j].0, t) {
      NotOccursByChar(vs[j].0, t, '{');
    }
  }

  /** Every placeholder of the filename values starts with `{`. */
  lemma PlaceholdersBraced(row: Row, idx: nat, parseDate: string -> Option<string>)
    ensures forall j :: 0 <= j < |Tokens| ==> FilenameValues(row, idx, parseDate)[j].0[0] == '{'
  {
  }

  /** Text without a `{` is left as it is by the substitution. */
  lemma NoBraceNoToken(t: string, row: Row, idx: nat, parseDate: string -> Option<string>)
    requires '{' !in t
    ensures Substitute(t, FilenameValues(row, idx, parseDate)) == t
  {
    var vs := FilenameValues(row, idx, parseDate);
    PlaceholdersBraced(row, idx, parseDate);
    UnbracedHoldsNoToken(t, vs, 0);
    SubstituteAbsent(t, vs);
  }

  /**
   * A pattern holding none of the five placeholders (any other `{...}`
   * included) is only sanitized.
   */
  lemma RenderWithoutTokens(template: string, row: Row, idx: nat, parseDate: string -> Option<string>)
    requires forall j :: 0 <= j < |Tokens| ==> !Occurs(Tokens[j], template)
    ensures RenderFilename(template, row, idx, parseDate) == Sanitize(template)
  {
    SubstituteAbsent(template, FilenameValues(row, idx, parseDate));
  }

  /** The substitution is the first replace, then the rest of the list. */
  lemma SubstituteFirst(t: string, vs: seq<(string, string)>)
    requires Placeholders(vs) && vs != []
    ensures Substitute(t, vs) == Substitute(ReplaceAll(t, vs[0].0, vs[0].1), vs[1..])
  {
  }

  /** A placeholder replaced by a value gives the value. */
  lemma ReplaceWhole(pat: string, v: string)
    requires pat != []
    ensures ReplaceAll(pat, pat, v) == v
  {
    assert pat[..|pat|] == pat && pat[|pat|..] == [];
  }

  /** Substituting a list is substituting its first part, then the rest. */
  lemma {:induction false} SubstituteSplit(t: string, vs: seq<(string, string)>, n: nat)
    requires Placeholders(vs) && n <= |vs|
    ensures Substitute(t, vs) == Substitute(Substitute(t, vs[..n]), vs[n..])
    decreases n
  {
    if n > 0 {
      var t' := ReplaceAll(t, vs[0].0, vs[0].1);
      SubstituteSplit(t', vs[1..], n - 1);
      assert vs[1..][..n - 1] == vs[..n][1..];
      assert vs[1..][n - 1..] == vs[n..];
    }
  }

  /**
   * When no earlier placeholder occurs in the text, and no later one occurs
   * in what the `n`-th replace leaves, the substitution is that one replace.
   */
  lemma SubstituteOne(t: string, vs: seq<(string, string)>, n: nat)
    requires Placeholders(vs) && n < |vs|
    requires forall j :: 0 <= j < n ==> !Occurs(vs[j].0, t)
    requires forall j :: n < j < |vs| ==> !Occurs(vs[j].0, ReplaceAll(t, vs[n].0, vs[n].1))
    ensures Substitute(t, vs) == ReplaceAll(t, vs[n].0, vs[n].1)
  {
    SubstituteSplit(t, vs, n);
    SubstituteAbsent(t, vs[..n]);
    var u := ReplaceAll(t, vs[n].0, vs[n].1);
    assert vs[n..][1..] == vs[n + 1..];
    SubstituteAbsent(u, vs[n + 1..]);
  }

  /** A placeholder replaced at the head of the text gives its value followed by the rest. */
  lemma ReplaceLeadingToken(pat: string, tail: string, v: string)
    requires pat != [] && !Occurs(pat, tail)
    ensures ReplaceAll(pat + tail, pat, v) == v + tail
  {
    assert (pat + tail)[..|pat|] == pat;
    assert (pat + tail)[|pat|..] == tail;
    ReplaceAbsent(tail, pat, v);
  }

  // ---------------------------------------------------------------------------
  // The five placeholders

  /** No key holds a brace, and the keys are distinct. */
  lemma KeysPlain()
    ensures forall j :: 0 <= j < |Keys| ==> '{' !in Keys[j] && '}' !in Keys[j]
    ensures forall i, j :: 0 <= i < j < |Keys| ==> Keys[i] != Keys[j]
  {
    assert Keys[0][0] == 'e' && Keys[1][0] == 'c' && Keys[2][0] == 's' && Keys[3][0] == 'j' && Keys[4][0] == 'i';
  }

  /** Inside a placeholder, a key without braces holds no brace. */
  lemma NoInnerBrace(b: string, k: int)
    requires '{' !in b && '}' !in b
    requires 0 < k < |Token(b)| - 1
    ensures Token(b)[k] != '{' && Token(b)[k] != '}'
  {
    assert Token(b)[k] == b[k - 1];
  }

  /** The key is what lies between the braces of its placeholder. */
  lemma TokenKey(a: string)
    ensures |Token(a)| == |a| + 2 && Token(a)[1..|a| + 1] == a
  {
  }

  /** A placeholder occurs inside another only when both name the same key. */
  lemma TokenInToken(a: string, b: string)
    requires '{' !in a && '}' !in a && '{' !in b && '}' !in b
    requires Occurs(Token(a), Token(b))
    ensures a == b
  {
    var p, s := Token(a), Token(b);
    var i :| 0 <= i <= |s| - |p| && OccursAt(p, s, i);
    assert s[i] == p[0] == '{' by {
      assert s[i..i + |p|][0] == p[0];
    }
    if i > 0 {
      NoInnerBrace(b, i);
    }
    assert s[|p| - 1] == p[|p| - 1] == '}' by {
      assert s[i..i + |p|][|p| - 1] == p[|p| - 1];
    }
    if |p| < |s| {
      NoInnerBrace(b, |p| - 1);
    }
    assert p == s by {
      assert s[..|p|] == s;
    }
    TokenKey(a);
    TokenKey(b);
  }

  /** The placeholder of one key does not occur in the placeholder of another. */
  lemma KeyTokensDistinct(i: nat, j: nat)
    requires i < |Tokens| && j < |Tokens| && i != j
    ensures !Occurs(Tokens[i], Tokens[j])
  {
    KeysPlain();
    TokensSpellKeys();
    if Occurs(Token(Keys[i]), Token(Keys[j])) {
      TokenInToken(Keys[i], Keys[j]);
    }
  }

  // ---------------------------------------------------------------------------
  // Rendering single placeholders

  /**
   * A pattern that is just the `n`-th placeholder renders to the sanitized
   * `n`-th value, provided that value holds none of the later placeholders.
   */
  lemma RenderOneToken(n: nat, row: Row, idx: nat, parseDate: string -> Option<string>)
    requires n < |Tokens|
    requires forall j :: n < j < |Tokens| ==> !Occurs(Tokens[j], FilenameValues(row, idx, parseDate)[n].1)
    ensures RenderFilename(Tokens[n], row, idx, parseDate) == Sanitize(FilenameValues(row, idx, parseDate)[n].1)
  {
    var vs := FilenameValues(row, idx, parseDate);
    ValuesApart(vs);
    SubstituteOnly(vs, n);
  }

  /** The placeholders of a list naming the five keys are non-empty and none occurs in another. */
  lemma ValuesApart(vs: seq<(string, string)>)
    requires |vs| == |Tokens| && forall j :: 0 <= j < |vs| ==> vs[j].0 == Tokens[j]
    ensures Placeholders(vs)
    ensures forall i, j :: 0 <= i < |vs| && 0 <= j < |vs| && i != j ==> !Occurs(vs[i].0, vs[j].0)
  {
    TokensSpellKeys();
    forall i, j | 0 <= i < |vs| && 0 <= j < |vs| && i != j ensures !Occurs(vs[i].0, vs[j].0) {
      KeyTokensDistinct(i, j);
    }
  }

  /**
   * Substituting into the `n`-th placeholder alone gives the `n`-th value,
   * when no earlier placeholder occurs in it and no later one in the value.
   */
  lemma SubstituteOnly(vs: seq<(string, string)>, n: nat)
    requires Placeholders(vs) && n < |vs|
    requires forall j :: 0 <= j < n ==> !Occurs(vs[j].0, vs[n].0)
    requires forall j :: n < j < |vs| ==> !Occurs(vs[j].0, vs[n].1)
    ensures Substitute(vs[n].0, vs) == vs[n].1
  {
    ReplaceWhole(vs[n].0, vs[n].1);
    SubstituteOne(vs[n].0, vs, n);
  }

  /** `{index}` becomes the decimal text of the ordinal. */
  lemma RenderIndex(row: Row, idx: nat, parseDate: string -> Option<string>)
    ensures RenderFilename("{index}", row, idx, parseDate) == NatToString(idx)
  {
    RenderOneToken(4, row, idx, parseDate);
    DigitsClean(NatToString(idx));
    SanitizeCleanName(NatToString(idx));
  }

  /**
   * An unparseable joining date contributes its raw text: the pattern
   * `{joining_date}` renders to the sanitized raw cell (provided the cell
   * does not itself hold `{index}`, which the later replace would rewrite).
   */
  lemma RenderDateFallback(row: Row, idx: nat, parseDate: string -> Option<string>)
    requires parseDate(Cell(row, "joining_date")).None?
    requires !Occurs("{index}", Cell(row, "joining_date"))
    ensures RenderFilename("{joining_date}", row, idx, parseDate) == Sanitize(Cell(row, "joining_date"))
  {
    assert FilenameValues(row, idx, parseDate)[3].1 == Cell(row, "joining_date");
    RenderOneToken(3, row, idx, parseDate);
  }

  /**
   * A pattern that starts with `{emp_name}` and holds no other brace renders
   * to the sanitized name followed by the rest, when the name has no brace.
   */
  lemma RenderNamePattern(tail: string, row: Row, idx: nat, parseDate: string -> Option<string>)
    requires '{' !in tail && '{' !in Strip(Cell(row, "emp_name"))
    ensures RenderFilename("{emp_name}" + tail, row, idx, parseDate)
         == Sanitize(Strip(Cell(row, "emp_name")) + tail)
  {
    var vs := FilenameValues(row, idx, parseDate);
    var name := Strip(Cell(row, "emp_name"));
    NotOccursByChar(Tokens[0], tail, '{');
    ReplaceLeadingToken(Tokens[0], tail, name);
    PlaceholdersBraced(row, idx, parseDate);
    UnbracedHoldsNoToken(name + tail, vs, 1);
    SubstituteOne(Tokens[0] + tail, vs, 0);
  }

  /** The default pattern is the name placeholder followed by fixed text. */
  lemma DefaultPatternParts()
    ensures "{emp_name}" + " LCF NDA Form" == "{emp_name} LCF NDA Form"
  {
  }

  /** The form's default pattern `{emp_name} LCF NDA Form`. */
  lemma RenderDefaultPattern(row: Row, idx: nat, parseDate: string -> Option<string>)
    requires '{' !in Strip(Cell(row, "emp_name"))
    ensures RenderFilename("{emp_name} LCF NDA Form", row, idx, parseDate)
         == Sanitize(Strip(Cell(row, "emp_name")) + " LCF NDA Form")
  {
    DefaultPatternParts();
    RenderNamePattern(" LCF NDA Form", row, idx, parseDate);
  }

  // ---------------------------------------------------------------------------
  // Order of the replaces

  /**
   * A value holding a later key's placeholder is rewritten again: a name cell
   * `{city}` renders, under the pattern `{emp_name}`, to the city.
   */
  lemma RenderResubstitutes(row: Row, idx: nat, parseDate: string -> Option<string>)
    requires Strip(Cell(row, "emp_name")) == "{city}"
    requires '{' !in Strip(Cell(row, "city"))
    ensures RenderFilename("{emp_name}", row, idx, parseDate) == Sanitize(Strip(Cell(row, "city")))
  {
    var vs := FilenameValues(row, idx, parseDate);
    ValuesApart(vs);
    PlaceholdersBraced(row, idx, parseDate);
    UnbracedHoldsNoToken(vs[1].1, vs, 2);
    SubstituteChain(vs);
  }

  /**
   * When the first value is the second placeholder, substituting into the
   * first placeholder gives the second value (provided no later placeholder
   * occurs in it).
   */
  lemma SubstituteChain(vs: seq<(string, string)>)
    requires Placeholders(vs) && |vs| >= 2 && vs[0].1 == vs[1].0
    requires forall j :: 1 < j < |vs| ==> !Occurs(vs[j].0, vs[1].1)
    ensures Substitute(vs[0].0, vs) == vs[1].1
  {
    ReplaceWhole(vs[0].0, vs[0].1);
    SubstituteFirst(vs[0].0, vs);
    var ws := vs[1..];
    assert forall j :: 0 <= j < |ws| ==> ws[j] == vs[j + 1];
    SubstituteOnly(ws, 0);
  }

  /**
   * A value holding an earlier key's placeholder is kept literally: a city
   * cell `{emp_name}` renders, under the pattern `{city}`, to `{emp_name}`.
   */
  lemma RenderKeepsEarlierToken(row: Row, idx: nat, parseDate: string -> Option<string>)
    requires Strip(Cell(row, "city")) == "{emp_name}"
    ensures RenderFilename("{city}", row, idx, parseDate) == Sanitize("{emp_name}")
  {
    var vs := FilenameValues(row, idx, parseDate);
    KeyTokensDistinct(0, 1);
    ReplaceWhole(Tokens[1], Tokens[0]);
    forall j | 1 < j < 5 ensures !Occurs(vs[j].0, Tokens[0]) {
      KeyTokensDistinct(j, 0);
    }
    SubstituteOne(Tokens[1], vs, 1);
  }

  // ---------------------------------------------------------------------------
  // A worked example

  /**
   * Under a pattern that starts with `{emp_name}`, a name of two clean parts
   * around a run of path separators gives the parts joined by one `-`.
   */
  lemma RenderSplitName(tail: string, row: Row, idx: nat, parseDate: string -> Option<string>, a: string, run: string, b: string)
    requires Strip(Cell(row, "emp_name")) == a + run + b
    requires '{' !in a + run + b && '{' !in tail
    requires run != [] && forall k :: 0 <= k < |run| ==> IsSeparator(run[k])
    requires IsCleanName(a) && IsCleanName(b + tail)
    ensures RenderFilename("{emp_name}" + tail, row, idx, parseDate) == a + "-" + (b + tail)
  {
    RenderNamePattern(tail, row, idx, parseDate);
    SanitizeJoinsAround(a, run, b, tail);
  }

  /** Under the default pattern, the name `Jane/Doe` names the file `Jane-Doe LCF NDA Form`. */
  lemma RenderJaneDoe(row: Row, idx: nat, parseDate: string -> Option<string>)
    requires Strip(Cell(row, "emp_name")) == "Jane/Doe"
    ensures RenderFilename("{emp_name} LCF NDA Form", row, idx, parseDate) == "Jane-Doe LCF NDA Form"
  {
    DefaultPatternParts();
    JaneDoeParts();
    JaneDoeClean();
    RenderSplitName(" LCF NDA Form", row, idx, parseDate, "Jane", "/", "Doe");
  }

  /** The name splits around the slash, and the parts join around the dash. */
  lemma JaneDoeParts()
    ensures "Jane/Doe" == "Jane" + "/" + "Doe" && '{' !in "Jane/Doe"
    ensures "Jane" + "-" + ("Doe" + " LCF NDA Form") == "Jane-Doe LCF NDA Form"
  {
  }

  /** Both sides of the slash are already clean names. */
  lemma JaneDoeClean()
    ensures IsCleanName("Jane") && IsCleanName("Doe" + " LCF NDA Form")
  {
    assert "Doe" + " LCF NDA Form" == "Doe LCF NDA Form";
  }
}
