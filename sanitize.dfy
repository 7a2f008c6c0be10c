/**
 * `sanitize_filename`: three regular-expression rewrites applied in order,
 * then a fallback for an empty result.
 *   1. every run of `/` or `\` becomes one `-`;
 *   2. every run of whitespace becomes one space, then the ends are stripped;
 *   3. every `:`, `*`, `?`, `"`, `<`, `>`, `|` is deleted;
 *   4. an empty result becomes `"file"`.
 * Deletion comes after the strip, so the result may still hold doubled or
 * edge spaces (`"a : b"` gives `"a  b"`, `": :"` gives `" "`).
 */
module Sanitizer {
  import opened Text

  /** The class `[\\/]`. */
  predicate IsSeparator(c: char) {
    c == '/' || c == '\\'
  }

  /** The class `[:\*\?\"<>\|]`. */
  predicate IsReserved(c: char) {
    c == ':' || c == '*' || c == '?' || c == '"' || c == '<' || c == '>' || c == '|'
  }

  /**
   * `re.sub("[C]+", rep, s)` for the class `p`: each maximal run of
   * characters of the class becomes the single character `rep`; every other
   * character is copied. `inRun` says that the character before `s` was in
   * the class, so the run continuing into `s` already has its `rep`.
   */
  function CollapseRuns(s: string, p: char -> bool, rep: char, inRun: bool): (r: string)
    ensures |r| <= |s|
    ensures forall k :: 0 <= k < |r| ==> r[k] == rep || !p(r[k])
  {
    if s == [] then []
    else if p(s[0]) then (if inRun then [] else [rep]) + CollapseRuns(s[1..], p, rep, true)
    else [s[0]] + CollapseRuns(s[1..], p, rep, false)
  }

  /** `re.sub("[C]+", "", s)`: every character of the class is deleted. */
  function Remove(s: string, p: char -> bool): (r: string)
    ensures |r| <= |s|
    ensures forall k :: 0 <= k < |r| ==> !p(r[k])
  {
    if s == [] then [] else (if p(s[0]) then [] else [s[0]]) + Remove(s[1..], p)
  }

  /** The characters left by deletion are exactly those of the text outside the class. */
  lemma {:induction false} RemoveChars(s: string, p: char -> bool, c: char)
    ensures c in Remove(s, p) <==> c in s && !p(c)
    decreases |s|
  {
    if s != [] {
      RemoveChars(s[1..], p, c);
      assert s == [s[0]] + s[1..];
    }
  }

  /** `sanitize_filename(name)`. */
  function Sanitize(name: string): (r: string)
    ensures r != []
    ensures forall k :: 0 <= k < |r| ==> !IsSeparator(r[k]) && !IsReserved(r[k])
    ensures forall k :: 0 <= k < |r| ==> IsSpace(r[k]) ==> r[k] == ' '
  {
    var cleaned := Clean(name);
    if |cleaned| == 0 then "file" else cleaned
  }

  /** The three rewrites of `sanitize_filename`, before the fallback. */
  function Clean(name: string): (r: string)
    ensures forall k :: 0 <= k < |r| ==> !IsSeparator(r[k]) && !IsReserved(r[k])
    ensures forall k :: 0 <= k < |r| ==> IsSpace(r[k]) ==> r[k] == ' '
  {
    var spaced := CollapseRuns(CollapseRuns(name, IsSeparator, '-', false), IsSpace, ' ', false);
    var r := Remove(Strip(spaced), IsReserved);
    CleanSpacing(name);
    forall k | 0 <= k < |r| ensures !IsSeparator(r[k]) && (IsSpace(r[k]) ==> r[k] == ' ') {
      RemoveChars(Strip(spaced), IsReserved, r[k]);
    }
    r
  }

  /** After the first two rewrites and the strip no separator is left and the only whitespace is ' '. */
  lemma CleanSpacing(name: string)
    ensures forall c | c in Strip(CollapseRuns(CollapseRuns(name, IsSeparator, '-', false), IsSpace, ' ', false))
      :: !IsSeparator(c) && (IsSpace(c) ==> c == ' ')
  {
    var dashed := CollapseRuns(name, IsSeparator, '-', false);
    var spaced := CollapseRuns(dashed, IsSpace, ' ', false);
    CollapsePreserves(dashed, IsSpace, ' ', false, c => !IsSeparator(c));
    forall c | c in Strip(spaced) ensures !IsSeparator(c) && (IsSpace(c) ==> c == ' ') {
      StripChars(spaced, c);
    }
  }

  /** Collapsing keeps any property that `rep` and every character of the text have. */
  lemma {:induction false} CollapsePreserves(s: string, p: char -> bool, rep: char, inRun: bool, q: char -> bool)
    requires q(rep) && forall k :: 0 <= k < |s| ==> q(s[k])
    ensures forall k :: 0 <= k < |CollapseRuns(s, p, rep, inRun)| ==> q(CollapseRuns(s, p, rep, inRun)[k])
    decreases |s|
  {
    if s != [] {
      CollapsePreserves(s[1..], p, rep, p(s[0]), q);
    }
  }

  // ---------------------------------------------------------------------------
  // Runs

  /** Inside a run, further class characters add nothing. */
  lemma {:induction false} RunAbsorbed(run: string, rest: string, p: char -> bool, rep: char)
    requires forall k :: 0 <= k < |run| ==> p(run[k])
    ensures CollapseRuns(run + rest, p, rep, true) == CollapseRuns(rest, p, rep, true)
    decreases |run|
  {
    if run == [] {
      assert run + rest == rest;
    } else {
      assert (run + rest)[1..] == run[1..] + rest;
      RunAbsorbed(run[1..], rest, p, rep);
    }
  }

  /** A maximal run of class characters becomes exactly one `rep`. */
  lemma CollapseMaximalRun(run: string, rest: string, p: char -> bool, rep: char)
    requires run != [] && forall k :: 0 <= k < |run| ==> p(run[k])
    requires rest == [] || !p(rest[0])
    ensures CollapseRuns(run + rest, p, rep, false) == [rep] + CollapseRuns(rest, p, rep, false)
  {
    var s := run + rest;
    assert s[0] == run[0];
    RunOpens(s, p, rep);
    assert s[1..] == run[1..] + rest;
    RunAbsorbed(run[1..], rest, p, rep);
    RunCloses(rest, p, rep);
  }

  /** A class character outside a run opens one, writing its `rep`. */
  lemma RunOpens(s: string, p: char -> bool, rep: char)
    requires s != [] && p(s[0])
    ensures CollapseRuns(s, p, rep, false) == [rep] + CollapseRuns(s[1..], p, rep, true)
  {
  }

  /** A text that does not start with a class character collapses alike inside a run and outside one. */
  lemma RunCloses(s: string, p: char -> bool, rep: char)
    requires s == [] || !p(s[0])
    ensures CollapseRuns(s, p, rep, true) == CollapseRuns(s, p, rep, false)
  {
  }

  /**
   * Apart from the class characters and `rep` themselves, collapsing keeps the
   * text: whatever `q` deletes (at least the class and `rep`), deleting it
   * from the collapsed text and from the original gives the same string.
   */
  lemma {:induction false} CollapseKeepsRest(s: string, p: char -> bool, rep: char, inRun: bool, q: char -> bool)
    requires forall c :: p(c) ==> q(c)
    requires q(rep)
    ensures Remove(CollapseRuns(s, p, rep, inRun), q) == Remove(s, q)
    decreases |s|
  {
    if s != [] {
      CollapseKeepsRest(s[1..], p, rep, p(s[0]), q);
      var r := CollapseRuns(s[1..], p, rep, p(s[0]));
      if p(s[0]) && !inRun {
        assert ([rep] + r)[1..] == r;
      } else if p(s[0]) {
        assert [] + r == r;
      } else {
        assert ([s[0]] + r)[1..] == r;
      }
    }
  }

  /**
   * Every character of the collapsed text is a character of the text outside
   * the class, or the `rep` that stands for a run of the class.
   */
  lemma {:induction false} CollapseChars(s: string, p: char -> bool, rep: char, inRun: bool, c: char)
    requires c in CollapseRuns(s, p, rep, inRun)
    ensures (c in s && !p(c)) || (c == rep && exists k :: 0 <= k < |s| && p(s[k]))
    decreases |s|
  {
    var r := CollapseRuns(s[1..], p, rep, p(s[0]));
    if p(s[0]) {
      if c != rep {
        assert c in r;
        CollapseChars(s[1..], p, rep, true, c);
      }
    } else if c != s[0] {
      assert c in r;
      CollapseChars(s[1..], p, rep, false, c);
      if !(c in s[1..] && !p(c)) {
        var k :| 0 <= k < |s[1..]| && p(s[1..][k]);
        assert p(s[k + 1]);
      }
    }
  }

  /** A character outside the class survives collapsing. */
  lemma {:induction false} CollapseKeepsChar(s: string, p: char -> bool, rep: char, inRun: bool, c: char)
    requires c in s && !p(c)
    ensures c in CollapseRuns(s, p, rep, inRun)
    decreases |s|
  {
    var r := CollapseRuns(s[1..], p, rep, p(s[0]));
    if s[0] == c {
      assert CollapseRuns(s, p, rep, inRun)[0] == c;
    } else {
      assert c in s[1..];
      CollapseKeepsChar(s[1..], p, rep, p(s[0]), c);
      assert c in CollapseRuns(s, p, rep, inRun) by {
        if p(s[0]) && !inRun {
          assert CollapseRuns(s, p, rep, inRun) == [rep] + r;
        } else if p(s[0]) {
          assert CollapseRuns(s, p, rep, inRun) == [] + r;
        } else {
          assert CollapseRuns(s, p, rep, inRun) == [s[0]] + r;
        }
      }
    }
  }

  /** A run of the class in the text leaves a `rep` in the collapsed text. */
  lemma {:induction false} CollapseLeavesRep(s: string, p: char -> bool, rep: char, c: char)
    requires c in s && p(c)
    ensures rep in CollapseRuns(s, p, rep, false)
    decreases |s|
  {
    if p(s[0]) {
      assert CollapseRuns(s, p, rep, false)[0] == rep;
    } else {
      assert c in s[1..];
      CollapseLeavesRep(s[1..], p, rep, c);
      assert CollapseRuns(s, p, rep, false)[1..] == CollapseRuns(s[1..], p, rep, false);
    }
  }

  /**
   * Text whose class characters are all single `rep`s (never two in a row)
   * is left unchanged by collapsing.
   */
  lemma {:induction false} CollapseSingles(s: string, p: char -> bool, rep: char, inRun: bool)
    requires forall k :: 0 <= k < |s| && p(s[k]) ==> s[k] == rep
    requires forall k :: 0 <= k < |s| - 1 && p(s[k]) ==> !p(s[k + 1])
    requires inRun ==> s == [] || !p(s[0])
    ensures CollapseRuns(s, p, rep, inRun) == s
    decreases |s|
  {
    if s != [] {
      CollapseSingles(s[1..], p, rep, p(s[0]));
      assert s == [s[0]] + s[1..];
    }
  }

  /** Collapsing copies a prefix that holds no character of the class. */
  lemma {:induction false} CollapsePrefix(a: string, b: string, p: char -> bool, rep: char)
    requires forall k :: 0 <= k < |a| ==> !p(a[k])
    ensures CollapseRuns(a + b, p, rep, false) == a + CollapseRuns(b, p, rep, false)
    decreases |a|
  {
    if a != [] {
      CollapsePrefix(a[1..], b, p, rep);
      assert (a + b)[1..] == a[1..] + b;
      assert [a[0]] + (a[1..] + CollapseRuns(b, p, rep, false)) == a + CollapseRuns(b, p, rep, false);
    } else {
      assert a + b == b;
    }
  }

  /** Text with nothing to delete is left unchanged by deletion. */
  lemma {:induction false} RemoveNothing(s: string, p: char -> bool)
    requires forall k :: 0 <= k < |s| ==> !p(s[k])
    ensures Remove(s, p) == s
    decreases |s|
  {
    if s != [] {
      RemoveNothing(s[1..], p);
    }
  }

  // ---------------------------------------------------------------------------
  // Properties of sanitize_filename

  /** A name already in clean form: what `Sanitize` returns it unchanged. */
  predicate IsCleanName(s: string) {
    && s != []
    && (forall k :: 0 <= k < |s| ==> !IsSeparator(s[k]) && !IsReserved(s[k]))
    && (forall k :: 0 <= k < |s| ==> IsSpace(s[k]) ==> s[k] == ' ')
    && (forall k :: 0 <= k < |s| - 1 ==> !(s[k] == ' ' && s[k + 1] == ' '))
    && s[0] != ' ' && s[|s| - 1] != ' '
  }

  /**
   * A name with no separator, whose whitespace is single spaces and that is
   * not padded, is only touched by the deletion step.
   */
  lemma SanitizeOnlyDeletes(s: string)
    requires forall k :: 0 <= k < |s| ==> !IsSeparator(s[k])
    requires forall k :: 0 <= k < |s| ==> IsSpace(s[k]) ==> s[k] == ' '
    requires forall k :: 0 <= k < |s| - 1 ==> !(s[k] == ' ' && s[k + 1] == ' ')
    requires s == [] || (s[0] != ' ' && s[|s| - 1] != ' ')
    ensures Clean(s) == Remove(s, IsReserved)
  {
    CollapseSingles(s, IsSeparator, '-', false);
    CollapseSingles(s, IsSpace, ' ', false);
    StripUnpadded(s);
  }

  /** `Sanitize` is the identity on clean names. */
  lemma SanitizeCleanName(s: string)
    requires IsCleanName(s)
    ensures Sanitize(s) == s
  {
    SanitizeOnlyDeletes(s);
    RemoveNothing(s, IsReserved);
  }

  /** A non-empty string of decimal digits is a clean name. */
  lemma DigitsClean(s: string)
    requires s != [] && forall k :: 0 <= k < |s| ==> IsDigit(s[k])
    ensures IsCleanName(s)
  {
    forall k | 0 <= k < |s| ensures !IsSpace(s[k]) {
      assert IsDigit(s[k]);
    }
  }

  /** A name made only of reserved characters (the empty name included) falls back to `"file"`. */
  lemma SanitizeBlank(name: string)
    requires forall k :: 0 <= k < |name| ==> IsReserved(name[k])
    ensures Sanitize(name) == "file"
  {
    SanitizeOnlyDeletes(name);
    var r := Remove(name, IsReserved);
    if |r| > 0 {
      RemoveChars(name, IsReserved, r[0]);
    }
  }

  /**
   * Every character of the name that is neither whitespace, a separator nor
   * reserved survives the rewrites, so the sanitized name is the rewritten
   * one and holds that character; with `SanitizeMarksSeparator`, the fallback
   * is taken only when the name has no such character and no separator.
   */
  lemma SanitizeKeepsVisible(name: string, c: char)
    requires c in name && !IsSpace(c) && !IsSeparator(c) && !IsReserved(c)
    ensures c in Clean(name) && Sanitize(name) == Clean(name)
    ensures c in Sanitize(name)
  {
    var dashed := CollapseRuns(name, IsSeparator, '-', false);
    CollapseKeepsChar(name, IsSeparator, '-', false, c);
    var spaced := CollapseRuns(dashed, IsSpace, ' ', false);
    CollapseKeepsChar(dashed, IsSpace, ' ', false, c);
    StripKeeps(spaced, c);
    RemoveChars(Strip(spaced), IsReserved, c);
  }

  /** A separator anywhere in the name leaves a `-` after the rewrites, so the fallback is not taken. */
  lemma SanitizeMarksSeparator(name: string, c: char)
    requires c in name && IsSeparator(c)
    ensures '-' in Clean(name) && Sanitize(name) == Clean(name)
    ensures '-' in Sanitize(name)
  {
    var dashed := CollapseRuns(name, IsSeparator, '-', false);
    CollapseLeavesRep(name, IsSeparator, '-', c);
    var spaced := CollapseRuns(dashed, IsSpace, ' ', false);
    CollapseKeepsChar(dashed, IsSpace, ' ', false, '-');
    StripKeeps(spaced, '-');
    RemoveChars(Strip(spaced), IsReserved, '-');
  }

  /** Two clean names around a run of separators come out joined by a single `-`. */
  lemma SanitizeJoinsWithDash(a: string, run: string, b: string)
    requires IsCleanName(a) && IsCleanName(b)
    requires run != [] && forall k :: 0 <= k < |run| ==> IsSeparator(run[k])
    ensures Sanitize(a + run + b) == a + "-" + b
  {
    var joined := a + "-" + b;
    DashJoin(a, run, b);
    JoinedClean(a, b);
    CollapseSingles(joined, IsSeparator, '-', false);
    SanitizeCleanName(joined);
  }

  /** The same, with the text after the run given in two parts. */
  lemma SanitizeJoinsAround(a: string, run: string, b: string, tail: string)
    requires IsCleanName(a) && IsCleanName(b + tail)
    requires run != [] && forall k :: 0 <= k < |run| ==> IsSeparator(run[k])
    ensures Sanitize(a + run + b + tail) == a + "-" + (b + tail)
  {
    assert a + run + b + tail == a + run + (b + tail);
    SanitizeJoinsWithDash(a, run, b + tail);
  }

  /** The first rewrite turns the run between two separator-free names into one `-`. */
  lemma DashJoin(a: string, run: string, b: string)
    requires forall k :: 0 <= k < |a| ==> !IsSeparator(a[k])
    requires forall k :: 0 <= k < |b| ==> !IsSeparator(b[k])
    requires run != [] && forall k :: 0 <= k < |run| ==> IsSeparator(run[k])
    ensures CollapseRuns(a + run + b, IsSeparator, '-', false) == a + "-" + b
  {
    calc {
      CollapseRuns(a + run + b, IsSeparator, '-', false);
      { assert a + run + b == a + (run + b); }
      CollapseRuns(a + (run + b), IsSeparator, '-', false);
      { CollapsePrefix(a, run + b, IsSeparator, '-'); }
      a + CollapseRuns(run + b, IsSeparator, '-', false);
      { CollapseMaximalRun(run, b, IsSeparator, '-'); }
      a + (['-'] + CollapseRuns(b, IsSeparator, '-', false));
      { CollapseSingles(b, IsSeparator, '-', false); }
      a + (['-'] + b);
      a + "-" + b;
    }
  }

  /** Two clean names joined by `-` form a clean name. */
  lemma JoinedClean(a: string, b: string)
    requires IsCleanName(a) && IsCleanName(b)
    ensures IsCleanName(a + "-" + b)
  {
    var joined := a + "-" + b;
    assert forall k :: 0 <= k < |a| ==> joined[k] == a[k];
    assert joined[|a|] == '-';
    assert forall k :: |a| < k < |joined| ==> joined[k] == b[k - |a| - 1];
  }

  // ---------------------------------------------------------------------------
  // Deletion after the strip: neither trimmed output nor idempotence

  /** `"a : b"` keeps both spaces around the deleted colon. */
  lemma SanitizeKeepsInnerSpaces()
    ensures Sanitize("a : b") == "a  b"
  {
    SanitizeOnlyDeletes("a : b");
    RemoveColonBetweenSpaces();
  }

  /** Deletion of the colon in `"a : b"`, one character at a time. */
  lemma RemoveColonBetweenSpaces()
    ensures Remove("a : b", IsReserved) == "a  b"
  {
    assert Remove("b", IsReserved) == "b" by {
      assert "b"[1..] == [];
    }
    assert Remove(" b", IsReserved) == " b" by {
      assert " b"[1..] == "b";
    }
    assert Remove(": b", IsReserved) == " b" by {
      assert ": b"[1..] == " b";
    }
    assert Remove(" : b", IsReserved) == "  b" by {
      assert " : b"[1..] == ": b";
    }
    assert "a : b"[1..] == " : b";
  }

  /** `": :"` gives a single space, which is not replaced by the fallback. */
  lemma SanitizeWhitespaceOnly()
    ensures Sanitize(": :") == " "
  {
    SanitizeOnlyDeletes(": :");
    RemoveColonsAroundSpace();
  }

  /** Deletion of both colons in `": :"`. */
  lemma RemoveColonsAroundSpace()
    ensures Remove(": :", IsReserved) == " "
  {
    var s := ": :";
    assert Remove(s[2..], IsReserved) == "";
    assert Remove(s[1..], IsReserved) == " ";
  }

  /** Sanitizing twice can differ from sanitizing once: `" "` becomes `"file"`. */
  lemma SanitizeNotIdempotent()
    ensures Sanitize(Sanitize(": :")) != Sanitize(": :")
  {
    SanitizeWhitespaceOnly();
    var s := " ";
    CollapseSingles(s, IsSeparator, '-', false);
    CollapseSingles(s, IsSpace, ' ', false);
    assert LeadingSpaces(s) == 1;
    assert Remove(Strip(s), IsReserved) == [];
  }
}
