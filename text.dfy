/**
 * String helpers shared by the filename and row code: the whitespace class of
 * Python's `\s` and `str.strip()`, ASCII lower-casing, decimal rendering of
 * ordinals (`str(int)`), and `str.replace` with its reference definition
 * through `str.split` and `str.join`.
 */
module Text {

  // ---------------------------------------------------------------------------
  // Whitespace and strip

  /**
   * The characters CPython treats as whitespace, both for `\s` in a `str`
   * regular expression and for `str.strip()`.
   */
  predicate IsSpace(c: char) {
    || c == ' ' || c == '\t' || c == '\n' || c == '\r'
    || c == '\U{0B}' || c == '\U{0C}'
    || ('\U{1C}' <= c <= '\U{1F}')
    || c == '\U{85}' || c == '\U{A0}' || c == '\U{1680}'
    || ('\U{2000}' <= c <= '\U{200A}')
    || c == '\U{2028}' || c == '\U{2029}' || c == '\U{202F}' || c == '\U{205F}'
    || c == '\U{3000}'
  }

  ghost predicate AllSpace(s: string) {
    forall k :: 0 <= k < |s| ==> IsSpace(s[k])
  }

  /** `r` is what is left of `s` once the whitespace before index `i` and after `r` is cut. */
  ghost predicate PaddedSlice(s: string, r: string, i: int) {
    0 <= i <= |s| - |r| && s[i..i + |r|] == r && AllSpace(s[..i]) && AllSpace(s[i + |r|..])
  }

  /** Length of the longest all-whitespace prefix of `s`. */
  function LeadingSpaces(s: string): (n: nat)
    ensures n <= |s|
    ensures forall k :: 0 <= k < n ==> IsSpace(s[k])
    ensures n < |s| ==> !IsSpace(s[n])
  {
    if s != [] && IsSpace(s[0]) then 1 + LeadingSpaces(s[1..]) else 0
  }

  /** Length of the longest all-whitespace suffix of `s`. */
  function TrailingSpaces(s: string): (n: nat)
    ensures n <= |s|
    ensures forall k :: |s| - n <= k < |s| ==> IsSpace(s[k])
    ensures n < |s| ==> !IsSpace(s[|s| - 1 - n])
  {
    if s != [] && IsSpace(s[|s| - 1]) then 1 + TrailingSpaces(s[..|s| - 1]) else 0
  }

  /** `str.strip()`: the text between the longest whitespace prefix and the longest whitespace suffix. */
  function Strip(s: string): (r: string)
    ensures |r| <= |s|
    ensures r == [] || (!IsSpace(r[0]) && !IsSpace(r[|r| - 1]))
  {
    var t := s[LeadingSpaces(s)..];
    t[..|t| - TrailingSpaces(t)]
  }

  /**
   * The result of `Strip` is the slice of its argument left after removing a
   * whitespace prefix and a whitespace suffix.
   */
  lemma StripSlice(s: string)
    ensures PaddedSlice(s, Strip(s), LeadingSpaces(s))
  {
    var a := LeadingSpaces(s);
    var t := s[a..];
    SpacePrefix(s);
    SpaceSuffix(t);
    PaddedFromParts(s, a, |t| - TrailingSpaces(t));
  }

  /** Cutting whitespace before index `a` and after `n` more characters leaves those `n` characters as a padded slice. */
  lemma PaddedFromParts(s: string, a: int, n: int)
    requires 0 <= a <= |s| && 0 <= n <= |s| - a
    requires AllSpace(s[..a]) && AllSpace(s[a..][n..])
    ensures PaddedSlice(s, s[a..][..n], a)
  {
    assert s[a..][..n] == s[a..a + n];
    assert s[a..][n..] == s[a + n..];
  }

  lemma SpacePrefix(s: string)
    ensures AllSpace(s[..LeadingSpaces(s)])
  {
    var a := LeadingSpaces(s);
    forall k | 0 <= k < a ensures IsSpace(s[..a][k]) {
      assert s[..a][k] == s[k];
    }
  }

  lemma SpaceSuffix(t: string)
    ensures AllSpace(t[|t| - TrailingSpaces(t)..])
  {
    var i := |t| - TrailingSpaces(t);
    forall k | 0 <= k < |t| - i ensures IsSpace(t[i..][k]) {
      assert t[i..][k] == t[i + k];
    }
  }

  /** `Strip` gives the empty text exactly when its argument is all whitespace. */
  lemma StripEmpty(s: string)
    ensures Strip(s) == [] <==> AllSpace(s)
  {
    var a := LeadingSpaces(s);
    var t := s[a..];
    if AllSpace(s) {
      assert a == |s|;
    }
    if Strip(s) == [] {
      assert TrailingSpaces(t) == |t|;
    }
  }

  /** Every character that survives `Strip` comes from its argument. */
  lemma StripChars(s: string, c: char)
    requires c in Strip(s)
    ensures c in s
  {
    var r := Strip(s);
    StripSlice(s);
    var i := LeadingSpaces(s);
    var k :| 0 <= k < |r| && r[k] == c;
    assert s[i + k] == c;
  }

  /** `Strip` keeps every character that is not whitespace. */
  lemma StripKeeps(s: string, c: char)
    requires c in s && !IsSpace(c)
    ensures c in Strip(s)
  {
    var r := Strip(s);
    StripSlice(s);
    var i := LeadingSpaces(s);
    var k :| 0 <= k < |s| && s[k] == c;
    if i <= k < i + |r| {
      assert r[k - i] == c;
    }
  }

  /** A string that does not start or end with whitespace is its own strip. */
  lemma StripUnpadded(s: string)
    requires s == [] || (!IsSpace(s[0]) && !IsSpace(s[|s| - 1]))
    ensures Strip(s) == s
  {
    if s != [] {
      assert LeadingSpaces(s) == 0;
      assert TrailingSpaces(s) == 0;
    }
  }

  /** Cutting whitespace padding off a text that has no padding of its own gives that text back. */
  lemma StripPadded(s: string, r: string, i: int)
    requires PaddedSlice(s, r, i)
    requires r != [] && !IsSpace(r[0]) && !IsSpace(r[|r| - 1])
    ensures Strip(s) == r
  {
    assert s[i] == r[0];
    var a := LeadingSpaces(s);
    assert a == i;
    var t := s[a..];
    assert t[|r| - 1] == r[|r| - 1];
    var b := TrailingSpaces(t);
    assert b == |t| - |r|;
    assert t[..|r|] == r;
  }

  // ---------------------------------------------------------------------------
  // ASCII case

  function LowerChar(c: char): char {
    if 'A' <= c <= 'Z' then (c as int + 32) as char else c
  }

  /** `str.lower()` restricted to ASCII letters; every other character is kept. */
  function Lower(s: string): (r: string)
    ensures |r| == |s|
    ensures forall k :: 0 <= k < |s| ==> r[k] == LowerChar(s[k])
  {
    if s == [] then [] else [LowerChar(s[0])] + Lower(s[1..])
  }

  // ---------------------------------------------------------------------------
  // Decimal rendering of ordinals

  predicate IsDigit(c: char) {
    '0' <= c <= '9'
  }

  function DigitChar(d: nat): (c: char)
    requires d < 10
    ensures IsDigit(c)
  {
    ('0' as int + d) as char
  }

  function DigitValue(c: char): (d: nat)
    requires IsDigit(c)
    ensures d < 10
  {
    c as int - '0' as int
  }

  /** `str(n)` for a non-negative integer: decimal digits, no leading zero. */
  function NatToString(n: nat): (r: string)
    ensures r != []
    ensures forall k :: 0 <= k < |r| ==> IsDigit(r[k])
    ensures r[0] == '0' ==> n == 0
    decreases n
  {
    if n < 10 then [DigitChar(n)] else NatToString(n / 10) + [DigitChar(n % 10)]
  }

  /** The value of a string of decimal digits, most significant first. */
  function DecimalValue(s: string): nat
    requires forall k :: 0 <= k < |s| ==> IsDigit(s[k])
  {
    if s == [] then 0 else 10 * DecimalValue(s[..|s| - 1]) + DigitValue(s[|s| - 1])
  }

  /** Reading back the decimal text of an ordinal gives the ordinal. */
  lemma {:induction false} DecimalRoundTrip(n: nat)
    ensures DecimalValue(NatToString(n)) == n
    decreases n
  {
    var r := NatToString(n);
    if n >= 10 {
      DecimalRoundTrip(n / 10);
      assert r[..|r| - 1] == NatToString(n / 10);
    }
  }

  // ---------------------------------------------------------------------------
  // str.replace, str.split, str.join

  predicate OccursAt(pat: string, s: string, i: int) {
    0 <= i && i + |pat| <= |s| && s[i..i + |pat|] == pat
  }

  /** `pat in s` for strings. */
  predicate Occurs(pat: string, s: string) {
    exists i | 0 <= i <= |s| - |pat| :: OccursAt(pat, s, i)
  }

  /**
   * `s.replace(pat, v)`: scanning left to right, every non-overlapping
   * occurrence of `pat` is replaced by `v`; the replacement text is not
   * scanned again.
   */
  function ReplaceAll(s: string, pat: string, v: string): string
    requires pat != []
    decreases |s|
  {
    if |s| < |pat| then s
    else if s[..|pat|] == pat then v + ReplaceAll(s[|pat|..], pat, v)
    else [s[0]] + ReplaceAll(s[1..], pat, v)
  }

  /** `s.split(pat)`: the pieces between the occurrences `ReplaceAll` finds. */
  function Split(s: string, pat: string): (parts: seq<string>)
    requires pat != []
    ensures parts != []
    decreases |s|
  {
    if |s| < |pat| then [s]
    else if s[..|pat|] == pat then [[]] + Split(s[|pat|..], pat)
    else
      var rest := Split(s[1..], pat);
      [[s[0]] + rest[0]] + rest[1..]
  }

  /** `sep.join(parts)`. */
  function Join(parts: seq<string>, sep: string): string
    decreases |parts|
  {
    if parts == [] then []
    else if |parts| == 1 then parts[0]
    else parts[0] + sep + Join(parts[1..], sep)
  }

  /** Prepending to the first piece prepends to the joined text. */
  lemma JoinConsFirst(c: char, parts: seq<string>, sep: string)
    requires parts != []
    ensures Join([[c] + parts[0]] + parts[1..], sep) == [c] + Join(parts, sep)
  {
    var ps := [[c] + parts[0]] + parts[1..];
    assert ps[1..] == parts[1..];
  }

  /** An empty first piece puts the separator in front of the joined text. */
  lemma JoinConsEmpty(parts: seq<string>, sep: string)
    requires parts != []
    ensures Join([[]] + parts, sep) == sep + Join(parts, sep)
  {
    var ps := [[]] + parts;
    assert ps[1..] == parts;
  }

  /** `s.replace(pat, v) == v.join(s.split(pat))`. */
  lemma {:induction false} ReplaceIsSplitJoin(s: string, pat: string, v: string)
    requires pat != []
    ensures ReplaceAll(s, pat, v) == Join(Split(s, pat), v)
    decreases |s|
  {
    if |s| < |pat| {
    } else if s[..|pat|] == pat {
      ReplaceIsSplitJoin(s[|pat|..], pat, v);
      JoinConsEmpty(Split(s[|pat|..], pat), v);
    } else {
      ReplaceIsSplitJoin(s[1..], pat, v);
      JoinConsFirst(s[0], Split(s[1..], pat), v);
    }
  }

  /** Joining the pieces of a split with the same separator restores the text. */
  lemma {:induction false} SplitJoinRoundTrip(s: string, pat: string)
    requires pat != []
    ensures Join(Split(s, pat), pat) == s
    decreases |s|
  {
    if |s| < |pat| {
    } else if s[..|pat|] == pat {
      var rest := s[|pat|..];
      SplitJoinRoundTrip(rest, pat);
      JoinConsEmpty(Split(rest, pat), pat);
      assert s == pat + rest;
    } else {
      SplitJoinRoundTrip(s[1..], pat);
      JoinConsFirst(s[0], Split(s[1..], pat), pat);
      assert s == [s[0]] + s[1..];
    }
  }

  /** The first piece of a split is a prefix of the text. */
  lemma {:induction false} SplitFirstPrefix(s: string, pat: string)
    requires pat != []
    ensures Split(s, pat)[0] <= s
    decreases |s|
  {
    if |s| >= |pat| && s[..|pat|] != pat {
      SplitFirstPrefix(s[1..], pat);
      assert s == [s[0]] + s[1..];
    }
  }

  /**
   * A separator-free piece that follows the text's first character stays
   * separator-free when that character is put in front, as long as the text
   * does not start with the separator.
   */
  lemma ConsPieceFree(s: string, pat: string, piece: string)
    requires pat != [] && |s| >= |pat| && s[..|pat|] != pat
    requires piece <= s[1..] && !Occurs(pat, piece)
    ensures !Occurs(pat, [s[0]] + piece)
  {
    var first := [s[0]] + piece;
    assert first <= s by {
      assert s == [s[0]] + s[1..];
    }
    forall i | 0 <= i <= |first| - |pat| ensures !OccursAt(pat, first, i) {
      if i == 0 {
        assert first[..|pat|] == s[..|pat|];
      } else {
        assert piece[i - 1..i - 1 + |pat|] == first[i..i + |pat|];
        assert !OccursAt(pat, piece, i - 1);
      }
    }
  }

  /**
   * No piece of a split holds the separator. With `SplitCutsLeftmost`,
   * `Split`, and with it `ReplaceAll`, cuts at every non-overlapping
   * occurrence, leftmost first.
   */
  lemma {:induction false} SplitPiecesFree(s: string, pat: string)
    requires pat != []
    ensures forall j :: 0 <= j < |Split(s, pat)| ==> !Occurs(pat, Split(s, pat)[j])
    decreases |s|
  {
    var parts := Split(s, pat);
    if |s| < |pat| {
      assert parts == [s];
    } else if s[..|pat|] == pat {
      var rest := Split(s[|pat|..], pat);
      SplitPiecesFree(s[|pat|..], pat);
      assert parts == [[]] + rest;
      forall j | 0 <= j < |parts| ensures !Occurs(pat, parts[j]) {
        if j > 0 {
          assert parts[j] == rest[j - 1];
        }
      }
    } else {
      var rest := Split(s[1..], pat);
      SplitPiecesFree(s[1..], pat);
      SplitFirstPrefix(s[1..], pat);
      assert parts == [[s[0]] + rest[0]] + rest[1..];
      ConsPieceFree(s, pat, rest[0]);
      forall j | 0 <= j < |parts| ensures !Occurs(pat, parts[j]) {
        if j > 0 {
          assert parts[j] == rest[j];
        }
      }
    }
  }

  /** Every piece but the last is followed by the separator in the text. */
  lemma {:induction false} SplitCutAt(s: string, pat: string)
    requires pat != []
    ensures |Split(s, pat)| > 1 ==> OccursAt(pat, s, |Split(s, pat)[0]|)
    decreases |s|
  {
    if |s| >= |pat| && s[..|pat|] != pat {
      var rest := Split(s[1..], pat);
      SplitCutAt(s[1..], pat);
      if |rest| > 1 {
        var i := |rest[0]|;
        assert |Split(s, pat)[0]| == i + 1;
        assert s[1..][i..i + |pat|] == s[i + 1..i + 1 + |pat|];
      }
    }
  }

  /** A prefix followed in the text by the separator stays a prefix with all but the separator's last character added. */
  lemma PrefixThenCut(p: string, pat: string, t: string)
    requires pat != [] && p <= t && OccursAt(pat, t, |p|)
    ensures p + pat[..|pat| - 1] <= t
  {
    var u := p + pat[..|pat| - 1];
    forall k | 0 <= k < |u| ensures u[k] == t[k] {
      if k >= |p| {
        assert t[|p|..|p| + |pat|][k - |p|] == t[k];
      }
    }
  }

  /**
   * Each cut is at the leftmost occurrence left: no occurrence of the
   * separator starts inside a piece, even one running into the separator
   * that follows it. For a separator that cannot overlap itself, such as a
   * placeholder, this and `SplitPiecesFree` coincide.
   */
  lemma {:induction false} SplitCutsLeftmost(s: string, pat: string)
    requires pat != []
    ensures forall j :: 0 <= j < |Split(s, pat)| - 1 ==> !Occurs(pat, Split(s, pat)[j] + pat[..|pat| - 1])
    decreases |s|
  {
    var parts := Split(s, pat);
    var tail := pat[..|pat| - 1];
    if |s| < |pat| {
      assert parts == [s];
    } else if s[..|pat|] == pat {
      var rest := Split(s[|pat|..], pat);
      SplitCutsLeftmost(s[|pat|..], pat);
      assert parts == [[]] + rest;
      forall j | 0 <= j < |parts| - 1 ensures !Occurs(pat, parts[j] + tail) {
        if j > 0 {
          assert parts[j] == rest[j - 1];
        }
      }
    } else {
      var rest := Split(s[1..], pat);
      SplitCutsLeftmost(s[1..], pat);
      assert parts == [[s[0]] + rest[0]] + rest[1..];
      if |rest| > 1 {
        SplitFirstPrefix(s[1..], pat);
        SplitCutAt(s[1..], pat);
        PrefixThenCut(rest[0], pat, s[1..]);
        ConsPieceFree(s, pat, rest[0] + tail);
        assert [s[0]] + rest[0] + tail == [s[0]] + (rest[0] + tail);
      }
      forall j | 0 <= j < |parts| - 1 ensures !Occurs(pat, parts[j] + tail) {
        if j > 0 {
          assert parts[j] == rest[j];
        }
      }
    }
  }

  /**
   * An overlapping pattern is cut at its leftmost occurrence and the overlap
   * is not rescanned, as Python's `"aaa".split("aa")` and
   * `"aaa".replace("aa", "X")` give.
   */
  lemma ReplaceOverlapping()
    ensures Split("aaa", "aa") == ["", "a"]
    ensures ReplaceAll("aaa", "aa", "X") == "Xa"
  {
    assert "aaa"[..2] == "aa" && "aaa"[2..] == "a";
    assert Split("a", "aa") == ["a"];
  }

  /** Replacing a text by itself changes nothing. */
  lemma ReplaceSelf(s: string, pat: string)
    requires pat != []
    ensures ReplaceAll(s, pat, pat) == s
  {
    ReplaceIsSplitJoin(s, pat, pat);
    SplitJoinRoundTrip(s, pat);
  }

  /** Text in which `pat` does not occur is left unchanged by the replace. */
  lemma {:induction false} ReplaceAbsent(s: string, pat: string, v: string)
    requires pat != [] && !Occurs(pat, s)
    ensures ReplaceAll(s, pat, v) == s
    decreases |s|
  {
    if |s| < |pat| {
    } else {
      if s[..|pat|] == pat {
        assert OccursAt(pat, s, 0);
      }
      assert !Occurs(pat, s[1..]) by {
        forall i | OccursAt(pat, s[1..], i) ensures false {
          assert s[1..][i..i + |pat|] == s[i + 1..i + 1 + |pat|];
          assert OccursAt(pat, s, i + 1);
        }
      }
      ReplaceAbsent(s[1..], pat, v);
    }
  }

  /** A pattern holding a character the text lacks does not occur in the text. */
  lemma NotOccursByChar(pat: string, s: string, c: char)
    requires c in pat && c !in s
    ensures !Occurs(pat, s)
  {
  }
}
