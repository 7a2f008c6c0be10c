/**
 * The checks the upload handler makes before any document is produced: the
 * number of preview rows, and which required columns the sheet lacks.
 */
module Gating {
  import opened Wrappers
  import opened Text

  /** The preview size used when the form gives none that can be used. */
  const DefaultPreviewCount: int := 5

  /**
   * `preview_count`: the stripped form value parsed as an integer
   * (`parseInt` stands for `int()`, `None` when it raises), replaced by 5
   * when it does not parse or is below 1.
   */
  function PreviewCount(raw: string, parseInt: string -> Option<int>): (n: int)
    ensures n >= 1
    ensures parseInt(Strip(raw)).Some? && parseInt(Strip(raw)).value >= 1 ==> n == parseInt(Strip(raw)).value
    ensures !(parseInt(Strip(raw)).Some? && parseInt(Strip(raw)).value >= 1) ==> n == DefaultPreviewCount
  {
    match parseInt(Strip(raw))
    case Some(v) => if v < 1 then DefaultPreviewCount else v
    case None => DefaultPreviewCount
  }

  /** A count the handler produced is kept as it is when submitted again. */
  lemma PreviewCountStable(raw: string, parseInt: string -> Option<int>, again: string)
    requires parseInt(Strip(again)) == Some(PreviewCount(raw, parseInt))
    ensures PreviewCount(again, parseInt) == PreviewCount(raw, parseInt)
  {
  }

  /** The columns every sheet must have, in the order the message lists them. */
  const RequiredColumns: seq<string> := ["emp_name", "city", "state", "joining_date", "address", "gender"]

  /** `a` is `b` with some elements left out, the rest kept in order. */
  predicate IsSubsequence<T(==)>(a: seq<T>, b: seq<T>)
    decreases |b|
  {
    if a == [] then true
    else if b == [] then false
    else if a[0] == b[0] then IsSubsequence(a[1..], b[1..])
    else IsSubsequence(a, b[1..])
  }

  /** `[c for c in required if c not in header]`. */
  function Missing(required: seq<string>, header: seq<string>): (m: seq<string>)
    ensures forall c :: c in m <==> c in required && c !in header
    ensures IsSubsequence(m, required)
    ensures |m| <= |required|
    ensures forall c :: multiset(m)[c] == if c in header then 0 else multiset(required)[c]
    decreases |required|
  {
    if required == [] then []
    else
      var rest := Missing(required[1..], header);
      assert forall c :: c in required <==> c == required[0] || c in required[1..];
      assert required == [required[0]] + required[1..];
      if required[0] in header then rest else [required[0]] + rest
  }

  /** No column is missing exactly when the header has every required column. */
  lemma NothingMissing(required: seq<string>, header: seq<string>)
    ensures Missing(required, header) == [] <==> forall c :: c in required ==> c in header
  {
    var m := Missing(required, header);
    if m != [] {
      assert m[0] in m;
    }
  }

  /** Only which required columns the header has matters: columns beyond them, and the header's order, make no difference. */
  lemma {:induction false} MissingDependsOnMembership(required: seq<string>, header: seq<string>, other: seq<string>)
    requires forall c :: c in required ==> (c in header <==> c in other)
    ensures Missing(required, header) == Missing(required, other)
    decreases |required|
  {
    if required != [] {
      assert forall c :: c in required[1..] ==> c in required;
      MissingDependsOnMembership(required[1..], header, other);
    }
  }

  /** The flash text of the missing-columns check. */
  function MissingMessage(missing: seq<string>): string {
    "Missing required Excel columns: " + Join(missing, ", ")
  }

  /** Among distinct required columns, a header lacking just one of them is told exactly that one. */
  lemma {:induction false} MissingExactlyOne(required: seq<string>, header: seq<string>, c: string)
    requires forall i, j :: 0 <= i < j < |required| ==> required[i] != required[j]
    requires c in required && c !in header
    requires forall d :: d in required && d != c ==> d in header
    ensures Missing(required, header) == [c]
    decreases |required|
  {
    if required[0] == c {
      assert c !in required[1..] by {
        forall k | 0 <= k < |required[1..]| ensures required[1..][k] != c {
          assert required[1..][k] == required[k + 1];
        }
      }
      NothingMissing(required[1..], header);
    } else {
      MissingExactlyOne(required[1..], header, c);
    }
  }

  /** The required columns are distinct, so a sheet lacking one of them is told exactly that one. */
  lemma MissingOneRequired(header: seq<string>, c: string)
    requires c in RequiredColumns && c !in header
    requires forall d :: d in RequiredColumns && d != c ==> d in header
    ensures Missing(RequiredColumns, header) == [c]
  {
    assert forall i, j :: 0 <= i < j < |RequiredColumns| ==> RequiredColumns[i][0] != RequiredColumns[j][0];
    MissingExactlyOne(RequiredColumns, header, c);
  }
}
