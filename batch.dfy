/**
 * The two loops of the upload handler: the preview of the first filenames,
 * and the generation of one DOCX and one PDF per row into two scratch
 * folders, with a status report, packed into one archive at the end.
 *
 * The calls into the template engine and the converter are not modelled;
 * what each of them did for a row (returned, or raised with a message) is an
 * input, one `Attempt` per row.
 */
module Batch {
  import opened Wrappers
  import opened Text
  import opened Sanitizer
  import opened Filenames
  import opened Rows

  function Min(a: int, b: int): (m: int)
    ensures m <= a && m <= b && (m == a || m == b)
  {
    if a <= b then a else b
  }

  function Max(a: int, b: int): (m: int)
    ensures m >= a && m >= b && (m == a || m == b)
  {
    if a <= b then b else a
  }

  /**
   * What the loops compute from a row by calls out of them: the base name
   * `render_filename(template, row, i)` of the row with ordinal `i`, and the
   * context the document template is rendered with.
   */
  datatype Renderer = Renderer(baseName: (Row, nat) -> string, context: Row -> Context)

  /** `str(row.get("emp_name", "")).strip()`: the name shown in the preview and the report. */
  function EmpName(row: Row): string {
    Strip(Cell(row, "emp_name"))
  }

  // ---------------------------------------------------------------------------
  // Preview

  /** One row of the preview table: its ordinal, the stripped name and the file it would get. */
  datatype PreviewRow = PreviewRow(index: nat, empName: string, filename: string)

  function PreviewEntry(rn: Renderer, row: Row, i: nat): PreviewRow {
    PreviewRow(i, EmpName(row), rn.baseName(row, i) + ".docx")
  }

  /** The preview of the first `n` rows. */
  function PreviewRows(rn: Renderer, rows: seq<Row>, n: nat): (out: seq<PreviewRow>)
    requires n <= |rows|
    ensures |out| == n
  {
    if n == 0 then [] else PreviewRows(rn, rows, n - 1) + [PreviewEntry(rn, rows[n - 1], n)]
  }

  /** Entry `k` of the preview is row `k` under ordinal `k + 1`. */
  lemma {:induction false} PreviewRowsAt(rn: Renderer, rows: seq<Row>, n: nat, k: nat)
    requires k < n <= |rows|
    ensures PreviewRows(rn, rows, n)[k] == PreviewEntry(rn, rows[k], k + 1)
    decreases n
  {
    var before := PreviewRows(rn, rows, n - 1);
    assert PreviewRows(rn, rows, n) == before + [PreviewEntry(rn, rows[n - 1], n)];
    if k < n - 1 {
      PreviewRowsAt(rn, rows, n - 1, k);
      assert (before + [PreviewEntry(rn, rows[n - 1], n)])[k] == before[k];
    }
  }

  /**
   * The preview loop: rows are appended from ordinal 1 and the loop stops
   * right after appending ordinal `count`, so the preview holds the first
   * `count` rows, or all of them when the sheet is shorter. A row is always
   * appended before the test, so a count below 1 still previews one row.
   */
  method Preview(rn: Renderer, rows: seq<Row>, count: int)
    returns (out: seq<PreviewRow>)
    ensures |out| == Min(Max(count, 1), |rows|)
    ensures out == PreviewRows(rn, rows, |out|)
  {
    out := [];
    var i := 0;
    while i < |rows|
      invariant 0 <= i <= |rows|
      invariant i == 0 || i < count
      invariant out == PreviewRows(rn, rows, i)
    {
      out := out + [PreviewEntry(rn, rows[i], i + 1)];
      i := i + 1;
      if i >= count {
        break;
      }
    }
  }

  // ---------------------------------------------------------------------------
  // Outcomes of one row

  /** What one call did: returned, or raised an exception whose text is `message`. */
  datatype Step = Done | Raised(message: string)

  /** The three calls made for a row, in order: `doc.render`, `doc.save`, `convert`. */
  datatype Attempt = Attempt(render: Step, save: Step, convert: Step)

  /** All three calls returned. */
  predicate Succeeded(a: Attempt) {
    a.render.Done? && a.save.Done? && a.convert.Done?
  }

  /**
   * The report status: "Success" when every call returned, otherwise
   * "Error: " and the message of the first call that raised (later calls are
   * not made).
   */
  function ErrorStatus(message: string): (s: string)
    ensures s != "Success"
  {
    var s := "Error: " + message;
    assert s[0] == 'E';
    s
  }

  function Status(a: Attempt): (s: string)
    ensures s == "Success" <==> Succeeded(a)
    ensures a.render.Raised? ==> s == ErrorStatus(a.render.message)
    ensures a.render.Done? && a.save.Raised? ==> s == ErrorStatus(a.save.message)
    ensures a.render.Done? && a.save.Done? && a.convert.Raised? ==> s == ErrorStatus(a.convert.message)
  {
    if a.render.Raised? then ErrorStatus(a.render.message)
    else if a.save.Raised? then ErrorStatus(a.save.message)
    else if a.convert.Raised? then ErrorStatus(a.convert.message)
    else "Success"
  }

  /** One line of the report sheet. */
  datatype ReportEntry = ReportEntry(empName: string, filename: string, status: string)

  function EntryOf(rn: Renderer, row: Row, i: nat, a: Attempt): ReportEntry {
    ReportEntry(EmpName(row), rn.baseName(row, i), Status(a))
  }

  /** The report: one line per row, in row order. */
  function Report(rn: Renderer, rows: seq<Row>, attempts: seq<Attempt>)
    : (report: seq<ReportEntry>)
    requires |attempts| == |rows|
    ensures |report| == |rows|
    decreases |rows|
  {
    if rows == [] then []
    else
      var n := |rows|;
      Report(rn, rows[..n - 1], attempts[..n - 1]) + [EntryOf(rn, rows[n - 1], n, attempts[n - 1])]
  }

  /** Line `k` of the report describes row `k` under ordinal `k + 1`. */
  lemma {:induction false} ReportAt(rn: Renderer, rows: seq<Row>, attempts: seq<Attempt>, k: nat)
    requires |attempts| == |rows| && k < |rows|
    ensures Report(rn, rows, attempts)[k] == EntryOf(rn, rows[k], k + 1, attempts[k])
    decreases |rows|
  {
    var n := |rows|;
    var before := Report(rn, rows[..n - 1], attempts[..n - 1]);
    assert Report(rn, rows, attempts) == before + [EntryOf(rn, rows[n - 1], n, attempts[n - 1])];
    if k < n - 1 {
      ReportAt(rn, rows[..n - 1], attempts[..n - 1], k);
      assert rows[..n - 1][k] == rows[k] && attempts[..n - 1][k] == attempts[k];
    }
  }

  // ---------------------------------------------------------------------------
  // The scratch folders

  /** A file written to a scratch folder: the row ordinal it came from, and the context rendered into it. */
  datatype Document = Document(row: nat, context: Context)

  /**
   * The two scratch folders. A row's DOCX is written once render and save
   * returned (a failing conversion keeps it); its PDF only when the
   * conversion returned too.
   */
  datatype Folder = DocxFolder | PdfFolder {
    function Ext(): string {
      match this
      case DocxFolder => ".docx"
      case PdfFolder => ".pdf"
    }

    predicate Writes(a: Attempt) {
      match this
      case DocxFolder => a.render.Done? && a.save.Done?
      case PdfFolder => Succeeded(a)
    }
  }

  function FileName(rn: Renderer, row: Row, i: nat, folder: Folder): string {
    rn.baseName(row, i) + folder.Ext()
  }

  /** The folder after row `i`: its file is put under its name when the row writes to the folder. */
  function Put(files: map<string, Document>, folder: Folder, rn: Renderer, row: Row, i: nat, a: Attempt): map<string, Document>
  {
    if folder.Writes(a) then files[FileName(rn, row, i, folder) := Document(i, rn.context(row))] else files
  }

  /** `Put` for a row that writes to the folder. */
  lemma PutWritten(files: map<string, Document>, folder: Folder, rn: Renderer, row: Row, i: nat, a: Attempt)
    requires folder.Writes(a)
    ensures Put(files, folder, rn, row, i, a) == files[FileName(rn, row, i, folder) := Document(i, rn.context(row))]
  {
  }

  /** `Put` for a row that does not write to the folder. */
  lemma PutSkipped(files: map<string, Document>, folder: Folder, rn: Renderer, row: Row, i: nat, a: Attempt)
    requires !folder.Writes(a)
    ensures Put(files, folder, rn, row, i, a) == files
  {
  }

  /**
   * A scratch folder after the given rows: each row that writes to it puts
   * its file under its rendered name, replacing what an earlier row wrote
   * there.
   */
  function Scratch(rn: Renderer, rows: seq<Row>, attempts: seq<Attempt>, folder: Folder)
    : map<string, Document>
    requires |attempts| == |rows|
    decreases |rows|
  {
    if rows == [] then map[]
    else
      var n := |rows|;
      Put(Scratch(rn, rows[..n - 1], attempts[..n - 1], folder), folder, rn, rows[n - 1], n, attempts[n - 1])
  }

  /** Number of rows that write to the folder. */
  function Count(attempts: seq<Attempt>, folder: Folder): (c: nat)
    ensures c <= |attempts|
    decreases |attempts|
  {
    if attempts == [] then 0
    else Count(attempts[..|attempts| - 1], folder) + (if folder.Writes(attempts[|attempts| - 1]) then 1 else 0)
  }

  /** `success_count`: the rows whose three calls all returned. */
  function SuccessCount(attempts: seq<Attempt>): nat {
    Count(attempts, PdfFolder)
  }

  /** One more row, for the folders. */
  lemma ScratchStep(rn: Renderer, rows: seq<Row>, attempts: seq<Attempt>, folder: Folder, i: nat)
    requires i < |rows| == |attempts|
    ensures Scratch(rn, rows[..i + 1], attempts[..i + 1], folder)
         == Put(Scratch(rn, rows[..i], attempts[..i], folder), folder, rn, rows[i], i + 1, attempts[i])
  {
    assert rows[..i + 1][..i] == rows[..i];
    assert attempts[..i + 1][..i] == attempts[..i];
  }

  /** One more row, for the counts. */
  lemma CountStep(attempts: seq<Attempt>, folder: Folder, i: nat)
    requires i < |attempts|
    ensures Count(attempts[..i + 1], folder) == Count(attempts[..i], folder) + if folder.Writes(attempts[i]) then 1 else 0
  {
    assert attempts[..i + 1][..i] == attempts[..i];
  }

  /** One more row, for the report. */
  lemma ReportStep(rn: Renderer, rows: seq<Row>, attempts: seq<Attempt>, i: nat)
    requires i < |rows| == |attempts|
    ensures Report(rn, rows[..i + 1], attempts[..i + 1])
         == Report(rn, rows[..i], attempts[..i]) + [EntryOf(rn, rows[i], i + 1, attempts[i])]
  {
    assert rows[..i + 1][..i] == rows[..i];
    assert attempts[..i + 1][..i] == attempts[..i];
  }

  /** Row `k` (ordinal `k + 1`) writes its file into the folder. */
  ghost predicate WroteAs(rn: Renderer, rows: seq<Row>, attempts: seq<Attempt>, folder: Folder, k: int, f: string)
    requires |attempts| == |rows|
  {
    0 <= k < |rows| && folder.Writes(attempts[k]) && FileName(rn, rows[k], k + 1, folder) == f
  }

  /** What the first `m` rows wrote is what the rows before ordinal `m + 1` wrote. */
  lemma WroteBefore(rn: Renderer, rows: seq<Row>, attempts: seq<Attempt>, folder: Folder, m: nat, k: int, f: string)
    requires |attempts| == |rows| && m <= |rows|
    ensures WroteAs(rn, rows[..m], attempts[..m], folder, k, f) <==> k < m && WroteAs(rn, rows, attempts, folder, k, f)
  {
  }

  /** A folder holds a file exactly when some row that writes to the folder has that name. */
  lemma {:induction false} ScratchHolds(rn: Renderer, rows: seq<Row>, attempts: seq<Attempt>, folder: Folder, f: string)
    requires |attempts| == |rows|
    ensures f in Scratch(rn, rows, attempts, folder) <==> exists k :: WroteAs(rn, rows, attempts, folder, k, f)
    decreases |rows|
  {
    if rows != [] {
      var n := |rows|;
      var r', a' := rows[..n - 1], attempts[..n - 1];
      ScratchHolds(rn, r', a', folder, f);
      if k :| WroteAs(rn, r', a', folder, k, f) {
        WroteBefore(rn, rows, attempts, folder, n - 1, k, f);
      }
      if k :| WroteAs(rn, rows, attempts, folder, k, f) {
        WroteBefore(rn, rows, attempts, folder, n - 1, k, f);
      }
      if folder.Writes(attempts[n - 1]) && FileName(rn, rows[n - 1], n, folder) == f {
        assert WroteAs(rn, rows, attempts, folder, n - 1, f);
      }
    }
  }

  /**
   * The file a folder holds under a name is the one the last row with that
   * name wrote: it carries that row's ordinal and that row's context, and no
   * later row writes the same name.
   */
  lemma {:induction false} ScratchLastWriter(rn: Renderer, rows: seq<Row>, attempts: seq<Attempt>, folder: Folder, f: string)
    requires |attempts| == |rows|
    requires f in Scratch(rn, rows, attempts, folder)
    ensures var d := Scratch(rn, rows, attempts, folder)[f];
      && 1 <= d.row <= |rows|
      && WroteAs(rn, rows, attempts, folder, d.row - 1, f)
      && d.context == rn.context(rows[d.row - 1])
      && forall j :: d.row <= j < |rows| ==> !WroteAs(rn, rows, attempts, folder, j, f)
    decreases |rows|
  {
    var n := |rows|;
    var r', a' := rows[..n - 1], attempts[..n - 1];
    if !(folder.Writes(attempts[n - 1]) && FileName(rn, rows[n - 1], n, folder) == f) {
      ScratchLastWriter(rn, r', a', folder, f);
      var d := Scratch(rn, r', a', folder)[f];
      WroteBefore(rn, rows, attempts, folder, n - 1, d.row - 1, f);
      forall j | d.row <= j < n ensures !WroteAs(rn, rows, attempts, folder, j, f) {
        WroteBefore(rn, rows, attempts, folder, n - 1, j, f);
      }
    }
  }

  /** A folder holds at most one file per row that writes to it. */
  lemma {:induction false} ScratchSize(rn: Renderer, rows: seq<Row>, attempts: seq<Attempt>, folder: Folder)
    requires |attempts| == |rows|
    ensures |Scratch(rn, rows, attempts, folder)| <= Count(attempts, folder)
    decreases |rows|
  {
    if rows != [] {
      var n := |rows|;
      ScratchSize(rn, rows[..n - 1], attempts[..n - 1], folder);
    }
  }

  /** The writing rows all have different names. */
  ghost predicate DistinctNames(rn: Renderer, rows: seq<Row>, attempts: seq<Attempt>, folder: Folder)
    requires |attempts| == |rows|
  {
    forall j, k, f :: j < k && WroteAs(rn, rows, attempts, folder, j, f) ==> !WroteAs(rn, rows, attempts, folder, k, f)
  }

  /** When the writing rows all have different names, no file is lost: one file per writing row. */
  lemma {:induction false} ScratchDistinctNames(rn: Renderer, rows: seq<Row>, attempts: seq<Attempt>, folder: Folder)
    requires |attempts| == |rows|
    requires DistinctNames(rn, rows, attempts, folder)
    ensures |Scratch(rn, rows, attempts, folder)| == Count(attempts, folder)
    decreases |rows|
  {
    if rows != [] {
      var n := |rows|;
      var r', a' := rows[..n - 1], attempts[..n - 1];
      forall j, k, f | j < k && WroteAs(rn, r', a', folder, j, f) ensures !WroteAs(rn, r', a', folder, k, f) {
        WroteBefore(rn, rows, attempts, folder, n - 1, j, f);
        WroteBefore(rn, rows, attempts, folder, n - 1, k, f);
      }
      ScratchDistinctNames(rn, r', a', folder);
      if folder.Writes(attempts[n - 1]) {
        var f := FileName(rn, rows[n - 1], n, folder);
        ScratchHolds(rn, r', a', folder, f);
        if k :| WroteAs(rn, r', a', folder, k, f) {
          WroteBefore(rn, rows, attempts, folder, n - 1, k, f);
          assert WroteAs(rn, rows, attempts, folder, n - 1, f);
          assert false;
        }
      }
    }
  }

  /** When two writing rows share a name, the later file replaces the earlier one and the folder holds fewer files than writing rows. */
  lemma {:induction false} ScratchCollision(rn: Renderer, rows: seq<Row>, attempts: seq<Attempt>, folder: Folder, j: int, k: int, f: string)
    requires |attempts| == |rows|
    requires j < k && WroteAs(rn, rows, attempts, folder, j, f) && WroteAs(rn, rows, attempts, folder, k, f)
    ensures |Scratch(rn, rows, attempts, folder)| < Count(attempts, folder)
    decreases |rows|
  {
    var n := |rows|;
    var r', a' := rows[..n - 1], attempts[..n - 1];
    WroteBefore(rn, rows, attempts, folder, n - 1, j, f);
    if k == n - 1 {
      ScratchHolds(rn, r', a', folder, f);
      ScratchSize(rn, r', a', folder);
    } else {
      WroteBefore(rn, rows, attempts, folder, n - 1, k, f);
      ScratchCollision(rn, r', a', folder, j, k, f);
    }
  }

  /** Member names with one extension name different files. */
  lemma SuffixCancels(f: string, g: string, x: string)
    requires f + x == g + x
    ensures f == g
  {
    assert f == (f + x)[..|f|];
    assert g == (g + x)[..|g|];
  }

  /** No row after row `k` that writes to the folder has row `k`'s base name, so nothing overwrites row `k`'s file. */
  ghost predicate LastWithName(rn: Renderer, rows: seq<Row>, attempts: seq<Attempt>, folder: Folder, k: int)
    requires |attempts| == |rows|
  {
    0 <= k < |rows| && forall j :: k < j < |rows| && folder.Writes(attempts[j]) ==> rn.baseName(rows[j], j + 1) != rn.baseName(rows[k], k + 1)
  }

  /** A row that writes to the folder, and whose name no later writing row shares, has its own file there: its ordinal and its context. */
  lemma ScratchHoldsOwn(rn: Renderer, rows: seq<Row>, attempts: seq<Attempt>, folder: Folder, k: int)
    requires |attempts| == |rows|
    requires LastWithName(rn, rows, attempts, folder, k) && folder.Writes(attempts[k])
    ensures FileName(rn, rows[k], k + 1, folder) in Scratch(rn, rows, attempts, folder)
    ensures Scratch(rn, rows, attempts, folder)[FileName(rn, rows[k], k + 1, folder)] == Document(k + 1, rn.context(rows[k]))
  {
    var f := FileName(rn, rows[k], k + 1, folder);
    assert WroteAs(rn, rows, attempts, folder, k, f);
    ScratchHolds(rn, rows, attempts, folder, f);
    ScratchLastWriter(rn, rows, attempts, folder, f);
    var d := Scratch(rn, rows, attempts, folder)[f];
    var j := d.row - 1;
    if j > k {
      SuffixCancels(rn.baseName(rows[j], j + 1), rn.baseName(rows[k], k + 1), folder.Ext());
    }
    assert j == k;
  }

  /** Nothing later overwrites a DOCX, so nothing later overwrites the PDF beside it either. */
  lemma LastWithNamePdf(rn: Renderer, rows: seq<Row>, attempts: seq<Attempt>, k: int)
    requires |attempts| == |rows| && LastWithName(rn, rows, attempts, DocxFolder, k)
    ensures LastWithName(rn, rows, attempts, PdfFolder, k)
  {
  }

  /**
   * A row with a PDF also has its DOCX: the PDF folder never holds a name the
   * DOCX folder lacks. When no later row that saved a DOCX shares the row's
   * name, both files are the row's own.
   */
  lemma PdfHasDocx(rn: Renderer, rows: seq<Row>, attempts: seq<Attempt>, k: int)
    requires |attempts| == |rows|
    requires 0 <= k < |rows| && Succeeded(attempts[k])
    ensures FileName(rn, rows[k], k + 1, PdfFolder) in Scratch(rn, rows, attempts, PdfFolder)
    ensures FileName(rn, rows[k], k + 1, DocxFolder) in Scratch(rn, rows, attempts, DocxFolder)
    ensures LastWithName(rn, rows, attempts, DocxFolder, k) ==>
      && Scratch(rn, rows, attempts, DocxFolder)[FileName(rn, rows[k], k + 1, DocxFolder)] == Document(k + 1, rn.context(rows[k]))
      && Scratch(rn, rows, attempts, PdfFolder)[FileName(rn, rows[k], k + 1, PdfFolder)] == Document(k + 1, rn.context(rows[k]))
  {
    assert WroteAs(rn, rows, attempts, PdfFolder, k, FileName(rn, rows[k], k + 1, PdfFolder));
    assert WroteAs(rn, rows, attempts, DocxFolder, k, FileName(rn, rows[k], k + 1, DocxFolder));
    ScratchHolds(rn, rows, attempts, PdfFolder, FileName(rn, rows[k], k + 1, PdfFolder));
    ScratchHolds(rn, rows, attempts, DocxFolder, FileName(rn, rows[k], k + 1, DocxFolder));
    if LastWithName(rn, rows, attempts, DocxFolder, k) {
      ScratchHoldsOwn(rn, rows, attempts, DocxFolder, k);
      LastWithNamePdf(rn, rows, attempts, k);
      ScratchHoldsOwn(rn, rows, attempts, PdfFolder, k);
    }
  }

  /**
   * A row whose conversion raised still has its DOCX written, and its report
   * line is an error. When no later row that saved a DOCX shares its name,
   * that DOCX is the row's own.
   */
  lemma ConvertFailureKeepsDocx(rn: Renderer, rows: seq<Row>, attempts: seq<Attempt>, k: int)
    requires |attempts| == |rows|
    requires 0 <= k < |rows| && attempts[k].render.Done? && attempts[k].save.Done? && attempts[k].convert.Raised?
    ensures FileName(rn, rows[k], k + 1, DocxFolder) in Scratch(rn, rows, attempts, DocxFolder)
    ensures LastWithName(rn, rows, attempts, DocxFolder, k) ==>
      Scratch(rn, rows, attempts, DocxFolder)[FileName(rn, rows[k], k + 1, DocxFolder)] == Document(k + 1, rn.context(rows[k]))
    ensures Report(rn, rows, attempts)[k].status == ErrorStatus(attempts[k].convert.message)
  {
    assert WroteAs(rn, rows, attempts, DocxFolder, k, FileName(rn, rows[k], k + 1, DocxFolder));
    ScratchHolds(rn, rows, attempts, DocxFolder, FileName(rn, rows[k], k + 1, DocxFolder));
    if LastWithName(rn, rows, attempts, DocxFolder, k) {
      ScratchHoldsOwn(rn, rows, attempts, DocxFolder, k);
    }
    ReportAt(rn, rows, attempts, k);
  }

  /** There are never more PDF rows than DOCX rows. */
  lemma {:induction false} PdfCountBelowDocx(attempts: seq<Attempt>)
    ensures Count(attempts, PdfFolder) <= Count(attempts, DocxFolder)
    decreases |attempts|
  {
    if attempts != [] {
      PdfCountBelowDocx(attempts[..|attempts| - 1]);
    }
  }

  /** Number of report lines whose status is "Success". */
  function SuccessLines(report: seq<ReportEntry>): (c: nat)
    ensures c <= |report|
    decreases |report|
  {
    if report == [] then 0
    else SuccessLines(report[..|report| - 1]) + (if report[|report| - 1].status == "Success" then 1 else 0)
  }

  /** The success count agrees with the report: it is the number of lines marked "Success". */
  lemma {:induction false} SuccessCountIsReported(rn: Renderer, rows: seq<Row>, attempts: seq<Attempt>)
    requires |attempts| == |rows|
    ensures SuccessLines(Report(rn, rows, attempts)) == SuccessCount(attempts)
    decreases |rows|
  {
    if rows != [] {
      var n := |rows|;
      var r := Report(rn, rows, attempts);
      assert r[..n - 1] == Report(rn, rows[..n - 1], attempts[..n - 1]);
      SuccessCountIsReported(rn, rows[..n - 1], attempts[..n - 1]);
    }
  }

  /** Every row counts as a success exactly when every row's three calls returned; none does exactly when all failed. */
  lemma {:induction false} SuccessCountExtremes(attempts: seq<Attempt>)
    ensures SuccessCount(attempts) == |attempts| <==> forall k :: 0 <= k < |attempts| ==> Succeeded(attempts[k])
    ensures SuccessCount(attempts) == 0 <==> forall k :: 0 <= k < |attempts| ==> !Succeeded(attempts[k])
    decreases |attempts|
  {
    if attempts != [] {
      var n := |attempts|;
      SuccessCountExtremes(attempts[..n - 1]);
      assert forall k :: 0 <= k < n - 1 ==> attempts[..n - 1][k] == attempts[k];
    }
  }

  /**
   * The preview and the report agree: entry `k` of a preview names the same
   * employee as line `k` of the report, and its file is the report's
   * filename with ".docx".
   */
  lemma PreviewMatchesReport(rn: Renderer, rows: seq<Row>, attempts: seq<Attempt>, n: nat, k: nat)
    requires |attempts| == |rows| && k < n <= |rows|
    ensures var p, r := PreviewRows(rn, rows, n)[k], Report(rn, rows, attempts)[k];
      p.index == k + 1 && p.empName == r.empName && p.filename == r.filename + ".docx"
  {
    PreviewRowsAt(rn, rows, n, k);
    ReportAt(rn, rows, attempts, k);
  }

  // ---------------------------------------------------------------------------
  // The generation loop

  /**
   * The body of the generation loop for the row with ordinal `i`: render and
   * save the DOCX, convert it to PDF, catch whatever either raises, count
   * the row as a success or an error, and make its report line.
   */
  method GenerateRow(rn: Renderer, row: Row, i: nat, a: Attempt,
                     success: nat, error: nat, docx: map<string, Document>, pdf: map<string, Document>)
    returns (success': nat, error': nat, entry: ReportEntry, docx': map<string, Document>, pdf': map<string, Document>)
    ensures success' == success + (if Succeeded(a) then 1 else 0)
    ensures error' == error + (if Succeeded(a) then 0 else 1)
    ensures entry == EntryOf(rn, row, i, a)
    ensures docx' == Put(docx, DocxFolder, rn, row, i, a)
    ensures pdf' == Put(pdf, PdfFolder, rn, row, i, a)
  {
    var empName := EmpName(row);
    var context := rn.context(row);
    var name := rn.baseName(row, i);
    var status: string;
    success', error', docx', pdf' := success, error, docx, pdf;
    if a.render.Raised? {
      status := ErrorStatus(a.render.message);
      error' := error + 1;
      PutSkipped(docx, DocxFolder, rn, row, i, a);
      PutSkipped(pdf, PdfFolder, rn, row, i, a);
    } else if a.save.Raised? {
      status := ErrorStatus(a.save.message);
      error' := error + 1;
      PutSkipped(docx, DocxFolder, rn, row, i, a);
      PutSkipped(pdf, PdfFolder, rn, row, i, a);
    } else {
      docx' := docx[FileName(rn, row, i, DocxFolder) := Document(i, context)];
      PutWritten(docx, DocxFolder, rn, row, i, a);
      if a.convert.Raised? {
        status := ErrorStatus(a.convert.message);
        error' := error + 1;
        PutSkipped(pdf, PdfFolder, rn, row, i, a);
      } else {
        pdf' := pdf[FileName(rn, row, i, PdfFolder) := Document(i, context)];
        status := "Success";
        success' := success + 1;
        PutWritten(pdf, PdfFolder, rn, row, i, a);
      }
    }
    entry := ReportEntry(empName, name, status);
  }

  /**
   * The generation loop over the rows, ordinals from 1: it counts successes
   * and errors, fills the two scratch folders and appends one report line
   * per row.
   */
  method Generate(rn: Renderer, rows: seq<Row>, attempts: seq<Attempt>)
    returns (success: nat, error: nat, report: seq<ReportEntry>, docx: map<string, Document>, pdf: map<string, Document>)
    requires |attempts| == |rows|
    ensures success == SuccessCount(attempts)
    ensures success + error == |rows|
    ensures report == Report(rn, rows, attempts)
    ensures docx == Scratch(rn, rows, attempts, DocxFolder)
    ensures pdf == Scratch(rn, rows, attempts, PdfFolder)
  {
    success, error, report, docx, pdf := 0, 0, [], map[], map[];
    var i := 0;
    while i < |rows|
      invariant 0 <= i <= |rows|
      invariant success == SuccessCount(attempts[..i])
      invariant success + error == i
      invariant report == Report(rn, rows[..i], attempts[..i])
      invariant docx == Scratch(rn, rows[..i], attempts[..i], DocxFolder)
      invariant pdf == Scratch(rn, rows[..i], attempts[..i], PdfFolder)
    {
      var entry;
      success, error, entry, docx, pdf := GenerateRow(rn, rows[i], i + 1, attempts[i], success, error, docx, pdf);
      report := report + [entry];
      ScratchStep(rn, rows, attempts, DocxFolder, i);
      ScratchStep(rn, rows, attempts, PdfFolder, i);
      CountStep(attempts, PdfFolder, i);
      ReportStep(rn, rows, attempts, i);
      i := i + 1;
    }
    assert rows[..|rows|] == rows;
    assert attempts[..|attempts|] == attempts;
  }

  // ---------------------------------------------------------------------------
  // The archive

  /** An archive member: a file of one of the folders, or the report sheet. */
  datatype Entry = FolderFile(folder: Folder, doc: Document) | ReportSheet(lines: seq<ReportEntry>)

  type Archive = map<string, Entry>

  const ReportName: string := "NDA_Report.xlsx"

  /** The directory a folder's files are stored under in the archive. */
  function Prefix(folder: Folder): string {
    match folder
    case DocxFolder => "DOCX/"
    case PdfFolder => "PDF/"
  }

  /** Member `e` lies in the archive directory of `folder`. */
  predicate Under(folder: Folder, e: string) {
    |Prefix(folder)| <= |e| && e[..|Prefix(folder)|] == Prefix(folder)
  }

  /**
   * `zip` holds `DOCX/<f>` for every file of the DOCX folder, `PDF/<f>` for
   * every file of the PDF folder and the report sheet, and nothing else.
   */
  ghost predicate IsArchiveOf(zip: Archive, docx: map<string, Document>, pdf: map<string, Document>, report: seq<ReportEntry>) {
    && (forall e :: e in zip <==> e == ReportName || InFolder(e, DocxFolder, docx) || InFolder(e, PdfFolder, pdf))
    && Holds(zip, DocxFolder, docx)
    && Holds(zip, PdfFolder, pdf)
    && ReportName in zip && zip[ReportName] == ReportSheet(report)
  }

  /** Member `e` is the directory of `folder` followed by the name of one of its files. */
  ghost predicate InFolder(e: string, folder: Folder, files: map<string, Document>) {
    exists f :: f in files && e == Prefix(folder) + f
  }

  /** Every file of the folder is in the archive under the folder's directory. */
  ghost predicate Holds(zip: Archive, folder: Folder, files: map<string, Document>) {
    forall f :: f in files ==> Prefix(folder) + f in zip && zip[Prefix(folder) + f] == FolderFile(folder, files[f])
  }

  /** Member names under one prefix name different files. */
  lemma PrefixCancels(p: string, f: string, g: string)
    requires p + f == p + g
    ensures f == g
  {
    assert f == (p + f)[|p|..];
    assert g == (p + g)[|p|..];
  }

  /** The two directories and the report name are apart. */
  lemma DirectoriesApart(f: string)
    ensures Under(DocxFolder, "DOCX/" + f) && !Under(PdfFolder, "DOCX/" + f)
    ensures Under(PdfFolder, "PDF/" + f) && !Under(DocxFolder, "PDF/" + f)
    ensures "DOCX/" + f != ReportName && "PDF/" + f != ReportName
  {
    assert ("DOCX/" + f)[..5] == "DOCX/";
    assert ("PDF/" + f)[..4] == "PDF/";
    assert ("DOCX/" + f)[0] == 'D' && ("PDF/" + f)[0] == 'P' && ReportName[0] == 'N';
  }

  /**
   * `for f in os.listdir(dir): zipf.write(..., prefix + f)`: every file of the
   * folder is added under the folder's directory, in whatever order the
   * folder lists them; members outside that directory stay as they were.
   */
  method AddFolder(zip: Archive, folder: Folder, files: map<string, Document>) returns (zip': Archive)
    requires forall e :: e in zip ==> !Under(folder, e)
    ensures forall e :: e in zip' <==> e in zip || InFolder(e, folder, files)
    ensures forall e :: e in zip ==> zip'[e] == zip[e]
    ensures Holds(zip', folder, files)
  {
    zip' := zip;
    var todo := files.Keys;
    while todo != {}
      invariant todo <= files.Keys
      invariant forall e :: e in zip' <==> e in zip || exists f :: f in files && f !in todo && e == Prefix(folder) + f
      invariant forall e :: e in zip ==> zip'[e] == zip[e]
      invariant forall f :: f in files && f !in todo ==> Prefix(folder) + f in zip' && zip'[Prefix(folder) + f] == FolderFile(folder, files[f])
      decreases todo
    {
      var f :| f in todo;
      var e := Prefix(folder) + f;
      assert Under(folder, e) by {
        assert e[..|Prefix(folder)|] == Prefix(folder);
      }
      forall g | g in files && g !in todo ensures Prefix(folder) + g != e {
        if Prefix(folder) + g == e {
          PrefixCancels(Prefix(folder), g, f);
        }
      }
      zip' := zip'[e := FolderFile(folder, files[f])];
      todo := todo - {f};
    }
  }

  /** Packing the archive: the DOCX folder, then the PDF folder, then the report sheet. */
  method Pack(docx: map<string, Document>, pdf: map<string, Document>, report: seq<ReportEntry>) returns (zip: Archive)
    ensures IsArchiveOf(zip, docx, pdf, report)
  {
    var withDocx := AddFolder(map[], DocxFolder, docx);
    forall e | e in withDocx ensures !Under(PdfFolder, e) {
      var f :| f in docx && e == Prefix(DocxFolder) + f;
      DirectoriesApart(f);
    }
    var withPdf := AddFolder(withDocx, PdfFolder, pdf);
    forall e | e in withPdf ensures e != ReportName {
      if InFolder(e, DocxFolder, docx) {
        var f :| f in docx && e == Prefix(DocxFolder) + f;
        DirectoriesApart(f);
      } else {
        var f :| f in pdf && e == Prefix(PdfFolder) + f;
        DirectoriesApart(f);
      }
    }
    zip := withPdf[ReportName := ReportSheet(report)];
    assert Holds(zip, DocxFolder, docx) by {
      forall f | f in docx ensures Prefix(DocxFolder) + f in zip && zip[Prefix(DocxFolder) + f] == FolderFile(DocxFolder, docx[f]) {
        assert Prefix(DocxFolder) + f in withDocx;
      }
    }
    assert Holds(zip, PdfFolder, pdf) by {
      forall f | f in pdf ensures Prefix(PdfFolder) + f in zip && zip[Prefix(PdfFolder) + f] == FolderFile(PdfFolder, pdf[f]) {
        assert Prefix(PdfFolder) + f in withPdf;
      }
    }
  }

  /** Every archive member is the report sheet, or the file of a row that writes to a folder, under that folder's directory. */
  lemma ArchiveMembers(rn: Renderer, rows: seq<Row>, attempts: seq<Attempt>, zip: Archive, e: string)
    requires |attempts| == |rows|
    requires IsArchiveOf(zip, Scratch(rn, rows, attempts, DocxFolder), Scratch(rn, rows, attempts, PdfFolder), Report(rn, rows, attempts))
    requires e in zip
    ensures e == ReportName || exists k, folder, f :: WroteAs(rn, rows, attempts, folder, k, f) && e == Prefix(folder) + f
  {
    if e != ReportName {
      var folder, f;
      if g :| g in Scratch(rn, rows, attempts, DocxFolder) && e == Prefix(DocxFolder) + g {
        folder, f := DocxFolder, g;
      } else {
        var g :| g in Scratch(rn, rows, attempts, PdfFolder) && e == Prefix(PdfFolder) + g;
        folder, f := PdfFolder, g;
      }
      ScratchHolds(rn, rows, attempts, folder, f);
    }
  }

  /**
   * Every row that writes to a folder has a member under its name in that
   * folder's directory. The member holds the folder's file under that name,
   * which a row no earlier than row `k` wrote (`ScratchHoldsRow` says which),
   * and it is row `k`'s own file when no later writing row shares the name.
   */
  lemma ArchiveHoldsRow(rn: Renderer, rows: seq<Row>, attempts: seq<Attempt>, zip: Archive, folder: Folder, k: int)
    requires |attempts| == |rows|
    requires IsArchiveOf(zip, Scratch(rn, rows, attempts, DocxFolder), Scratch(rn, rows, attempts, PdfFolder), Report(rn, rows, attempts))
    requires 0 <= k < |rows| && folder.Writes(attempts[k])
    ensures Prefix(folder) + FileName(rn, rows[k], k + 1, folder) in zip
    ensures FileName(rn, rows[k], k + 1, folder) in Scratch(rn, rows, attempts, folder)
    ensures zip[Prefix(folder) + FileName(rn, rows[k], k + 1, folder)]
         == FolderFile(folder, Scratch(rn, rows, attempts, folder)[FileName(rn, rows[k], k + 1, folder)])
    ensures k + 1 <= Scratch(rn, rows, attempts, folder)[FileName(rn, rows[k], k + 1, folder)].row
    ensures LastWithName(rn, rows, attempts, folder, k) ==>
      zip[Prefix(folder) + FileName(rn, rows[k], k + 1, folder)] == FolderFile(folder, Document(k + 1, rn.context(rows[k])))
  {
    var f := FileName(rn, rows[k], k + 1, folder);
    var docx, pdf := Scratch(rn, rows, attempts, DocxFolder), Scratch(rn, rows, attempts, PdfFolder);
    ScratchHoldsRow(rn, rows, attempts, folder, k);
    assert f in (if folder == DocxFolder then docx else pdf) && (if folder == DocxFolder then docx else pdf)[f] == Scratch(rn, rows, attempts, folder)[f] by {
      if folder == DocxFolder {} else {}
    }
    ArchiveFile(zip, docx, pdf, Report(rn, rows, attempts), folder, f);
  }

  /**
   * The folder file under a writing row's name is the last writer's: row `k`
   * or a later row with the same name, with that row's context; it is row
   * `k`'s own when no later writing row shares the name.
   */
  lemma ScratchHoldsRow(rn: Renderer, rows: seq<Row>, attempts: seq<Attempt>, folder: Folder, k: int)
    requires |attempts| == |rows|
    requires 0 <= k < |rows| && folder.Writes(attempts[k])
    ensures FileName(rn, rows[k], k + 1, folder) in Scratch(rn, rows, attempts, folder)
    ensures var d := Scratch(rn, rows, attempts, folder)[FileName(rn, rows[k], k + 1, folder)];
      && k + 1 <= d.row <= |rows| && WroteAs(rn, rows, attempts, folder, d.row - 1, FileName(rn, rows[k], k + 1, folder))
      && d.context == rn.context(rows[d.row - 1])
    ensures LastWithName(rn, rows, attempts, folder, k) ==>
      Scratch(rn, rows, attempts, folder)[FileName(rn, rows[k], k + 1, folder)] == Document(k + 1, rn.context(rows[k]))
  {
    var f := FileName(rn, rows[k], k + 1, folder);
    assert WroteAs(rn, rows, attempts, folder, k, f);
    ScratchHolds(rn, rows, attempts, folder, f);
    ScratchLastWriter(rn, rows, attempts, folder, f);
    if LastWithName(rn, rows, attempts, folder, k) {
      ScratchHoldsOwn(rn, rows, attempts, folder, k);
    }
  }

  /**
   * A row whose three calls returned has a member in each directory under its
   * name; both are its own documents when no later row that saved a DOCX
   * shares its name.
   */
  lemma ArchiveHoldsSucceeded(rn: Renderer, rows: seq<Row>, attempts: seq<Attempt>, zip: Archive, k: int)
    requires |attempts| == |rows|
    requires IsArchiveOf(zip, Scratch(rn, rows, attempts, DocxFolder), Scratch(rn, rows, attempts, PdfFolder), Report(rn, rows, attempts))
    requires 0 <= k < |rows| && Succeeded(attempts[k])
    ensures Prefix(DocxFolder) + FileName(rn, rows[k], k + 1, DocxFolder) in zip
    ensures Prefix(PdfFolder) + FileName(rn, rows[k], k + 1, PdfFolder) in zip
    ensures LastWithName(rn, rows, attempts, DocxFolder, k) ==>
      && zip[Prefix(DocxFolder) + FileName(rn, rows[k], k + 1, DocxFolder)] == FolderFile(DocxFolder, Document(k + 1, rn.context(rows[k])))
      && zip[Prefix(PdfFolder) + FileName(rn, rows[k], k + 1, PdfFolder)] == FolderFile(PdfFolder, Document(k + 1, rn.context(rows[k])))
  {
    var last := LastWithName(rn, rows, attempts, DocxFolder, k);
    var own := Document(k + 1, rn.context(rows[k]));
    var docx := Prefix(DocxFolder) + FileName(rn, rows[k], k + 1, DocxFolder);
    var pdf := Prefix(PdfFolder) + FileName(rn, rows[k], k + 1, PdfFolder);
    assert docx in zip && (last ==> zip[docx] == FolderFile(DocxFolder, own)) by {
      ArchiveHoldsRow(rn, rows, attempts, zip, DocxFolder, k);
    }
    assert pdf in zip && (last ==> zip[pdf] == FolderFile(PdfFolder, own)) by {
      ArchiveHoldsRow(rn, rows, attempts, zip, PdfFolder, k);
      if last {
        LastWithNamePdf(rn, rows, attempts, k);
      }
    }
  }

  /** A file of either folder is in the archive under the folder's directory, with its content. */
  lemma ArchiveFile(zip: Archive, docx: map<string, Document>, pdf: map<string, Document>, report: seq<ReportEntry>, folder: Folder, f: string)
    requires IsArchiveOf(zip, docx, pdf, report)
    requires f in (if folder == DocxFolder then docx else pdf)
    ensures Prefix(folder) + f in zip
    ensures zip[Prefix(folder) + f] == FolderFile(folder, (if folder == DocxFolder then docx else pdf)[f])
  {
    if folder == DocxFolder {
      assert Holds(zip, DocxFolder, docx);
    } else {
      assert Holds(zip, PdfFolder, pdf);
    }
  }

  /** Concatenation regroups. */
  lemma JoinAssoc(p: string, b: string, x: string)
    ensures p + (b + x) == p + b + x
  {
  }

  /** A name with at least one character and no path separator. */
  predicate NoSeparator(b: string) {
    b != [] && forall k :: 0 <= k < |b| ==> !IsSeparator(b[k])
  }

  /** Every row's base name is a name without a path separator. */
  ghost predicate NamesSafe(rn: Renderer, rows: seq<Row>) {
    forall k :: 0 <= k < |rows| ==> NoSeparator(rn.baseName(rows[k], k + 1))
  }

  /** When every base name is free of separators, every archive member but the report is a directory, such a name and an extension. */
  lemma ArchiveNamesSafe(rn: Renderer, rows: seq<Row>, attempts: seq<Attempt>, zip: Archive, e: string)
    requires |attempts| == |rows| && NamesSafe(rn, rows)
    requires IsArchiveOf(zip, Scratch(rn, rows, attempts, DocxFolder), Scratch(rn, rows, attempts, PdfFolder), Report(rn, rows, attempts))
    requires e in zip
    ensures e == ReportName || exists folder, b :: e == Prefix(folder) + b + folder.Ext() && NoSeparator(b)
  {
    ArchiveMembers(rn, rows, attempts, zip, e);
    if e != ReportName {
      var k, folder, f :| WroteAs(rn, rows, attempts, folder, k, f) && e == Prefix(folder) + f;
      var b := rn.baseName(rows[k], k + 1);
      assert NoSeparator(b) by {
        assert 0 <= k < |rows|;
      }
      assert f == b + folder.Ext();
      JoinAssoc(Prefix(folder), b, folder.Ext());
    }
  }
}
