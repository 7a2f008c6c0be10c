/**
 * The upload handler as a whole: the checks in the order the handler makes
 * them, then either the preview page or the generation of the archive,
 * which is stored in the download registry under a fresh identifier.
 *
 * What the handler gets from outside is a parameter: which uploads are
 * present, what reading the sheet gave, what the template engine and the
 * converter did for each row (`outcome`, by row ordinal), the date parser,
 * `int()`, and the identifier `uuid.uuid4()` produced.
 */
module Pipeline {
  import opened Wrappers
  import opened Text
  import opened Sanitizer
  import opened Filenames
  import opened Rows
  import opened Gating
  import opened Batch
  import opened Registry

  const DefaultTemplate: string := "{emp_name} LCF NDA Form"
  const DefaultCountText: string := "5"
  const DefaultAction: string := "generate"
  const UploadMessage: string := "Please upload both the Employees Excel file and the NDA Template DOCX."
  const ReadErrorPrefix: string := "Unable to read Excel file: "

  /** The submitted form: each text field, `None` when it was not sent, and whether each upload is present. */
  datatype Form = Form(
    filenameTemplate: Option<string>, previewCount: Option<string>, action: Option<string>,
    hasEmployees: bool, hasTemplate: bool)

  /** The sheet as read: its column names and its rows. */
  datatype Sheet = Sheet(header: seq<string>, rows: seq<Row>)

  /** `pd.read_excel`: the sheet, or the text of the exception it raised. */
  datatype ReadOutcome = Read(sheet: Sheet) | Unreadable(error: string)

  /** What the handler answers: a redirect with a flash message, the preview page, or the result page. */
  datatype Page =
    | Flashed(message: string)
    | PreviewPage(total: nat, previewCount: int, previewRows: seq<PreviewRow>, filenameTemplate: string)
    | ResultPage(total: nat, success: nat, error: nat, zipId: string, filenameTemplate: string)

  /** The filename pattern: the submitted one or the default, stripped. */
  function TemplateOf(form: Form): string {
    Strip(form.filenameTemplate.GetOr(DefaultTemplate))
  }

  /** Both loops name a row by `render_filename` on the pattern, and the generation loop renders the row's context. */
  function RendererOf(template: string, parseDate: string -> Option<string>): Renderer {
    Renderer((row: Row, i: nat) => RenderFilename(template, row, i, parseDate), (row: Row) => RowContext(row, parseDate))
  }

  /** The outcomes of the calls for the first `n` rows, in row order. */
  function Attempts(outcome: nat -> Attempt, n: nat): (s: seq<Attempt>)
    ensures |s| == n
  {
    seq(n, (k: nat) => outcome(k + 1))
  }

  /** The handler gets as far as the preview or the generation: both uploads present, the sheet read, no column missing. */
  predicate Accepted(form: Form, read: ReadOutcome) {
    form.hasEmployees && form.hasTemplate && read.Read? && Missing(RequiredColumns, read.sheet.header) == []
  }

  /** The submission asks for the preview only. */
  predicate WantsPreview(form: Form) {
    form.action.GetOr(DefaultAction) == "preview"
  }

  /**
   * One POST to `/`. The checks come in the order the handler makes them,
   * and each one that fails answers with its flash message and stores
   * nothing; a preview stores nothing either; a generation stores its
   * archive under `freshId`.
   */
  method Submit(registry: DownloadRegistry, form: Form, read: ReadOutcome, outcome: nat -> Attempt,
                parseDate: string -> Option<string>, parseInt: string -> Option<int>, freshId: string)
    returns (page: Page, ghost stored: Archive)
    modifies registry
    ensures !(form.hasEmployees && form.hasTemplate) ==>
      page == Flashed(UploadMessage) && registry.archives == old(registry.archives)
    ensures form.hasEmployees && form.hasTemplate && read.Unreadable? ==>
      page == Flashed(ReadErrorPrefix + read.error) && registry.archives == old(registry.archives)
    ensures form.hasEmployees && form.hasTemplate && read.Read? && Missing(RequiredColumns, read.sheet.header) != [] ==>
      page == Flashed(MissingMessage(Missing(RequiredColumns, read.sheet.header))) && registry.archives == old(registry.archives)
    ensures Accepted(form, read) && WantsPreview(form) ==>
      var rows, count := read.sheet.rows, PreviewCount(form.previewCount.GetOr(DefaultCountText), parseInt);
      && page == PreviewPage(|rows|, count, PreviewRows(RendererOf(TemplateOf(form), parseDate), rows, Min(Max(count, 1), |rows|)), TemplateOf(form))
      && registry.archives == old(registry.archives)
    ensures Accepted(form, read) && !WantsPreview(form) ==>
      var rows, rn := read.sheet.rows, RendererOf(TemplateOf(form), parseDate);
      var attempts := Attempts(outcome, |rows|);
      && page.ResultPage? && page.total == |rows| && page.success == SuccessCount(attempts)
      && page.error == |rows| - page.success && page.zipId == freshId && page.filenameTemplate == TemplateOf(form)
      && registry.archives == old(registry.archives)[freshId := Buffer(stored, false)]
      && IsArchiveOf(stored, Scratch(rn, rows, attempts, DocxFolder), Scratch(rn, rows, attempts, PdfFolder), Report(rn, rows, attempts))
  {
    stored := map[];
    var template := TemplateOf(form);
    var countText := form.previewCount.GetOr(DefaultCountText);
    var action := form.action.GetOr(DefaultAction);
    if !(form.hasEmployees && form.hasTemplate) {
      return Flashed(UploadMessage), stored;
    }
    var count := PreviewCount(countText, parseInt);
    if read.Unreadable? {
      return Flashed(ReadErrorPrefix + read.error), stored;
    }
    var header, rows := read.sheet.header, read.sheet.rows;
    var missing := Missing(RequiredColumns, header);
    if missing != [] {
      return Flashed(MissingMessage(missing)), stored;
    }
    var rn := RendererOf(template, parseDate);
    if action == "preview" {
      var previewRows := Preview(rn, rows, count);
      return PreviewPage(|rows|, count, previewRows, template), stored;
    }
    var success, error, zip := Produce(rn, rows, Attempts(outcome, |rows|));
    registry.Store(freshId, zip);
    stored := zip;
    page := ResultPage(|rows|, success, error, freshId, template);
  }

  /** The generation branch: the loop over the rows, then the archive of the two folders and the report. */
  method Produce(rn: Renderer, rows: seq<Row>, attempts: seq<Attempt>) returns (success: nat, error: nat, zip: Archive)
    requires |attempts| == |rows|
    ensures success == SuccessCount(attempts) && error == |rows| - success
    ensures IsArchiveOf(zip, Scratch(rn, rows, attempts, DocxFolder), Scratch(rn, rows, attempts, PdfFolder), Report(rn, rows, attempts))
  {
    var report, docx, pdf;
    success, error, report, docx, pdf := Generate(rn, rows, attempts);
    zip := Pack(docx, pdf, report);
  }

  /** The member names of a row's files are its rendered name with the folder's directory and extension. */
  lemma ArchivedNames(template: string, parseDate: string -> Option<string>, row: Row, i: nat)
    ensures Prefix(DocxFolder) + FileName(RendererOf(template, parseDate), row, i, DocxFolder)
         == "DOCX/" + RenderFilename(template, row, i, parseDate) + ".docx"
    ensures Prefix(PdfFolder) + FileName(RendererOf(template, parseDate), row, i, PdfFolder)
         == "PDF/" + RenderFilename(template, row, i, parseDate) + ".pdf"
  {
    var b := RenderFilename(template, row, i, parseDate);
    assert RendererOf(template, parseDate).baseName(row, i) == b;
    JoinAssoc("DOCX/", b, ".docx");
    JoinAssoc("PDF/", b, ".pdf");
  }

  /** Every rendered name is one the archive can hold without leaving a directory. */
  lemma RenderedNamesSafe(template: string, parseDate: string -> Option<string>, rows: seq<Row>)
    ensures NamesSafe(RendererOf(template, parseDate), rows)
  {
    var rn := RendererOf(template, parseDate);
    forall k | 0 <= k < |rows| ensures NoSeparator(rn.baseName(rows[k], k + 1)) {
      assert rn.baseName(rows[k], k + 1) == RenderFilename(template, rows[k], k + 1, parseDate);
    }
  }

  /**
   * No archive member leaves its directory: apart from the report sheet,
   * every member is a directory, a rendered name holding no path separator,
   * and the folder's extension.
   */
  lemma MemberNamesSafe(template: string, rows: seq<Row>, attempts: seq<Attempt>, parseDate: string -> Option<string>,
                        zip: Archive, e: string)
    requires |attempts| == |rows|
    requires var rn := RendererOf(template, parseDate);
      IsArchiveOf(zip, Scratch(rn, rows, attempts, DocxFolder), Scratch(rn, rows, attempts, PdfFolder), Report(rn, rows, attempts))
    requires e in zip
    ensures e == ReportName || exists folder, b :: e == Prefix(folder) + b + folder.Ext() && NoSeparator(b)
  {
    RenderedNamesSafe(template, parseDate, rows);
    ArchiveNamesSafe(RendererOf(template, parseDate), rows, attempts, zip, e);
  }

  /** Every row whose three calls returned has both a DOCX and a PDF member under its rendered name, each in its directory. */
  lemma SucceededRowArchived(template: string, rows: seq<Row>, attempts: seq<Attempt>, parseDate: string -> Option<string>,
                             zip: Archive, k: nat)
    requires |attempts| == |rows|
    requires var rn := RendererOf(template, parseDate);
      IsArchiveOf(zip, Scratch(rn, rows, attempts, DocxFolder), Scratch(rn, rows, attempts, PdfFolder), Report(rn, rows, attempts))
    requires k < |rows| && Succeeded(attempts[k])
    ensures "DOCX/" + RenderFilename(template, rows[k], k + 1, parseDate) + ".docx" in zip
    ensures "PDF/" + RenderFilename(template, rows[k], k + 1, parseDate) + ".pdf" in zip
  {
    var rn := RendererOf(template, parseDate);
    ArchivedNames(template, parseDate, rows[k], k + 1);
    assert "DOCX/" + RenderFilename(template, rows[k], k + 1, parseDate) + ".docx" in zip by {
      ArchiveHoldsRow(rn, rows, attempts, zip, DocxFolder, k);
    }
    assert "PDF/" + RenderFilename(template, rows[k], k + 1, parseDate) + ".pdf" in zip by {
      ArchiveHoldsRow(rn, rows, attempts, zip, PdfFolder, k);
    }
  }

  /**
   * The two members of a row whose three calls returned are the row's own
   * documents, its ordinal and its context, when no later row that saved a
   * DOCX renders to the same name (otherwise the later row's files replaced
   * them, as `Batch.ArchiveHoldsRow` states).
   */
  lemma SucceededRowKept(template: string, rows: seq<Row>, attempts: seq<Attempt>, parseDate: string -> Option<string>,
                         zip: Archive, k: nat)
    requires |attempts| == |rows|
    requires var rn := RendererOf(template, parseDate);
      IsArchiveOf(zip, Scratch(rn, rows, attempts, DocxFolder), Scratch(rn, rows, attempts, PdfFolder), Report(rn, rows, attempts))
    requires k < |rows| && Succeeded(attempts[k])
    requires LastWithName(RendererOf(template, parseDate), rows, attempts, DocxFolder, k)
    ensures var b := RenderFilename(template, rows[k], k + 1, parseDate);
      && "DOCX/" + b + ".docx" in zip && zip["DOCX/" + b + ".docx"] == FolderFile(DocxFolder, Document(k + 1, RowContext(rows[k], parseDate)))
      && "PDF/" + b + ".pdf" in zip && zip["PDF/" + b + ".pdf"] == FolderFile(PdfFolder, Document(k + 1, RowContext(rows[k], parseDate)))
  {
    var rn := RendererOf(template, parseDate);
    var b := RenderFilename(template, rows[k], k + 1, parseDate);
    var own := Document(k + 1, RowContext(rows[k], parseDate));
    var docx, pdf := Prefix(DocxFolder) + FileName(rn, rows[k], k + 1, DocxFolder), Prefix(PdfFolder) + FileName(rn, rows[k], k + 1, PdfFolder);
    assert docx == "DOCX/" + b + ".docx" && pdf == "PDF/" + b + ".pdf" by {
      ArchivedNames(template, parseDate, rows[k], k + 1);
    }
    assert docx in zip && zip[docx] == FolderFile(DocxFolder, own) && pdf in zip && zip[pdf] == FolderFile(PdfFolder, own) by {
      ArchiveHoldsSucceeded(rn, rows, attempts, zip, k);
      assert rn.context(rows[k]) == RowContext(rows[k], parseDate);
    }
  }
}
