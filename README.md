# LCF NDA form generator — a Dafny model

`app.py` is a small Flask application. An operator uploads a spreadsheet of
employees and a Word template, and the application does one of two things:

- it previews the filenames that the first rows would get;
- or it renders one NDA document per row, converts each document to PDF, and
  returns a ZIP holding both folders and a status report. The ZIP is kept in
  memory under a random identifier so that it can be downloaded later.

This project models the logic of that handler.

- **Module `Sanitizer`:** `sanitize_filename`, as its three regular-expression rewrites and a fallback.
- **Module `Filenames`:** `render_filename`, as five whole-string replaces in a fixed key order followed by sanitizing.
- **Module `Rows`:** the per-row template context, and the pronoun rule.
- **Module `Gating`:** the preview count, and the missing-column check.
- **Module `Batch`:** the preview loop; the generation loop, with its two scratch folders and its report; and the packing of the archive.
- **Module `Registry`:** the in-memory archive table `GENERATED_ZIPS`, as a class holding a map of buffers, and the download route, which closes a buffer once it has served it.
- **Module `Pipeline`:** the whole POST handler. Its checks come in the source's order and each stops with its flash message. It then builds the preview page, or generates, packs and stores the archive.
- **Modules `Text` and `Wrappers`:** Python's `str.strip`, `str.lower` (ASCII letters), `str(n)`, `str.replace`, `str.split` and `str.join`, and an `Option` type.

The code outside the model becomes parameters:

- **`parseDate: string -> Option<string>`:** `pd.to_datetime(...).strftime("%d-%m-%Y")`. `None` means it raised.
- **`parseInt: string -> Option<int>`:** `int()`.
- **`ReadOutcome`:** what `pd.read_excel` gave, a sheet or an error text.
- **`outcome`:** for each row ordinal, what `doc.render`, `doc.save` and `convert` did. Each call either returned or raised with a message.
- **`freshId`:** the identifier that `uuid.uuid4()` produced.

Whitespace (`IsSpace`) is the set of characters that both Python's `\s` and
`str.strip()` treat as whitespace on `str`.

In `Batch`, the two calls a loop makes per row are one abstract
`Renderer`: the base name `render_filename(template, row, i)` and the row's
template context. `Pipeline.RendererOf` instantiates it with
`Filenames.RenderFilename` and `Rows.RowContext`. As a result, every fact about
the loops holds for any pattern, and the facts about rendering are proved once
in `Filenames`.

## Model

| member | source | states |
|---|---|---|
| Text.Strip | app.py:52-54 | the stripped text is no longer than the input and is empty or neither starts nor ends with whitespace |
| Text.StripSlice | app.py:52-54 | the stripped text is the slice of the input left after cutting an all-whitespace prefix and an all-whitespace suffix |
| Text.StripEmpty | app.py:39 | stripping gives the empty text exactly when the input is all whitespace |
| Text.StripChars | app.py:39 | every character of the stripped text occurs in the input |
| Text.StripKeeps | app.py:39 | every non-whitespace character of the input survives the strip |
| Text.StripUnpadded | app.py:39 | a text that neither starts nor ends with whitespace is its own strip |
| Text.StripPadded | app.py:155 | a text that has no padding of its own, surrounded by whitespace, strips to itself |
| Text.Lower | app.py:155 | lower-casing keeps the length and lower-cases each ASCII letter in place |
| Text.NatToString | app.py:56 | `str(idx)` is a non-empty string of decimal digits with no leading zero |
| Text.DecimalRoundTrip | app.py:56 | reading back the decimal text of an ordinal gives the ordinal |
| Text.ReplaceIsSplitJoin | app.py:61 | `s.replace(p, v)` equals `v.join(s.split(p))` |
| Text.SplitJoinRoundTrip | app.py:61 | joining the pieces of a split with the same separator restores the text |
| Text.ReplaceSelf | app.py:61 | replacing a pattern by itself changes nothing |
| Text.ReplaceAbsent | app.py:61 | a replace whose pattern does not occur leaves the text unchanged |
| Text.Split | app.py:61 | splitting always gives at least one piece |
| Text.SplitPiecesFree | app.py:61 | no piece of a split holds the separator |
| Text.SplitCutsLeftmost | app.py:61 | each cut of a split is at the leftmost occurrence left: no occurrence starts inside a piece, even one running into the separator after it |
| Text.ReplaceOverlapping | app.py:61 | an overlapping pattern is cut leftmost and the overlap is not rescanned: "aaa" split on "aa" is ["", "a"], and replacing "aa" by "X" gives "Xa" |
| Sanitizer.CollapseRuns | app.py:37-39 | collapsing runs never lengthens the text and leaves no class character other than the replacement |
| Sanitizer.CollapsePreserves | app.py:37-39 | a property shared by every input character and by the replacement holds for every output character |
| Sanitizer.Remove | app.py:41 | deletion never lengthens the text and leaves no character of the class |
| Sanitizer.RemoveChars | app.py:41 | a character survives deletion exactly when it occurs in the text and is outside the class |
| Sanitizer.Sanitize | app.py:35-42 | the result is never empty, holds no separator and no reserved character, and its only whitespace is ' ' |
| Sanitizer.Clean | app.py:37-41 | after the three rewrites, no separator or reserved character is left and the only whitespace is ' ' |
| Sanitizer.CleanSpacing | app.py:37-39 | after the first two rewrites and the strip, no separator is left and the only whitespace is ' ' |
| Sanitizer.RunAbsorbed | app.py:37 | inside a run, further class characters add nothing to the output |
| Sanitizer.CollapseMaximalRun | app.py:37 | a maximal run of separators becomes exactly one replacement character |
| Sanitizer.CollapseKeepsRest | app.py:37-39 | apart from the class and its replacement, collapsing keeps the text character for character |
| Sanitizer.CollapseChars | app.py:37-39 | every character of a collapsed text is a character of the input outside the class, or the replacement standing for a run |
| Sanitizer.CollapseKeepsChar | app.py:37-39 | a character outside the class survives collapsing |
| Sanitizer.CollapseLeavesRep | app.py:37 | a separator in the input leaves a replacement in the output |
| Sanitizer.CollapseSingles | app.py:37-39 | a text whose class characters are single replacements is left unchanged |
| Sanitizer.CollapsePrefix | app.py:37 | a prefix holding no class character is copied unchanged |
| Sanitizer.RemoveNothing | app.py:41 | a text with nothing to delete is unchanged by deletion |
| Sanitizer.SanitizeOnlyDeletes | app.py:37-41 | a separator-free, single-spaced, unpadded name is only touched by the deletion step |
| Sanitizer.SanitizeCleanName | app.py:35-42 | sanitizing a name already in clean form returns it unchanged |
| Sanitizer.SanitizeBlank | app.py:41-42 | a name made only of reserved characters (the empty name included) becomes exactly "file" |
| Sanitizer.SanitizeKeepsVisible | app.py:35-42 | every visible, non-separator, non-reserved character of the name survives the rewrites, so the fallback is not taken and the result holds it |
| Sanitizer.SanitizeMarksSeparator | app.py:37-42 | a separator anywhere in the name leaves a '-' after the rewrites, so the fallback is not taken and the result holds the '-' |
| Sanitizer.SanitizeJoinsWithDash | app.py:37-42 | two clean names around any run of '/' and '\\' come out joined by exactly one '-' |
| Sanitizer.SanitizeJoinsAround | app.py:37-42 | the same, with the text after the run given in two parts |
| Sanitizer.DashJoin | app.py:37 | the first rewrite turns the separator run between two separator-free texts into one '-' |
| Sanitizer.JoinedClean | app.py:37-42 | two clean names joined by '-' form a clean name |
| Sanitizer.DigitsClean | app.py:56 | a non-empty string of decimal digits is a clean name |
| Sanitizer.SanitizeKeepsInnerSpaces | app.py:39-41 | "a : b" sanitizes to "a  b": deletion after the strip can leave a double space |
| Sanitizer.SanitizeWhitespaceOnly | app.py:39-42 | ": :" sanitizes to " ", which the fallback does not replace |
| Sanitizer.SanitizeNotIdempotent | app.py:35-42 | sanitizing twice can differ from sanitizing once |
| Filenames.TokensSpellKeys | app.py:60-61 | the five placeholders are `"{" + key + "}"` for the five keys, in the order of the values dictionary |
| Filenames.FilenameValues | app.py:51-57 | the values pair each of the five placeholders, in order, with its value |
| Filenames.RenderFilename | app.py:45-63 | the rendered name is never empty, holds no separator and no reserved character, and its only whitespace is ' ' |
| Filenames.SubstituteAbsent | app.py:59-61 | replaces whose placeholders do not occur leave the text unchanged |
| Filenames.UnbracedHoldsNoToken | app.py:59-61 | text without '{' holds none of the placeholders |
| Filenames.NoBraceNoToken | app.py:59-61 | text without '{' passes the five replaces unchanged |
| Filenames.RenderWithoutTokens | app.py:45-63 | a pattern holding none of the five placeholders (unknown `{...}` included) is only sanitized |
| Filenames.SubstituteSplit | app.py:60-61 | substituting a list is substituting a prefix of it and then the rest |
| Filenames.ReplaceWhole | app.py:61 | replacing a whole text by a value gives the value |
| Filenames.ReplaceLeadingToken | app.py:61 | a leading pattern that does not occur again is replaced once, and the rest is kept |
| Filenames.SubstituteOne | app.py:60-61 | when no earlier placeholder occurs and no later one survives the n-th replace, the substitution is that one replace |
| Filenames.SubstituteOnly | app.py:60-61 | substituting into the n-th placeholder alone gives the n-th value when no later placeholder occurs in it |
| Filenames.SubstituteChain | app.py:60-61 | a value that is a later placeholder is replaced again by that placeholder's value |
| Filenames.TokenInToken | app.py:61 | one brace-free key's placeholder occurs inside another's only when the keys are equal |
| Filenames.KeyTokensDistinct | app.py:51-61 | no placeholder of one key occurs in the placeholder of another |
| Filenames.ValuesApart | app.py:51-61 | the placeholders are non-empty and none occurs in another |
| Filenames.RenderOneToken | app.py:45-63 | a pattern that is one placeholder renders to that value sanitized, when no later placeholder occurs in the value |
| Filenames.RenderIndex | app.py:56-62 | the pattern `{index}` renders to `str(idx)` |
| Filenames.RenderDateFallback | app.py:47-50 | when the date does not parse, `{joining_date}` renders to the raw cell text sanitized |
| Filenames.RenderNamePattern | app.py:45-63 | `{emp_name}` followed by brace-free text renders to the stripped name followed by that text, sanitized |
| Filenames.RenderDefaultPattern | app.py:75 | the default pattern renders to the stripped name followed by " LCF NDA Form", sanitized |
| Filenames.RenderSplitName | app.py:37-62 | a name of two clean parts around separators renders with the parts joined by one '-' |
| Filenames.RenderJaneDoe | app.py:45-63 | under the default pattern the name "Jane/Doe" gives "Jane-Doe LCF NDA Form" |
| Filenames.RenderResubstitutes | app.py:60-61 | a name cell `{city}` under the pattern `{emp_name}` renders to the city: later replaces rescan earlier values |
| Filenames.RenderKeepsEarlierToken | app.py:60-61 | a city cell `{emp_name}` under the pattern `{city}` stays `{emp_name}`: earlier replaces do not run again |
| Rows.Pronoun | app.py:155-157 | the pronoun is "his" or "her" |
| Rows.LowerIsCaseVariant | app.py:155 | lower-casing gives a lower-case word exactly on its case variants |
| Rows.PronounIsHisExactly | app.py:155-157 | "his" exactly when the stripped gender is "male" or "m" in some mixture of cases; "her" in every other case |
| Rows.PronounOfPaddedMale | app.py:155-157 | surrounding whitespace and capitals do not change the pronoun ("  MALE  " gives "his") |
| Rows.StripAround | app.py:155 | whitespace around an unpadded word is what the strip cuts |
| Rows.PronounOfEmpty | app.py:157 | an empty gender cell gives "her" |
| Rows.RowContext | app.py:150-174 | the context's pronoun is "his" or "her" |
| Rows.ContextAgreesWithFilename | app.py:150-174 | the context's name, city, state and date are the values the filename pattern substitutes |
| Gating.PreviewCount | app.py:85-90 | the count is at least 1: the parsed value when it parses and is at least 1, else 5 |
| Gating.PreviewCountStable | app.py:85-90 | a count the handler produced is kept unchanged when submitted again |
| Gating.Missing | app.py:107-108 | column `c` is missing exactly when it is required and absent from the header; the list keeps the required order, and lists each missing column as often as the required list does |
| Gating.NothingMissing | app.py:108-112 | nothing is missing exactly when the header has every required column |
| Gating.MissingDependsOnMembership | app.py:108 | two headers that agree on the required columns give the same missing list |
| Gating.MissingExactlyOne | app.py:108 | among distinct required columns, a header lacking just one is told exactly that one |
| Gating.MissingOneRequired | app.py:107-111 | a sheet lacking one required column is told exactly that column |
| Batch.PreviewRows | app.py:116-124 | the preview of the first n rows has n entries |
| Batch.PreviewRowsAt | app.py:117-122 | preview entry k is ordinal k+1, the stripped name, and the base name with ".docx" |
| Batch.Preview | app.py:116-124 | the loop previews min(max(count, 1), rows) rows with ordinals from 1: one row even for a count below 1, and every row when the sheet is shorter |
| Batch.ErrorStatus | app.py:198 | an error status is never "Success" |
| Batch.Status | app.py:182-198 | "Success" exactly when render, save and convert all returned; otherwise "Error: " and the message of the first call that raised |
| Batch.Report | app.py:201 | the report has one line per row |
| Batch.ReportAt | app.py:148-201 | report line k is row k's stripped name, its base name and its status: a failing row does not stop later rows |
| Batch.Count | app.py:194-199 | at most one file per row |
| Batch.WroteBefore | app.py:179-189 | a row of a prefix wrote a name there exactly when it wrote it in the whole run |
| Batch.ScratchHolds | app.py:179-189 | a folder holds a name exactly when some row writing to that folder has that name |
| Batch.ScratchLastWriter | app.py:179-189 | the file under a name is the one the last row with that name wrote, with that row's context |
| Batch.ScratchSize | app.py:179-189 | a folder holds at most one file per writing row |
| Batch.ScratchDistinctNames | app.py:179-189 | when writing rows have distinct names, the folder holds exactly one file per writing row |
| Batch.ScratchCollision | app.py:179-189 | when two writing rows share a name, the later file replaces the earlier and the folder holds fewer files than writing rows |
| Batch.ScratchHoldsOwn | app.py:179-189 | a writing row whose name no later writing row shares has its own file in the folder: its ordinal and its context |
| Batch.ScratchHoldsRow | app.py:179-189 | the file under a writing row's name is that of the last row with the name, row `k` or a later one, with that row's context; it is row `k`'s own when no later writing row shares the name |
| Batch.PdfHasDocx | app.py:182-189 | a row with a PDF also has a DOCX under its name; when no later row that saved a DOCX shares its name, both files are the row's own (its ordinal and context) |
| Batch.ConvertFailureKeepsDocx | app.py:182-199 | a row whose conversion raised has a DOCX under its name, its own when no later row that saved a DOCX shares the name, and its report line carries the conversion's error |
| Batch.PdfCountBelowDocx | app.py:182-195 | never more PDF rows than DOCX rows |
| Batch.SuccessLines | app.py:201 | no more success lines than lines |
| Batch.SuccessCountIsReported | app.py:194-201 | the success count is the number of report lines marked "Success" |
| Batch.SuccessCountExtremes | app.py:194-199 | all rows succeed exactly when every row's three calls returned; none does exactly when all failed |
| Batch.PreviewMatchesReport | app.py:118-121 | preview entry k and report line k name the same employee, and the preview's file is the report's filename with ".docx" |
| Batch.GenerateRow | app.py:148-201 | one row: the counts advance by its outcome, its report line, and the files it puts in the two folders |
| Batch.Generate | app.py:142-201 | success is the number of fully successful rows, success + error = total, the report and the two folders are those of all rows |
| Batch.AddFolder | app.py:208-214 | every file of the folder is added under its directory, whatever the listing order; other members are unchanged |
| Batch.Pack | app.py:203-226 | the archive holds `DOCX/f`, `PDF/f` and `NDA_Report.xlsx`, with their contents, and nothing else |
| Batch.DirectoriesApart | app.py:208-224 | the two directories and the report name do not overlap |
| Batch.ArchiveMembers | app.py:203-224 | every member is the report, or the file of a row that wrote to a folder, under that folder's directory |
| Batch.ArchiveHoldsRow | app.py:179-214 | every writing row has a member under its name in its folder's directory; it holds the folder's file under that name, written by row `k` or a later row, and row `k`'s own file when no later writing row shares the name |
| Batch.ArchiveHoldsSucceeded | app.py:179-214 | a fully successful row has a DOCX and a PDF member under its name, both its own when no later row that saved a DOCX shares the name |
| Batch.ArchiveNamesSafe | app.py:177-214 | with separator-free base names, every member except the report is a directory, such a name and an extension |
| Registry.Lookup | app.py:257-269 | an unknown id gets 404 with "Invalid or expired download link."; a stored, unserved buffer gets the archive as `NDA_Forms.zip` (`application/zip`); a served, closed one gets status 500 |
| Registry.Served | app.py:263-269 | after a download of a stored id its buffer is closed; the ids and every other buffer are unchanged |
| Registry.LookupAfterStore | app.py:229-230 | right after storing under an id, downloading that id serves that archive |
| Registry.LookupOthersUnchanged | app.py:229-230 | storing under one id leaves the answer for every other id unchanged |
| Registry.ServedOthersUnchanged | app.py:263-269 | downloading one id leaves the answer for every other id unchanged |
| Registry.DownloadOnce | app.py:229-269 | the first download after storing gets the archive, and any number of later downloads of that id get status 500 |
| Registry.ServedStaysClosed | app.py:259-263 | a closed buffer stays in the table and stays closed however often it is requested |
| Registry.DownloadRegistry.constructor | app.py:32 | the table starts empty |
| Registry.DownloadRegistry.Store | app.py:229-230 | the table afterwards is the old one with a fresh, unserved buffer holding the archive under the id |
| Registry.DownloadRegistry.Download | app.py:257-269 | the answer is `Lookup` of the table before the call, and the table afterwards is `Served`: the buffer just sent is closed and nothing is removed |
| Pipeline.Submit | app.py:73-252 | each failed check flashes its message and stores nothing; a preview stores nothing and lists the preview rows; a generation reports the counts and stores the archive of both folders and the report under `freshId` |
| Pipeline.Produce | app.py:142-226 | the counts and the archive of the generation branch |
| Pipeline.ArchivedNames | app.py:177-214 | a row's members are `DOCX/` + its rendered name + `.docx`, and `PDF/` + its rendered name + `.pdf` |
| Pipeline.RenderedNamesSafe | app.py:177 | every rendered base name is non-empty and free of path separators |
| Pipeline.MemberNamesSafe | app.py:177-214 | no archive member leaves its directory |
| Pipeline.SucceededRowArchived | app.py:148-214 | a fully successful row has a DOCX member and a PDF member under its rendered name |
| Pipeline.SucceededRowKept | app.py:148-214 | when no later row that saved a DOCX renders to the same name, those two members are the row's own documents: its ordinal and its context |

## Left out

- Flask is not modelled: routing, `request`, `flash`, `redirect`, `render_template`, `send_file` (apart from its closing the buffer, below) and `app.run`. Pages are values of `Pipeline.Page`, and the download answer is a `Registry.Response`.
- pandas, docxtpl and docx2pdf are parameters: reading the sheet, date parsing, rendering, saving and converting. The bytes of DOCX, PDF, XLSX and ZIP files, and compression, are not modelled. A scratch file is the row ordinal and the context rendered into it; the report sheet is its list of lines.
- The temporary directory and saving the uploads are not modelled. `os.listdir`'s order is not modelled either: `AddFolder` adds the files in any order, and the result is the same.
- The elapsed-time measurement and its formatting (app.py:71, 232-240) are floating-point timing, and the result page omits them.
- `uuid.uuid4()` is the parameter `freshId`. Freshness is not required: storing replaces any archive already under the id, as the dictionary assignment does.
- `str()` of pandas cells (`NaN`, numbers, timestamps) is not modelled. A row is a map from column names to cell texts, and an absent column reads as "".
- `DocxTemplate(template_path)` is built outside the `try` (app.py:165). So is `render_filename`, which cannot raise in the model. Neither is modelled as raising.
- `Text.Lower` lower-cases ASCII letters only. Python's `str.lower()` also lower-cases other letters, but no non-ASCII character lower-cases to the letters of "male" or "m", so the pronoun rule is unaffected.
- `Filenames.RenderDateFallback` states the fallback only for a date cell that does not hold `{index}`, which the later replace would rewrite.
- `Pipeline.Submit` takes what the three calls did for row `i` as `outcome(i)`. A real run could make these depend on anything else as well.
- `Pipeline.Submit`, `Registry.DownloadRegistry.Store` and `Registry.DownloadRegistry.Download` ensure the new table with `old(...)`. The lemmas `Registry.LookupAfterStore`, `Registry.LookupOthersUnchanged`, `Registry.ServedOthersUnchanged` and `Registry.DownloadOnce` state the download behaviour on the map itself.
- `Pipeline.TemplateOf` (the submitted or default pattern, stripped) and `Filenames.FormatDate` have no contract of their own. They are the submitted-field defaults and the date fallback written out once, and the lemmas above use them.
- These definitions have no contract of their own; the listed lemmas specify them:
  - `Text.IsSpace`, the whitespace of `\s` and `str.strip()`: `Text.Strip`, `Text.StripEmpty` and `Sanitizer.CleanSpacing`;
  - `Text.ReplaceAll`, which is `str.replace`: `Text.ReplaceIsSplitJoin` ties it to `Text.Split`, whose pieces `Text.SplitJoinRoundTrip`, `Text.SplitPiecesFree` and `Text.SplitCutsLeftmost` pin down: the pieces rebuild the text, none holds the pattern, and each cut is at the leftmost occurrence left, so every non-overlapping occurrence, leftmost first, is replaced ("aaa" with "aa" replaced by "X" gives "Xa", as in Python). For a pattern that cannot overlap itself, as all five placeholders, the first two alone already fix the pieces; `Text.ReplaceSelf` and `Text.ReplaceAbsent` add the two edge cases;
  - `Text.Join`, which is `str.join`: `Text.SplitJoinRoundTrip`;
  - `Filenames.Substitute`, the replace loop of app.py:59-61: `Filenames.SubstituteSplit`, `Filenames.SubstituteOne`, `Filenames.SubstituteOnly` and `Filenames.SubstituteChain`;
  - `Batch.Put` and `Batch.Scratch`, the scratch-folder writes of app.py:179-189: `Batch.ScratchHolds`, `Batch.ScratchLastWriter`, `Batch.ScratchHoldsRow` and `Batch.ScratchSize`;
  - `Gating.MissingMessage`, the flash text of app.py:111: `Pipeline.Submit`.
- `Batch.Scratch` keys a folder by the exact name. docx2pdf runs on Windows and macOS, whose default file systems ignore case, so there "Jane" and "JANE" write the same file. `Batch.ScratchDistinctNames` and `Batch.LastWithName` compare names exactly, and so do not capture that collision.
- `Batch.Scratch` takes a save or conversion that raised to write nothing. A `save` that fails after opening its target can leave a truncated file, replacing an earlier same-named row's file; the model does not capture that.
- `Pipeline.Submit` takes writing the report sheet (app.py:217-224) as unable to fail. openpyxl refuses control characters such as U+0001 in a cell (one inside a name survives `strip`); `to_excel` then raises, and nothing is stored.
- `Registry.DownloadRegistry.Download` takes the buffer as closed as soon as the first answer is returned, as Werkzeug's file wrapper closes it after sending. An answer cut off midway, and the body of the server's 500 page, are not modelled.
