# NAPS2 core: PDF export, scan profiles, colour correction

This project is a Dafny model of three pieces of NAPS2, the document scanning
application. Each one is proved against its own specification.

- **PDF export** (`PdfExporter`). The exporter splits the input images into two lists:
  - stored PDF pages without transforms, which are passed through unchanged;
  - every other image, which is drawn on a new page.

  For PDF pages it decides whether OCR is needed: the page can be opened and no page of it carries text.
  It picks the OCR engine, fills in the new document's metadata and encryption, and draws the rendered
  pages, with an invisible text layer when OCR gave a result. A placeholder page is added when nothing was
  drawn. Finally each passthrough page is spliced back in at its input position.
  - `pdf_document.dfy` (module `PdfDocuments`): the document side.
  - `ocr_text.dfy` (module `OcrText`): the text layer.
  - `pdf_export.dfy` (module `PdfExport`): the export. It has the `PageExportState` class and the `Export`
    method, which is proved equal to the function `ExportPages`. Lemmas about `ExportPages` give:
    - the error case;
    - the page count;
    - that every image's page is present;
    - input order, when the drawn pages arrive in input order.
- **Scan profiles** (`ProfileManager`), in `profiles.dfy` (module `Profiles`). The manager builds the
  effective profile list from the user's and the administrator's lists under three flags, and caches it.
  It also reads and sets the default profile. Profiles are objects the manager changes in place, so
  `ScanProfile` and `ProfileManager` are classes. Their methods are proved to mirror functions on a
  `ProfileData` snapshot, and the rules are proved about those functions.
- **Colour correction** (`CorrectionOp`), in `correction.dfy` (module `Correction`). The constructor:
  - bins a 256-entry brightness histogram into 64 segments;
  - scans for the black and white segments;
  - decides whether the correction is usable.

  `PerformCore` then rewrites the red, green and blue bytes of a band of rows of a pixel buffer, an
  `array<Byte>`, in place.
- `seqs.dfy` (module `Seqs`) holds sequence helpers. Among them are `Positions`, the positions where a
  mask holds; `InsertAt`; `Interleave`; and `Select`. `wrappers.dfy` holds `Option`, `Result` and `Outcome`.

Things that come from outside become parameters:
- what reading a stored PDF gives (`PdfReadOutcome`: the open fails, the text read fails, or the page texts);
- what OCR recognises for an image;
- the installed OCR engine;
- the contents of the two profile files;
- the flags.

The two drawing pipelines of the export run concurrently in the source. Here they are run one after the
other, in an order given by a `schedule` that interleaves them.

Where the specification and the code disagree, the model follows the code. When opening a PDF page or
reading its text fails, CheckIfOcrNeededStep leaves `NeedsOcr` false, so the page is passed through
without OCR. The specification describes the opposite fallback, to "needs OCR". `PdfDocuments.NeedsOcrFor`
and `PdfExport.PageExportState.CheckIfOcrNeeded` follow the code.

## Model

| member | source | states |
|---|---|---|
| PdfDocuments.PdfFileNames | NAPS2.Sdk/ImportExport/Pdf/PdfExporter.cs:349-354 | a stored file is a PDF page exactly when its name ends in ".pdf" in any mix of letter case |
| PdfDocuments.HasContentSpec | NAPS2.Sdk/ImportExport/Pdf/PdfExporter.cs:225-227 | trimmed page text is non-empty exactly when it has a character that is not white space |
| PdfDocuments.NeedsOcrSpec | NAPS2.Sdk/ImportExport/Pdf/PdfExporter.cs:218-240 | a PDF page needs OCR exactly when its texts were read and every character of every page is white space; a failed open or read never makes it need OCR |
| PdfDocuments.GetOcrEngine | NAPS2.Sdk/ImportExport/Pdf/PdfExporter.cs:332-347 | there is an engine exactly when OCR parameters with a language code are given and an engine is installed, and it is the installed one |
| PdfDocuments.DocumentSettings | NAPS2.Sdk/ImportExport/Pdf/PdfExporter.cs:252-286 | the creator is "NAPS2" when the caller gives none (null or empty) and the caller's otherwise; author, keywords, subject and title are the caller's. The document is encrypted at 128 bits exactly when encryption is asked for with a non-empty password, and is otherwise left at the defaults. When encrypted, each non-empty caller password is set, each password that is set is non-empty and the caller's, and the permissions are the caller's eight flags |
| PdfDocuments.PdfSharpDocument.AddPage | NAPS2.Sdk/ImportExport/Pdf/PdfExporter.cs:207 | AddPage appends one page and changes nothing else |
| PdfDocuments.InitializeDocument | NAPS2.Sdk/ImportExport/Pdf/PdfExporter.cs:249-288 | the new document has no pages, the information InfoFor describes and the security SecurityFor describes |
| PdfDocuments.FinalizeAndSaveDocument | NAPS2.Sdk/ImportExport/Pdf/PdfExporter.cs:290-298 | the placeholder flag is set exactly when the document had no pages; it then holds just the placeholder, and is otherwise unchanged. The saved file has at least one page |
| PdfDocuments.MergePassthroughPages | NAPS2.Sdk/ImportExport/Pdf/PdfExporter.cs:110-171 | the loop deleting the placeholder and importing each file or memory page at its index gives what MergedPages describes: "No pages to save" when there is nothing to import and only the placeholder, the saved pages unchanged when there is nothing to import, and otherwise the imports in order |
| PdfDocuments.ImportInInputOrder | NAPS2.Sdk/ImportExport/Pdf/PdfExporter.cs:132-170 | when the document holds the rendered positions in ascending order, inserting each passthrough page at its index, in ascending order, succeeds and numbers the pages 0 .. n-1 |
| PdfDocuments.ImportKeepsEveryPage | NAPS2.Sdk/ImportExport/Pdf/PdfExporter.cs:132-170 | whatever the order of the rendered pages, the imports succeed, the page count is rendered plus passthrough pages, every rendered page stays and every passthrough page is added |
| OcrText.ReverseText | NAPS2.Sdk/ImportExport/Pdf/PdfExporter.cs:387-397 | the loop collecting the text elements, then reversing and concatenating them, gives the concatenation of the reversed elements |
| OcrText.ReverseTextTwice | NAPS2.Sdk/ImportExport/Pdf/PdfExporter.cs:387-397 | reversing the text elements twice gives them back, and the reversed text is as long as the original |
| OcrText.DrawOcrTextOnPage | NAPS2.Sdk/ImportExport/Pdf/PdfExporter.cs:356-385 | the strings drawn are, in order, those of the elements that are not skipped (empty text, or a "-" or "_" with font size over 100), reversed when right to left |
| OcrText.TextLayerNonEmpty | NAPS2.Sdk/ImportExport/Pdf/PdfExporter.cs:366-382 | every drawn string is non-empty and comes from an element that is not skipped |
| PdfExport.ClassificationPartition | NAPS2.Sdk/ImportExport/Pdf/PdfExporter.cs:49-68 | every input position is in exactly one of the two lists; the PDF list holds exactly the stored PDFs without transforms; both lists are in input order |
| PdfExport.ClassifyPages | NAPS2.Sdk/ImportExport/Pdf/PdfExporter.cs:47-68 | the loop gives each new state its input position as page index and puts it in the PDF list or the image list, so the page indices of the two lists are the positions of the two kinds, in input order |
| PdfExport.PageExportState.constructor | NAPS2.Sdk/ImportExport/Pdf/PdfExporter.cs:440-466 | a new state holds the given image, index, document, engine, parameters and compatibility, and starts not needing OCR, not rendered, with no OCR task and no page document |
| PdfExport.PageExportState.CheckIfOcrNeeded | NAPS2.Sdk/ImportExport/Pdf/PdfExporter.cs:218-247 | NeedsOcr is set from the texts only when a file or memory PDF was read, and is otherwise left alone. From a fresh state it ends as OcrNeeded. The page document stays open exactly when the page needs OCR and opening succeeded |
| PdfExport.PageExportState.Render | NAPS2.Sdk/ImportExport/Pdf/PdfExporter.cs:322-330 | RenderStep marks the state rendered and changes nothing else |
| PdfExport.PageExportState.InitOcr | NAPS2.Sdk/ImportExport/Pdf/PdfExporter.cs:173-198 | InitOcrStep and WaitForOcrStep store the OCR result and change nothing else |
| PdfExport.PageExportState.WriteToPdfSharp | NAPS2.Sdk/ImportExport/Pdf/PdfExporter.cs:200-216 | one page is appended for the state's index, with the text layer of its OCR result when there is one |
| PdfExport.CheckPdfPages | NAPS2.Sdk/ImportExport/Pdf/PdfExporter.cs:84-88 | after the pre-pipeline every PDF page's NeedsOcr is OcrNeeded for what reading it gives |
| PdfExport.SelectPages | NAPS2.Sdk/ImportExport/Pdf/PdfExporter.cs:90 | the Where filter keeps, in order, exactly the states with the wanted NeedsOcr |
| PdfExport.CheckAndSelect | NAPS2.Sdk/ImportExport/Pdf/PdfExporter.cs:84-90 | the OCR pipeline gets, in input order, exactly the PDF pages that need OCR; without an engine none is checked and none needs OCR |
| PdfExport.RunPipelines | NAPS2.Sdk/ImportExport/Pdf/PdfExporter.cs:72-95 | running the pipeline steps over the pages appends one drawn page per page, in order, with its OCR text when there is an engine |
| PdfExport.DrawPages | NAPS2.Sdk/ImportExport/Pdf/PdfExporter.cs:72-98 | the two pipelines, interleaved by the schedule, append exactly the drawn pages ExportDrawn describes |
| PdfExport.PassthroughEntries | NAPS2.Sdk/ImportExport/Pdf/PdfExporter.cs:103 | the passthrough list is the PDF pages that do not need OCR, in input order |
| PdfExport.DrawOrderCovers | NAPS2.Sdk/ImportExport/Pdf/PdfExporter.cs:47-103 | every input position is drawn or passed through, never both; the drawn positions and the passthrough pages number n together; in ascending order the draw order is exactly the non-passthrough positions |
| PdfExport.ExportAsImport | NAPS2.Sdk/ImportExport/Pdf/PdfExporter.cs:101-104 | no images always fails with "No pages to save"; with images, the placeholder never matters and the export is the import of the passthrough pages into the drawn pages |
| PdfExport.ExportPagesSpec | NAPS2.Sdk/ImportExport/Pdf/PdfExporter.cs:37-108 | the export fails exactly when there are no images, and then with "No pages to save"; otherwise it writes one page per image and every image's page is present |
| PdfExport.ExportKeepsInputOrder | NAPS2.Sdk/ImportExport/Pdf/PdfExporter.cs:37-108 | when the drawn pages reach the document in input order, page i of the output is image i's page |
| PdfExport.NoEngineInInputOrder | NAPS2.Sdk/ImportExport/Pdf/PdfExporter.cs:84-86 | without an engine the draw order is ascending; every stored PDF without transforms is imported, and every other image is drawn without a text layer |
| PdfExport.Export | NAPS2.Sdk/ImportExport/Pdf/PdfExporter.cs:37-108 | Export succeeds exactly when ExportPages does, with the same pages or the same message, and the document handed to the save step carries the settings InitializeDocument chose (see "## Left out" for files with passthrough pages) |
| Profiles.FoldKeepsUnfolded | NAPS2.Sdk/Config/ProfileManager.cs:152-171 | the user profiles left are exactly, in order, those that are not the first of their name among the system names, so a second copy of a system profile is kept |
| Profiles.FoldSystemProfile | NAPS2.Sdk/Config/ProfileManager.cs:152-171 | a system profile absorbs the first user profile of its name when it is the first system profile of that name; otherwise it is left as it was |
| Profiles.MergeLocksSystemProfiles | NAPS2.Sdk/Config/ProfileManager.cs:146-150 | every system profile is locked, and device-locked exactly when it named a device before any device was copied, or unspecified devices are locked |
| Profiles.MergeFoldsFirstMatch | NAPS2.Sdk/Config/ProfileManager.cs:155-165 | the first system profile of a name takes the first same-named user profile's device only when it has none, and takes its default flag; a profile that absorbs nothing keeps device and flag |
| Profiles.EffectiveProfilesCases | NAPS2.Sdk/Config/ProfileManager.cs:111-142 | covers the four outcomes of GetProfiles: the merged system list, the system list, the user list, or the merged system profiles followed by the remaining user profiles. The last has length the sum of the two, its system profiles are locked, and none is default when a remaining user profile is |
| Profiles.FoldAsWritten | NAPS2.Sdk/Config/ProfileManager.cs:153-171 | the user loop as written; see Findings |
| Profiles.FoldAsWrittenSpec | NAPS2.Sdk/Config/ProfileManager.cs:153-171 | the loop as written throws exactly when some user profile has an unmerged system name, and otherwise agrees with the fold |
| Profiles.MergeAsWrittenSpec | NAPS2.Sdk/Config/ProfileManager.cs:144-172 | the merge as written fails, with the enumerator's message, exactly when some user profile shares a system profile's name, and otherwise equals Merge |
| Profiles.MergeAsWrittenThrows | NAPS2.Sdk/Config/ProfileManager.cs:153-167 | one user copy of the one system profile: as written the merge throws, while Merge folds the copy in and leaves no user profile |
| Profiles.DefaultIndex | NAPS2.Sdk/Config/ProfileManager.cs:68-72 | with exactly one profile it is that one whatever its flag; otherwise there is one exactly when some profile is default, and it is the first |
| Profiles.MergeUserProfilesIntoSystemProfiles | NAPS2.Sdk/Config/ProfileManager.cs:144-172 | the system profile objects end holding Merge's system profiles; the returned user list holds Merge's remaining user profiles, drawn from the user list without repeats |
| Profiles.LockSystemProfiles | NAPS2.Sdk/Config/ProfileManager.cs:146-150 | the first loop leaves every system profile locked and device-locked as LockSystemProfile says |
| Profiles.FoldUserProfiles | NAPS2.Sdk/Config/ProfileManager.cs:152-171 | the second loop leaves the system profiles and the returned user list as FoldUsers describes |
| Profiles.ClearDefaultFlags | NAPS2.Sdk/Config/ProfileManager.cs:136-139 | the loop clears IsDefault on every profile of the list and changes nothing else |
| Profiles.MergeLocked | NAPS2.Sdk/Config/ProfileManager.cs:133-141 | the locked branch yields the merged system profiles, with defaults cleared when a remaining user profile is default, followed by the remaining user profiles, without repeats; every system profile object is in the result |
| Profiles.ProfileManager.constructor | NAPS2.Sdk/Config/ProfileManager.cs:25-33 | a new manager holds the flags and the two files' lists, and nothing is cached |
| Profiles.ProfileManager.Load | NAPS2.Sdk/Config/ProfileManager.cs:90-100 | after Load the cache is set to the effective list, and no profile object outside it has changed; once set, Load changes nothing |
| Profiles.ProfileManager.GetProfiles | NAPS2.Sdk/Config/ProfileManager.cs:111-142 | the returned objects hold EffectiveProfiles of the two files' contents and the flags, without repeats; a profile object not returned is left unchanged |
| Profiles.ProfileManager.Profiles | NAPS2.Sdk/Config/ProfileManager.cs:37-47 | the getter loads the list and returns the cached list; no profile object outside it has changed |
| Profiles.ProfileManager.GetDefaultProfile | NAPS2.Sdk/Config/ProfileManager.cs:61-74 | the getter loads the list and returns the profile DefaultIndex picks, or null; no profile object outside the list has changed |
| Profiles.ProfileManager.SetDefaultProfile | NAPS2.Sdk/Config/ProfileManager.cs:75-87 | afterwards a listed profile is default exactly when it is the value, so exactly one is default when the value is listed; an unlisted non-null value ends with its old data but IsDefault set; no other profile object changes; a null value fails |
| Correction.BinSegments | NAPS2.Images/Bitwise/CorrectionOp.cs:16-20 | segment k is the sum of bins 4k .. 4k+3 |
| Correction.SegmentsPreserveTotal | NAPS2.Images/Bitwise/CorrectionOp.cs:16-20 | the segments add up to the histogram's total |
| Correction.ScanBlack | NAPS2.Images/Bitwise/CorrectionOp.cs:23-25 | the black scan loop stops where BlackSegmentFrom says |
| Correction.ScanWhite | NAPS2.Images/Bitwise/CorrectionOp.cs:26-28 | the white scan loop stops where WhiteSegmentFrom says |
| Correction.ScanBounds | NAPS2.Images/Bitwise/CorrectionOp.cs:23-28 | 0 <= bs <= 62 and 1 <= ws <= 63; every segment before bs (after ws) continues the scan, and the scan stops at bs (ws) unless it ran to the end |
| Correction.CorrectionOp.constructor | NAPS2.Images/Bitwise/CorrectionOp.cs:11-40 | the operation is valid exactly when bs <= 38, ws >= 24 and bs < ws, with white point 236 and black point 72 when valid and 0 otherwise |
| Correction.DocumentMapping | NAPS2.Images/Bitwise/CorrectionOp.cs:70-92 | in Document mode every channel lands in 0 .. 255; values at most 72 map to 0, values at least 236 map to 255, and the mapping never decreases |
| Correction.PhotoMapping | NAPS2.Images/Bitwise/CorrectionOp.cs:94-104 | in Photo mode the divisor is at least 164 and every channel lands in 0 .. 255 |
| Correction.CorrectionOp.CorrectChannels | NAPS2.Images/Bitwise/CorrectionOp.cs:58-104 | the per-pixel arithmetic gives byte values, equal to CorrectPixel |
| Correction.CorrectionOp.CorrectPixelAt | NAPS2.Images/Bitwise/CorrectionOp.cs:65-108 | writing red, green and blue of one pixel leaves the buffer as ApplyAt describes |
| Correction.CorrectionOp.CorrectRow | NAPS2.Images/Bitwise/CorrectionOp.cs:63-109 | the inner loop corrects every pixel of the row, left to right |
| Correction.CorrectionOp.PerformRgba | NAPS2.Images/Bitwise/CorrectionOp.cs:54-111 | the buffer ends as Corrected describes: unchanged when the operation is not valid or partStart >= partEnd, otherwise every pixel of the rows corrected in order |
| Correction.CorrectedAt | NAPS2.Images/Bitwise/CorrectionOp.cs:60-108 | in a usable operation each pixel of the band ends holding CorrectPixel of its original red, green and blue: blue always, green unless it shares blue's offset, red unless it shares an offset with either (blue is written last) |
| Correction.CorrectionOp.PerformCore | NAPS2.Images/Bitwise/CorrectionOp.cs:42-52 | 1, 3 or 4 bytes per pixel run the correction; any other pixel size fails with "Unsupported pixel format" and leaves the buffer unchanged |
| Correction.OnlyChannelBytesChange | NAPS2.Images/Bitwise/CorrectionOp.cs:60-108 | a byte outside the rows, in a row's padding, or at an offset that is not a channel offset (alpha, say) keeps its value |
| Correction.OtherModeKeepsBuffer | NAPS2.Images/Bitwise/CorrectionOp.cs:58-59 | a mode other than Document and Photo leaves the buffer unchanged |

## Left out

- The PDFsharp and Pdfium libraries are foreign code. Left out are their document loading, saving
  (`Save` at PdfExporter.cs:159 and :318), `ImportPages` and `DeletePage`, and what a page draws. A
  document is its sequence of abstract pages, its information and its security settings. `ImportPages`
  is modelled as inserting page 1 of the source at the index; an index past the end is an error
  (`Err("Page index out of range")`).
- The rendering, the pixel format, the image on the page and its size (`DrawImageOnPage`, `GetRealSize`)
  are left out because they are floating point and library code. So are the text geometry
  (`AdjustBounds`, `CalculateFontSize`, the centring offsets). An OCR element's font size is a given integer.
- Grapheme segmentation (`StringInfo.GetTextElementEnumerator`) is left out: an OCR element's text is
  already a sequence of text elements.
- `PdfAHelper`, the creation and modification dates, and the compatibility settings of
  `FinalizeAndSaveDocument` are left out. `PdfAHelper` is not part of this model and the dates are clock
  readings. Only the placeholder part is modelled.
- The concurrency is modelled by the `schedule`:
  - `Task.Run` and the pipelines;
  - the locks;
  - cancellation, progress and the OCR request queue (`HasCachedResult`, `Enqueue`, the temporary file).

  Each pipeline handles its pages in input order. The schedule interleaves the two, and input order of
  the output is proved under the hypothesis that the drawn pages arrive in input order.
- PdfExport.RunPipelines: the image pipeline runs the OCR steps only when there is an engine, as in the
  source. The PDF OCR pipeline always has them, but it only holds pages when there is an engine, so the
  two agree.
- PdfDocuments.IsPdfStorage: `ToLowerInvariant` is modelled on ASCII letters only; other characters cannot
  make ".pdf". `Path.GetExtension` takes '/' and '\\' as separators.
- PdfDocuments.IsWhiteSpace lists the characters `char.IsWhiteSpace` accepts; no Unicode tables are modelled.
- Logging (`Log.Error`, `Console.WriteLine`) is left out, because it changes no state the model has.
- The unsafe pointer arithmetic of `PerformRgba` is modelled as an array of bytes with a stride and offsets.
- `ProfileManager`'s file scopes, its XML serializer, `Save`, the `ProfilesUpdated` event, the locks and
  `Mutate` are left out. They are I/O, events and code not part of this model. The two files' lists are
  given to the constructor, and `File.Exists` is the `userPathExisted` flag.
- Profiles.ProfileManager.SetDefaultProfile: a null value makes the source throw after the flags are
  cleared. Here that is `Fail`; saving the list is not modelled.
- Profiles.MergeUserProfilesIntoSystemProfiles: it walks a snapshot of the user list while removing from
  the live list. That is the evident intent, not the code as written (see Findings).
- PdfExport.Export / PdfDocuments.MergePassthroughPages: when encryption is on and at least one page is
  passed through, the source reloads the saved, encrypted stream in Pdfium without a password
  (PdfExporter.cs:125-131, where a TODO says a password is still needed). Pdfium's behaviour on that
  stream is library code, so the model assumes the reload succeeds. For such files neither success nor
  the security settings chosen by `DocumentSettings` are assured by the source as written.
- Correction.BinSegments: the source's segments are C# 32-bit `int`s (CorrectionOp.cs:16-20). The model
  uses unbounded integers, so it agrees with the source only while each segment's four counts sum below
  2^31; wrap-around beyond that is not modelled.
- PdfExport.ExportPagesSpec: the result is stated as a permutation by page count plus "every image's page
  is present". It is not written with multisets.

## Findings

| source | as written | input that shows it | evidently intended | confidence | as-written member | corrected member |
|---|---|---|---|---|---|---|
| NAPS2.Sdk/Config/ProfileManager.cs:153-167 | the `foreach` over `userProfiles` calls `userProfiles.Remove(profile)`; .NET's list enumerator throws "Collection was modified; enumeration operation may not execute." on the next step, so the merge fails whenever a user profile has a system profile's name | one user profile "Scanner" and one system profile "Scanner", with lockSystemProfiles or noUserProfiles set | walk a copy of the user list, fold each first match into its system profile and drop it from the live list | medium (not executed) | Profiles.MergeAsWrittenThrows | Profiles.MergeFoldsFirstMatch |
