/** PdfExporter.Export (NAPS2.Sdk/ImportExport/Pdf/PdfExporter.cs) run as a
    sequence of steps: classify the input images, decide which PDF pages
    need OCR, draw the pages that are not passed through, finalise the
    document and splice the passthrough pages back in.

    The two drawing pipelines run concurrently in the source, so the order in
    which drawn pages reach the document is not fixed; here it is given by a
    schedule that interleaves the two pipelines. What reading a stored PDF
    gives and what OCR recognises are parameters. */
module PdfExport {
  import opened Wrappers
  import opened Seqs
  import opened OcrText
  import opened PdfDocuments

  /** What the export reads from outside: the installed OCR engine, what
      opening a stored PDF and reading its text gives, and the OCR result for
      an image (None when OCR produced nothing). */
  datatype ExportEnv = ExportEnv(
    installedEngine: Option<OcrEngine>,
    readPdf: ImageStorage -> PdfReadOutcome,
    ocrOf: ProcessedImage -> Option<OcrResult>)

  /** The PDF document a page state may hold open for the OCR check. */
  datatype PageDocument = NoPageDocument | OpenPageDocument | ClosedPageDocument

  // ---------------------------------------------------------------------------
  // Per-page rules

  /** A page may be passed through when it is a stored PDF with no pending transforms. */
  predicate IsCandidate(image: ProcessedImage)
  {
    IsPdfStorage(image.storage) && image.transforms == []
  }

  /** CheckIfOcrNeededStep's verdict: the storage could be opened and no page of it has text. */
  predicate OcrNeeded(storage: ImageStorage, outcome: PdfReadOutcome)
  {
    IsFileOrMemory(storage) && NeedsOcrFor(outcome)
  }

  /** The OCR check only runs when there is an engine. */
  predicate NeedsOcrAt(image: ProcessedImage, engine: Option<OcrEngine>, env: ExportEnv)
  {
    IsCandidate(image) && engine.Some? && OcrNeeded(image.storage, env.readPdf(image.storage))
  }

  predicate IsPassthrough(image: ProcessedImage, engine: Option<OcrEngine>, env: ExportEnv)
  {
    IsCandidate(image) && !NeedsOcrAt(image, engine, env)
  }

  /** The text layer WriteToPdfSharpStep draws for an OCR task: none when no OCR
      ran or it gave no result. */
  function OcrTextOf(task: Option<Option<OcrResult>>): Option<seq<string>>
  {
    if task.Some? && task.value.Some? then Some(TextLayer(task.value.value)) else None
  }

  /** The text layer of a drawn page: OCR runs on every drawn page when there is an engine. */
  function OcrTextFor(image: ProcessedImage, engine: Option<OcrEngine>, ocrOf: ProcessedImage -> Option<OcrResult>): Option<seq<string>>
  {
    OcrTextOf(if engine.Some? then Some(ocrOf(image)) else None)
  }

  /** The output page for input image i. */
  function PageAt(images: seq<ProcessedImage>, engine: Option<OcrEngine>, env: ExportEnv, i: nat): OutPage
    requires i < |images|
  {
    if IsPassthrough(images[i], engine, env) then ImportedPage(i, images[i].storage)
    else DrawnPage(i, OcrTextFor(images[i], engine, env.ocrOf))
  }

  function CandidateMask(images: seq<ProcessedImage>): (r: seq<bool>)
    ensures |r| == |images| && forall i :: 0 <= i < |images| ==> r[i] == IsCandidate(images[i])
  {
    seq(|images|, i requires 0 <= i < |images| => IsCandidate(images[i]))
  }

  function OcrMask(images: seq<ProcessedImage>, engine: Option<OcrEngine>, env: ExportEnv): (r: seq<bool>)
    ensures |r| == |images| && forall i :: 0 <= i < |images| ==> r[i] == NeedsOcrAt(images[i], engine, env)
  {
    seq(|images|, i requires 0 <= i < |images| => NeedsOcrAt(images[i], engine, env))
  }

  function PassMask(images: seq<ProcessedImage>, engine: Option<OcrEngine>, env: ExportEnv): (r: seq<bool>)
    ensures |r| == |images| && forall i :: 0 <= i < |images| ==> r[i] == IsPassthrough(images[i], engine, env)
  {
    seq(|images|, i requires 0 <= i < |images| => IsPassthrough(images[i], engine, env))
  }

  // ---------------------------------------------------------------------------
  // The export as a function of its inputs

  /** The order in which the drawn pages reach the document: the image
      pipeline's pages and the OCR pipeline's pages, each in input order,
      interleaved by the schedule. */
  function DrawOrder(images: seq<ProcessedImage>, engine: Option<OcrEngine>, env: ExportEnv, schedule: seq<bool>): seq<nat>
  {
    Interleave(Positions(CandidateMask(images), false, 0, |images|),
               Positions(OcrMask(images, engine, env), true, 0, |images|), schedule)
  }

  function DrawnPages(images: seq<ProcessedImage>, engine: Option<OcrEngine>, env: ExportEnv, order: seq<nat>): (r: seq<OutPage>)
    requires forall k :: 0 <= k < |order| ==> order[k] < |images|
    ensures |r| == |order|
    ensures forall k :: 0 <= k < |order| ==> r[k] == DrawnPage(order[k], OcrTextFor(images[order[k]], engine, env.ocrOf))
  {
    seq(|order|, k requires 0 <= k < |order| => DrawnPage(order[k], OcrTextFor(images[order[k]], engine, env.ocrOf)))
  }

  function EntriesAt(images: seq<ProcessedImage>, positions: seq<nat>): (r: seq<PassthroughEntry>)
    requires forall k :: 0 <= k < |positions| ==> positions[k] < |images|
    ensures |r| == |positions|
    ensures forall k :: 0 <= k < |positions| ==> r[k] == PassthroughEntry(positions[k], images[positions[k]].storage)
  {
    seq(|positions|, k requires 0 <= k < |positions| => PassthroughEntry(positions[k], images[positions[k]].storage))
  }

  /** The drawn pages in the order they reach the document. */
  function ExportDrawn(images: seq<ProcessedImage>, engine: Option<OcrEngine>, env: ExportEnv, schedule: seq<bool>): seq<OutPage>
  {
    var order := DrawOrder(images, engine, env, schedule);
    InterleaveKeeps(Positions(CandidateMask(images), false, 0, |images|), Positions(OcrMask(images, engine, env), true, 0, |images|), schedule);
    PositionsSpec(CandidateMask(images), false, 0, |images|);
    PositionsSpec(OcrMask(images, engine, env), true, 0, |images|);
    assert forall k :: 0 <= k < |order| ==> order[k] in order;
    DrawnPages(images, engine, env, order)
  }

  /** The passthrough pages, in input order. */
  function ExportEntries(images: seq<ProcessedImage>, engine: Option<OcrEngine>, env: ExportEnv): seq<PassthroughEntry>
  {
    var passed := Positions(PassMask(images, engine, env), true, 0, |images|);
    PositionsSpec(PassMask(images, engine, env), true, 0, |images|);
    assert forall k :: 0 <= k < |passed| ==> passed[k] in passed;
    EntriesAt(images, passed)
  }

  /** The pages Export writes, or the exception it throws. */
  function ExportPages(images: seq<ProcessedImage>, ocrParams: Option<OcrParams>, env: ExportEnv, schedule: seq<bool>): Result<seq<OutPage>>
  {
    var engine := GetOcrEngine(ocrParams, env.installedEngine);
    var drawn := ExportDrawn(images, engine, env, schedule);
    var placeholderPage := drawn == [];
    MergedPages(if placeholderPage then [PlaceholderPage] else drawn, placeholderPage, ExportEntries(images, engine, env))
  }

  // ---------------------------------------------------------------------------
  // What the export promises

  /** The classification splits the input positions: each is in exactly one of
      the two lists, the PDF list holds the stored PDFs without transforms, and
      both lists are in input order. */
  lemma ClassificationPartition(images: seq<ProcessedImage>)
    ensures var pdf := Positions(CandidateMask(images), true, 0, |images|);
            var img := Positions(CandidateMask(images), false, 0, |images|);
            |pdf| + |img| == |images|
            && (forall i: nat :: i in pdf <==> i < |images| && IsCandidate(images[i]))
            && (forall i: nat :: i in img <==> i < |images| && !IsCandidate(images[i]))
            && Increasing(pdf) && Increasing(img)
  {
    PositionsSpec(CandidateMask(images), true, 0, |images|);
    PositionsSpec(CandidateMask(images), false, 0, |images|);
    PositionsCount(CandidateMask(images), 0, |images|);
  }

  /** Every input position is drawn or passed through, never both: the draw
      order holds exactly the positions that are not passed through, each once. */
  lemma DrawOrderCovers(images: seq<ProcessedImage>, engine: Option<OcrEngine>, env: ExportEnv, schedule: seq<bool>)
    ensures |DrawOrder(images, engine, env, schedule)| + |Positions(PassMask(images, engine, env), true, 0, |images|)| == |images|
    ensures forall i: nat :: i in DrawOrder(images, engine, env, schedule) <==> i < |images| && !IsPassthrough(images[i], engine, env)
    ensures forall k :: 0 <= k < |DrawOrder(images, engine, env, schedule)| ==> DrawOrder(images, engine, env, schedule)[k] < |images|
    ensures Increasing(DrawOrder(images, engine, env, schedule)) ==>
              DrawOrder(images, engine, env, schedule) == Positions(PassMask(images, engine, env), false, 0, |images|)
  {
    var cand, ocr, pass := CandidateMask(images), OcrMask(images, engine, env), PassMask(images, engine, env);
    var order := DrawOrder(images, engine, env, schedule);
    InterleaveKeeps(Positions(cand, false, 0, |images|), Positions(ocr, true, 0, |images|), schedule);
    MergedPositions(cand, ocr, pass, order);
    assert forall k :: 0 <= k < |order| ==> order[k] in order;
    if Increasing(order) {
      SortedPositions(pass, order);
    }
  }

  lemma ExportDrawnIndices(images: seq<ProcessedImage>, engine: Option<OcrEngine>, env: ExportEnv, schedule: seq<bool>)
    ensures SourceIndices(ExportDrawn(images, engine, env, schedule)) == DrawOrder(images, engine, env, schedule)
  {
  }

  lemma ExportEntriesIndices(images: seq<ProcessedImage>, engine: Option<OcrEngine>, env: ExportEnv)
    ensures EntryIndices(ExportEntries(images, engine, env)) == Positions(PassMask(images, engine, env), true, 0, |images|)
    ensures forall k :: 0 <= k < |ExportEntries(images, engine, env)| ==> Importable(ExportEntries(images, engine, env)[k])
  {
    var passed := Positions(PassMask(images, engine, env), true, 0, |images|);
    PositionsSpec(PassMask(images, engine, env), true, 0, |images|);
    assert forall k :: 0 <= k < |passed| ==> passed[k] in passed;
  }

  /** With at least one image, the export is the import of the passthrough
      pages into the drawn pages; the placeholder page only matters when
      nothing is drawn, and is then removed again. */
  lemma ExportAsImport(images: seq<ProcessedImage>, ocrParams: Option<OcrParams>, env: ExportEnv, schedule: seq<bool>)
    ensures |images| == 0 ==> ExportPages(images, ocrParams, env, schedule) == Err("No pages to save")
    ensures |images| > 0 ==>
              ExportPages(images, ocrParams, env, schedule) ==
              ImportAll(ExportDrawn(images, GetOcrEngine(ocrParams, env.installedEngine), env, schedule),
                        ExportEntries(images, GetOcrEngine(ocrParams, env.installedEngine), env))
  {
    var engine := GetOcrEngine(ocrParams, env.installedEngine);
    var order := DrawOrder(images, engine, env, schedule);
    var pass := PassMask(images, engine, env);
    DrawOrderCovers(images, engine, env, schedule);
  }

  /** Export fails exactly when there are no images, with "No pages to save";
      otherwise it writes one page per image and every image's page is there:
      a drawn page (with OCR text when OCR ran and gave a result) or the
      imported original. */
  lemma ExportPagesSpec(images: seq<ProcessedImage>, ocrParams: Option<OcrParams>, env: ExportEnv, schedule: seq<bool>)
    ensures var r := ExportPages(images, ocrParams, env, schedule);
      && (r.Err? <==> |images| == 0)
      && (r.Err? ==> r.message == "No pages to save")
      && (r.Ok? ==> |r.value| == |images|)
      && (r.Ok? ==> forall i :: 0 <= i < |images| ==> PageAt(images, GetOcrEngine(ocrParams, env.installedEngine), env, i) in r.value)
  {
    var n := |images|;
    var engine := GetOcrEngine(ocrParams, env.installedEngine);
    ExportAsImport(images, ocrParams, env, schedule);
    if n > 0 {
      var drawn := ExportDrawn(images, engine, env, schedule);
      var entries := ExportEntries(images, engine, env);
      var pass := PassMask(images, engine, env);
      DrawOrderCovers(images, engine, env, schedule);
      PositionsCount(pass, 0, n);
      ExportEntriesIndices(images, engine, env);
      ImportKeepsEveryPage(drawn, entries, pass, 0);
      EveryPagePresent(images, engine, env, schedule, ImportAll(drawn, entries).value);
    }
  }

  /** Pages that hold every drawn page and every passthrough page hold the
      page of every image. */
  lemma EveryPagePresent(images: seq<ProcessedImage>, engine: Option<OcrEngine>, env: ExportEnv, schedule: seq<bool>, pages: seq<OutPage>)
    requires forall p :: p in ExportDrawn(images, engine, env, schedule) ==> p in pages
    requires forall e :: e in ExportEntries(images, engine, env) ==> ImportedPage(e.pageIndex, e.storage) in pages
    ensures forall i :: 0 <= i < |images| ==> PageAt(images, engine, env, i) in pages
  {
    var n := |images|;
    var order := DrawOrder(images, engine, env, schedule);
    var drawn := ExportDrawn(images, engine, env, schedule);
    var entries := ExportEntries(images, engine, env);
    var pass := PassMask(images, engine, env);
    DrawOrderCovers(images, engine, env, schedule);
    PositionsSpec(pass, true, 0, n);
    forall i | 0 <= i < n
      ensures PageAt(images, engine, env, i) in pages
    {
      if IsPassthrough(images[i], engine, env) {
        var k :| 0 <= k < |entries| && Positions(pass, true, 0, n)[k] == i;
        assert entries[k] in entries;
      } else {
        var k :| 0 <= k < |order| && order[k] == i;
        assert drawn[k] in drawn;
      }
    }
  }

  /** Pages numbered 0, 1, ... that hold every image's page are the images' pages in order. */
  lemma PagesInOrder(pages: seq<OutPage>, images: seq<ProcessedImage>, engine: Option<OcrEngine>, env: ExportEnv)
    requires SourceIndices(pages) == Range(0, |images|)
    requires forall i :: 0 <= i < |images| ==> PageAt(images, engine, env, i) in pages
    ensures pages == seq(|images|, i requires 0 <= i < |images| => PageAt(images, engine, env, i))
  {
    RangeIndex(0, |images|);
    forall i | 0 <= i < |images|
      ensures pages[i] == PageAt(images, engine, env, i)
    {
      var m :| 0 <= m < |pages| && pages[m] == PageAt(images, engine, env, i);
      assert SourceIndices(pages)[m] == i;
    }
  }

  /** When each pipeline's pages reach the document in input order and the
      two pipelines' pages interleave in input order too, the exported pages
      are in input order: page i is image i's page. */
  lemma ExportKeepsInputOrder(images: seq<ProcessedImage>, ocrParams: Option<OcrParams>, env: ExportEnv, schedule: seq<bool>)
    requires Increasing(DrawOrder(images, GetOcrEngine(ocrParams, env.installedEngine), env, schedule))
    ensures var r := ExportPages(images, ocrParams, env, schedule);
      r.Ok? ==> r.value == seq(|images|, i requires 0 <= i < |images| => PageAt(images, GetOcrEngine(ocrParams, env.installedEngine), env, i))
  {
    var engine := GetOcrEngine(ocrParams, env.installedEngine);
    ExportAsImport(images, ocrParams, env, schedule);
    ExportPagesSpec(images, ocrParams, env, schedule);
    if |images| > 0 {
      var drawn := ExportDrawn(images, engine, env, schedule);
      var entries := ExportEntries(images, engine, env);
      DrawOrderCovers(images, engine, env, schedule);
      ExportDrawnIndices(images, engine, env, schedule);
      ExportEntriesIndices(images, engine, env);
      ImportInInputOrder(drawn, entries, PassMask(images, engine, env), 0);
      PagesInOrder(ImportAll(drawn, entries).value, images, engine, env);
    }
  }

  /** Without an OCR engine no PDF page is checked for text: every stored PDF
      without transforms is passed through, everything else is drawn without
      a text layer, and the pages come out in input order. */
  lemma NoEngineInInputOrder(images: seq<ProcessedImage>, ocrParams: Option<OcrParams>, env: ExportEnv, schedule: seq<bool>)
    requires GetOcrEngine(ocrParams, env.installedEngine).None?
    ensures Increasing(DrawOrder(images, None, env, schedule))
    ensures forall i :: 0 <= i < |images| ==>
              PageAt(images, None, env, i) == if IsCandidate(images[i]) then ImportedPage(i, images[i].storage) else DrawnPage(i, None)
  {
    var n := |images|;
    var ocr := OcrMask(images, None, env);
    PositionsSpec(ocr, true, 0, n);
    SameElementsEmpty(Positions(ocr, true, 0, n), []);
    InterleaveEmpty(Positions(CandidateMask(images), false, 0, n), schedule);
    PositionsSpec(CandidateMask(images), false, 0, n);
  }

  // ---------------------------------------------------------------------------
  // Page states

  /** PageExportState: what the pipelines know about one input image. */
  class PageExportState {
    const image: ProcessedImage
    const pageIndex: nat
    const document: PdfSharpDocument
    const ocrEngine: Option<OcrEngine>
    const ocrParams: Option<OcrParams>
    const compat: PdfCompat
    var needsOcr: bool
    /** Whether RenderStep has produced the rendered stream. */
    var rendered: bool
    /** None until InitOcrStep starts OCR; then the result OCR gives, if any. */
    var ocrTask: Option<Option<OcrResult>>
    var pageDocument: PageDocument

    constructor (image: ProcessedImage, pageIndex: nat, document: PdfSharpDocument, ocrEngine: Option<OcrEngine>,
                 ocrParams: Option<OcrParams>, compat: PdfCompat)
      ensures this.image == image && this.pageIndex == pageIndex && this.document == document
      ensures this.ocrEngine == ocrEngine && this.ocrParams == ocrParams && this.compat == compat
      ensures !needsOcr && !rendered && ocrTask.None? && pageDocument == NoPageDocument
    {
      this.image := image;
      this.pageIndex := pageIndex;
      this.document := document;
      this.ocrEngine := ocrEngine;
      this.ocrParams := ocrParams;
      this.compat := compat;
      needsOcr := false;
      rendered := false;
      ocrTask := None;
      pageDocument := NoPageDocument;
    }

    /** CheckIfOcrNeededStep: a file or memory PDF is opened and its text
        read; the page needs OCR when no page of it has text. When opening or
        reading fails the flag is left as it was. A page that does not need
        OCR has its document closed. */
    method CheckIfOcrNeeded(outcome: PdfReadOutcome)
      modifies this
      ensures needsOcr == if IsFileOrMemory(image.storage) && outcome.PageTexts? then NeedsOcrFor(outcome) else old(needsOcr)
      ensures !old(needsOcr) ==> needsOcr == OcrNeeded(image.storage, outcome)
      ensures old(pageDocument) == NoPageDocument ==>
                (pageDocument == OpenPageDocument <==> needsOcr && IsFileOrMemory(image.storage) && !outcome.OpenFailed?)
      ensures !needsOcr ==> pageDocument != OpenPageDocument
      ensures rendered == old(rendered) && ocrTask == old(ocrTask)
    {
      if image.storage.FileStorage? || image.storage.MemoryStorage? {
        if !outcome.OpenFailed? {
          pageDocument := OpenPageDocument;
          if outcome.PageTexts? {
            var texts := outcome.texts;
            var anyContent := false;
            var k := 0;
            while k < |texts|
              invariant 0 <= k <= |texts|
              invariant anyContent <==> exists j :: 0 <= j < k && HasContent(texts[j])
            {
              if |Trim(texts[k])| > 0 {
                anyContent := true;
              }
              k := k + 1;
            }
            needsOcr := !anyContent;
          }
        }
      }
      if !needsOcr && pageDocument == OpenPageDocument {
        pageDocument := ClosedPageDocument;
      }
    }

    /** RenderStep; the rendering itself is not modelled. */
    method Render()
      modifies this
      ensures rendered && needsOcr == old(needsOcr) && ocrTask == old(ocrTask) && pageDocument == old(pageDocument)
    {
      rendered := true;
    }

    /** InitOcrStep and WaitForOcrStep: OCR's result for this image. */
    method InitOcr(result: Option<OcrResult>)
      modifies this
      ensures ocrTask == Some(result)
      ensures rendered == old(rendered) && needsOcr == old(needsOcr) && pageDocument == old(pageDocument)
    {
      ocrTask := Some(result);
    }

    /** WriteToPdfSharpStep: append the drawn page, with the OCR text layer
        when OCR gave a result. */
    method WriteToPdfSharp()
      requires rendered
      modifies document
      ensures document.pages == old(document.pages) + [DrawnPage(pageIndex, OcrTextOf(ocrTask))]
      ensures document.info == old(document.info) && document.security == old(document.security)
    {
      var text: Option<seq<string>> := None;
      if ocrTask.Some? && ocrTask.value.Some? {
        var drawn := DrawOcrTextOnPage(ocrTask.value.value);
        text := Some(drawn);
      }
      document.AddPage(DrawnPage(pageIndex, text));
    }
  }

  function PageIndices(states: seq<PageExportState>): (r: seq<nat>)
    ensures |r| == |states| && forall k :: 0 <= k < |states| ==> r[k] == states[k].pageIndex
  {
    seq(|states|, k requires 0 <= k < |states| => states[k].pageIndex)
  }

  lemma PageIndicesSnoc(states: seq<PageExportState>, s: PageExportState)
    ensures PageIndices(states + [s]) == PageIndices(states) + [s.pageIndex]
  {
    assert PageIndices(states + [s]) == PageIndices(states) + [s.pageIndex];
  }

  lemma {:induction false} InterleaveIndices(a: seq<PageExportState>, b: seq<PageExportState>, schedule: seq<bool>)
    ensures PageIndices(Interleave(a, b, schedule)) == Interleave(PageIndices(a), PageIndices(b), schedule)
    decreases |a| + |b|
  {
    if a == [] || b == [] {
    } else if schedule == [] {
      assert PageIndices(a + b) == PageIndices(a) + PageIndices(b);
    } else if schedule[0] {
      InterleaveIndices(a[1..], b, schedule[1..]);
      assert PageIndices(a[1..]) == PageIndices(a)[1..];
    } else {
      InterleaveIndices(a, b[1..], schedule[1..]);
      assert PageIndices(b[1..]) == PageIndices(b)[1..];
    }
  }

  /** Interleaving takes every state from one of the two pipelines. */
  lemma {:induction false} InterleaveMembers(a: seq<PageExportState>, b: seq<PageExportState>, schedule: seq<bool>)
    ensures forall s :: s in Interleave(a, b, schedule) ==> s in a || s in b
    decreases |a| + |b|
  {
    if a == [] || b == [] || schedule == [] {
    } else if schedule[0] {
      InterleaveMembers(a[1..], b, schedule[1..]);
    } else {
      InterleaveMembers(a, b[1..], schedule[1..]);
    }
  }

  /** The pages the pipelines append for the given states. */
  function DrawnFor(states: seq<PageExportState>, engine: Option<OcrEngine>, ocrOf: ProcessedImage -> Option<OcrResult>): (r: seq<OutPage>)
    ensures |r| == |states|
    ensures forall k :: 0 <= k < |states| ==> r[k] == DrawnPage(states[k].pageIndex, OcrTextFor(states[k].image, engine, ocrOf))
  {
    seq(|states|, k requires 0 <= k < |states| => DrawnPage(states[k].pageIndex, OcrTextFor(states[k].image, engine, ocrOf)))
  }

  function EntriesFor(states: seq<PageExportState>): (r: seq<PassthroughEntry>)
    ensures |r| == |states|
    ensures forall k :: 0 <= k < |states| ==> r[k] == PassthroughEntry(states[k].pageIndex, states[k].image.storage)
  {
    seq(|states|, k requires 0 <= k < |states| => PassthroughEntry(states[k].pageIndex, states[k].image.storage))
  }

  /** Every state belongs to the image list it was made for. */
  predicate Describes(states: seq<PageExportState>, images: seq<ProcessedImage>)
  {
    forall s :: s in states ==> s.pageIndex < |images| && s.image == images[s.pageIndex]
  }

  lemma DescribesSnoc(states: seq<PageExportState>, s: PageExportState, images: seq<ProcessedImage>)
    requires Describes(states, images)
    requires s.pageIndex < |images| && s.image == images[s.pageIndex]
    ensures Describes(states + [s], images)
    ensures forall x :: x in states + [s] ==> x in states || x == s
  {
  }

  // ---------------------------------------------------------------------------
  // The steps of Export

  /** A state as the classification loop leaves it. */
  predicate Unchecked(s: PageExportState, document: PdfSharpDocument, engine: Option<OcrEngine>)
    reads s
  {
    s.document == document && s.ocrEngine == engine && !s.needsOcr && !s.rendered && s.ocrTask.None?
  }

  /** The classification loop of Export: one state per image, numbered by
      input position, into the PDF list when the image is a stored PDF with
      no transforms and into the image list otherwise. */
  method ClassifyPages(images: seq<ProcessedImage>, document: PdfSharpDocument, engine: Option<OcrEngine>,
                       ocrParams: Option<OcrParams>, compat: PdfCompat)
    returns (imagePages: seq<PageExportState>, pdfPages: seq<PageExportState>)
    ensures PageIndices(imagePages) == Positions(CandidateMask(images), false, 0, |images|)
    ensures PageIndices(pdfPages) == Positions(CandidateMask(images), true, 0, |images|)
    ensures Describes(imagePages, images) && Describes(pdfPages, images)
    ensures forall s :: s in imagePages ==> fresh(s) && Unchecked(s, document, engine)
    ensures forall s :: s in pdfPages ==> fresh(s) && Unchecked(s, document, engine)
  {
    ghost var mask := CandidateMask(images);
    imagePages, pdfPages := [], [];
    var pageIndex := 0;
    while pageIndex < |images|
      invariant 0 <= pageIndex <= |images|
      invariant PageIndices(imagePages) == Positions(mask, false, 0, pageIndex)
      invariant PageIndices(pdfPages) == Positions(mask, true, 0, pageIndex)
      invariant Describes(imagePages, images) && Describes(pdfPages, images)
      invariant forall s :: s in imagePages ==> fresh(s) && Unchecked(s, document, engine)
      invariant forall s :: s in pdfPages ==> fresh(s) && Unchecked(s, document, engine)
    {
      var image := images[pageIndex];
      var pageState := new PageExportState(image, pageIndex, document, engine, ocrParams, compat);
      PositionsSnoc(mask, true, 0, pageIndex);
      PositionsSnoc(mask, false, 0, pageIndex);
      if IsPdfStorage(image.storage) && image.transforms == [] {
        assert mask[pageIndex];
        PageIndicesSnoc(pdfPages, pageState);
        DescribesSnoc(pdfPages, pageState, images);
        pdfPages := pdfPages + [pageState];
      } else {
        assert !mask[pageIndex];
        PageIndicesSnoc(imagePages, pageState);
        DescribesSnoc(imagePages, pageState, images);
        imagePages := imagePages + [pageState];
      }
      pageIndex := pageIndex + 1;
    }
  }

  /** The pre-pipeline: the OCR check on every PDF page. */
  method CheckPdfPages(pdfPages: seq<PageExportState>, readPdf: ImageStorage -> PdfReadOutcome)
    requires forall s :: s in pdfPages ==> !s.needsOcr
    modifies set s | s in pdfPages
    ensures forall s :: s in pdfPages ==> s.needsOcr == OcrNeeded(s.image.storage, readPdf(s.image.storage))
    ensures forall s :: s in pdfPages ==> s.ocrTask == old(s.ocrTask) && s.rendered == old(s.rendered)
  {
    var j := 0;
    while j < |pdfPages|
      invariant 0 <= j <= |pdfPages|
      invariant forall s :: s in pdfPages ==> s.needsOcr ==> OcrNeeded(s.image.storage, readPdf(s.image.storage))
      invariant forall k :: 0 <= k < j ==> pdfPages[k].needsOcr == OcrNeeded(pdfPages[k].image.storage, readPdf(pdfPages[k].image.storage))
      invariant forall s :: s in pdfPages ==> s.ocrTask == old(s.ocrTask) && s.rendered == old(s.rendered)
    {
      var state := pdfPages[j];
      state.CheckIfOcrNeeded(readPdf(state.image.storage));
      j := j + 1;
    }
  }

  /** pdfPages.Where(x => x.NeedsOcr == wantOcr). */
  method SelectPages(pages: seq<PageExportState>, wantOcr: bool, ghost mask: seq<bool>) returns (selected: seq<PageExportState>)
    requires forall s :: s in pages ==> s.pageIndex < |mask| && ((s.needsOcr == wantOcr) <==> mask[s.pageIndex])
    ensures PageIndices(selected) == Filter(PageIndices(pages), mask)
    ensures forall s :: s in selected ==> s in pages
  {
    selected := [];
    var j := 0;
    while j < |pages|
      invariant 0 <= j <= |pages|
      invariant PageIndices(selected) == Filter(PageIndices(pages[..j]), mask)
      invariant forall s :: s in selected ==> s in pages
    {
      var state := pages[j];
      assert state in pages;
      assert pages[..j + 1] == pages[..j] + [state];
      SelectStep(pages[..j], state, selected, mask);
      if state.needsOcr == wantOcr {
        selected := selected + [state];
      }
      j := j + 1;
    }
    assert pages[..j] == pages;
  }

  /** One step of SelectPages: the next state is kept exactly when the mask
      holds at its position. */
  lemma SelectStep(prefix: seq<PageExportState>, state: PageExportState, selected: seq<PageExportState>, mask: seq<bool>)
    requires PageIndices(selected) == Filter(PageIndices(prefix), mask)
    requires state.pageIndex < |mask|
    ensures PageIndices(selected + (if mask[state.pageIndex] then [state] else [])) == Filter(PageIndices(prefix + [state]), mask)
  {
    PageIndicesSnoc(prefix, state);
    PageIndicesSnoc(selected, state);
    assert PageIndices(selected + []) == PageIndices(selected);
    assert PageIndices(prefix + [state])[..|prefix|] == PageIndices(prefix);
  }

  /** The drawing pipelines: every page in the order given is rendered, OCRed
      when there is an engine, and appended to the document. */
  method RunPipelines(order: seq<PageExportState>, document: PdfSharpDocument, engine: Option<OcrEngine>,
                      ocrOf: ProcessedImage -> Option<OcrResult>)
    requires forall s :: s in order ==> s.document == document && (engine.None? ==> s.ocrTask.None?)
    modifies document, set s | s in order
    ensures document.pages == old(document.pages) + DrawnFor(order, engine, ocrOf)
    ensures document.info == old(document.info) && document.security == old(document.security)
    ensures forall s :: s in order ==> s.needsOcr == old(s.needsOcr)
  {
    var j := 0;
    while j < |order|
      invariant 0 <= j <= |order|
      invariant document.pages == old(document.pages) + DrawnFor(order[..j], engine, ocrOf)
      invariant document.info == old(document.info) && document.security == old(document.security)
      invariant forall s :: s in order ==> s.needsOcr == old(s.needsOcr) && (engine.None? ==> s.ocrTask.None?)
    {
      var state := order[j];
      state.Render();
      if engine.Some? {
        state.InitOcr(ocrOf(state.image));
      }
      state.WriteToPdfSharp();
      assert order[..j + 1] == order[..j] + [state];
      assert DrawnFor(order[..j + 1], engine, ocrOf) == DrawnFor(order[..j], engine, ocrOf) + [DrawnPage(state.pageIndex, OcrTextFor(state.image, engine, ocrOf))];
      j := j + 1;
    }
    assert order[..j] == order;
  }

  /** DrawFor over states that belong to the images is the drawn pages at their indices. */
  lemma DrawnForIndices(states: seq<PageExportState>, images: seq<ProcessedImage>, engine: Option<OcrEngine>, env: ExportEnv)
    requires Describes(states, images)
    ensures forall k :: 0 <= k < |states| ==> PageIndices(states)[k] < |images|
    ensures DrawnFor(states, engine, env.ocrOf) == DrawnPages(images, engine, env, PageIndices(states))
  {
    assert forall k :: 0 <= k < |states| ==> states[k] in states;
  }

  lemma EntriesForIndices(states: seq<PageExportState>, images: seq<ProcessedImage>)
    requires Describes(states, images)
    ensures forall k :: 0 <= k < |states| ==> PageIndices(states)[k] < |images|
    ensures EntriesFor(states) == EntriesAt(images, PageIndices(states))
  {
    assert forall k :: 0 <= k < |states| ==> states[k] in states;
  }

  lemma PageIndicesHas(states: seq<PageExportState>)
    ensures forall s :: s in states ==> s.pageIndex in PageIndices(states)
  {
    forall s | s in states ensures s.pageIndex in PageIndices(states) {
      var k :| 0 <= k < |states| && states[k] == s;
      assert PageIndices(states)[k] == s.pageIndex;
    }
  }

  /** The pre-pipeline and the choice of the OCR pipeline's pages: with an
      engine the PDF pages are checked for text; those that need OCR go to the
      OCR pipeline, in input order. */
  method CheckAndSelect(images: seq<ProcessedImage>, pdfPages: seq<PageExportState>, document: PdfSharpDocument,
                        engine: Option<OcrEngine>, env: ExportEnv) returns (ocrPdfPages: seq<PageExportState>)
    requires PageIndices(pdfPages) == Positions(CandidateMask(images), true, 0, |images|)
    requires Describes(pdfPages, images)
    requires forall s :: s in pdfPages ==> Unchecked(s, document, engine)
    modifies set s | s in pdfPages
    ensures PageIndices(ocrPdfPages) == Positions(OcrMask(images, engine, env), true, 0, |images|)
    ensures forall s :: s in ocrPdfPages ==> s in pdfPages
    ensures forall s :: s in pdfPages ==>
              s.needsOcr == NeedsOcrAt(s.image, engine, env) && s.document == document && s.ocrTask.None?
  {
    if engine.Some? {
      CheckPdfPages(pdfPages, env.readPdf);
    }
    PageIndicesHas(pdfPages);
    PositionsSpec(CandidateMask(images), true, 0, |images|);
    ocrPdfPages := SelectPages(pdfPages, true, OcrMask(images, engine, env));
    FilterPositions(CandidateMask(images), OcrMask(images, engine, env), 0, |images|);
  }

  /** The two drawing pipelines, their pages interleaved by the schedule. */
  method DrawPages(images: seq<ProcessedImage>, imagePages: seq<PageExportState>, ocrPdfPages: seq<PageExportState>,
                   document: PdfSharpDocument, engine: Option<OcrEngine>, env: ExportEnv, schedule: seq<bool>)
    requires PageIndices(imagePages) == Positions(CandidateMask(images), false, 0, |images|)
    requires PageIndices(ocrPdfPages) == Positions(OcrMask(images, engine, env), true, 0, |images|)
    requires Describes(imagePages, images) && Describes(ocrPdfPages, images)
    requires forall s :: s in imagePages || s in ocrPdfPages ==> s.document == document && (engine.None? ==> s.ocrTask.None?)
    modifies document, set s | s in imagePages || s in ocrPdfPages
    ensures document.pages == old(document.pages) + ExportDrawn(images, engine, env, schedule)
    ensures document.info == old(document.info) && document.security == old(document.security)
    ensures forall s :: s in imagePages || s in ocrPdfPages ==> s.needsOcr == old(s.needsOcr)
  {
    var order := Interleave(imagePages, ocrPdfPages, schedule);
    InterleaveMembers(imagePages, ocrPdfPages, schedule);
    InterleaveIndices(imagePages, ocrPdfPages, schedule);
    RunPipelines(order, document, engine, env.ocrOf);
    DrawnForIndices(order, images, engine, env);
  }

  /** The passthrough pages: the PDF pages that do not need OCR, in input order. */
  method PassthroughEntries(images: seq<ProcessedImage>, pdfPages: seq<PageExportState>, engine: Option<OcrEngine>, env: ExportEnv)
    returns (entries: seq<PassthroughEntry>)
    requires PageIndices(pdfPages) == Positions(CandidateMask(images), true, 0, |images|)
    requires Describes(pdfPages, images)
    requires forall s :: s in pdfPages ==> s.needsOcr == NeedsOcrAt(s.image, engine, env)
    ensures entries == ExportEntries(images, engine, env)
  {
    PageIndicesHas(pdfPages);
    PositionsSpec(CandidateMask(images), true, 0, |images|);
    var passthroughPages := SelectPages(pdfPages, false, PassMask(images, engine, env));
    FilterPositions(CandidateMask(images), PassMask(images, engine, env), 0, |images|);
    EntriesForIndices(passthroughPages, images);
    entries := EntriesFor(passthroughPages);
  }

  /** PdfExporter.Export: classify, check the PDF pages for text when there is
      an OCR engine, run the drawing pipelines, finalise, then import the
      passthrough pages. The result is the one ExportPages describes, with the
      document settings InitializeDocument chose. */
  method Export(images: seq<ProcessedImage>, exportParams: PdfExportParams, ocrParams: Option<OcrParams>,
                env: ExportEnv, schedule: seq<bool>) returns (r: Result<PdfFile>)
    ensures r.Ok? <==> ExportPages(images, ocrParams, env, schedule).Ok?
    ensures r.Ok? ==> r.value == PdfFile(ExportPages(images, ocrParams, env, schedule).value, InfoFor(exportParams), SecurityFor(exportParams))
    ensures r.Err? ==> r.message == ExportPages(images, ocrParams, env, schedule).message
  {
    var document := InitializeDocument(exportParams);
    var engine := GetOcrEngine(ocrParams, env.installedEngine);
    var imagePages, pdfPages := ClassifyPages(images, document, engine, ocrParams, exportParams.compat);
    var ocrPdfPages := CheckAndSelect(images, pdfPages, document, engine, env);
    DrawPages(images, imagePages, ocrPdfPages, document, engine, env, schedule);
    ghost var drawn := ExportDrawn(images, engine, env, schedule);
    assert document.pages == drawn;
    var saved, placeholderPage := FinalizeAndSaveDocument(document);
    var entries := PassthroughEntries(images, pdfPages, engine, env);
    assert MergedPages(saved.pages, placeholderPage, entries) == ExportPages(images, ocrParams, env, schedule);
    r := MergePassthroughPages(saved, entries, placeholderPage);
  }
}
