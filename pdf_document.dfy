/** The document side of PDF export (NAPS2.Sdk/ImportExport/Pdf/PdfExporter.cs):
    which stored images are PDF pages, whether a PDF page already carries text,
    the choice of OCR engine, the new document's metadata and encryption, the
    placeholder page, and the splice of passthrough pages into the saved file.

    A PDF document is modelled as its sequence of pages plus its information
    and security settings; what a page draws is not modelled. */
module PdfDocuments {
  import opened Wrappers
  import opened Seqs

  // ---------------------------------------------------------------------------
  // Stored images

  /** Where an image lives: a file, an in-memory stream with an optional type
      hint such as ".pdf", or some other storage. */
  datatype ImageStorage = FileStorage(fullPath: string) | MemoryStorage(typeHint: Option<string>) | OtherStorage

  datatype Transform = Transform(name: string)

  /** An image and the transforms still to be applied to it; an empty list is TransformState.Empty. */
  datatype ProcessedImage = ProcessedImage(storage: ImageStorage, transforms: seq<Transform>)

  predicate IsSeparator(c: char)
  {
    c == '/' || c == '\\'
  }

  /** Position of the last '.' in path[..i] that comes after the last separator. */
  function LastDot(path: string, i: nat): (r: Option<nat>)
    requires i <= |path|
    ensures r.Some? ==> r.value < i && path[r.value] == '.'
    ensures r.Some? ==> forall k :: r.value < k < i ==> path[k] != '.' && !IsSeparator(path[k])
    decreases i
  {
    if i == 0 then None
    else if path[i - 1] == '.' then Some(i - 1)
    else if IsSeparator(path[i - 1]) then None
    else LastDot(path, i - 1)
  }

  /** Path.GetExtension: from the last '.' of the file name to the end, or
      empty when there is no '.' or it is the last character. */
  function GetExtension(path: string): string
  {
    match LastDot(path, |path|)
    case Some(d) => if d != |path| - 1 then path[d..] else ""
    case None => ""
  }

  function LowerChar(c: char): char
  {
    if 'A' <= c <= 'Z' then (c as int + 32) as char else c
  }

  /** ToLowerInvariant on the ASCII letters. */
  function Lower(s: string): (r: string)
    ensures |r| == |s| && forall k :: 0 <= k < |s| ==> r[k] == LowerChar(s[k])
  {
    if s == [] then [] else [LowerChar(s[0])] + Lower(s[1..])
  }

  predicate IsFileOrMemory(storage: ImageStorage)
  {
    storage.FileStorage? || storage.MemoryStorage?
  }

  predicate IsPdfStorage(storage: ImageStorage)
  {
    match storage
    case FileStorage(path) => Lower(GetExtension(path)) == ".pdf"
    case MemoryStorage(hint) => hint == Some(".pdf")
    case OtherStorage => false
  }

  /** A stored file is a PDF exactly when its name ends in ".pdf" in any mix of case. */
  lemma PdfFileNames(path: string)
    ensures IsPdfStorage(FileStorage(path)) <==> |path| >= 4 && Lower(path[|path| - 4..]) == ".pdf"
  {
    var n := |path|;
    if n >= 4 && Lower(path[n - 4..]) == ".pdf" {
      assert LowerChar(path[n - 4]) == '.' && LowerChar(path[n - 3]) == 'p';
      assert LowerChar(path[n - 2]) == 'd' && LowerChar(path[n - 1]) == 'f';
      assert path[n - 4] == '.';
      assert path[n - 3] in "pP" && path[n - 2] in "dD" && path[n - 1] in "fF";
      assert LastDot(path, n - 3) == Some(n - 4);
      assert LastDot(path, n - 2) == Some(n - 4);
      assert LastDot(path, n - 1) == Some(n - 4);
      assert LastDot(path, n) == Some(n - 4);
      assert GetExtension(path) == path[n - 4..];
    }
    if IsPdfStorage(FileStorage(path)) {
      var d := LastDot(path, n).value;
      assert GetExtension(path) == path[d..];
      assert |path[d..]| == 4;
    }
  }

  // ---------------------------------------------------------------------------
  // Does a PDF page already carry text?

  /** char.IsWhiteSpace. */
  predicate IsWhiteSpace(c: char)
  {
    var n := c as int;
    (0x09 <= n <= 0x0D) || n == 0x20 || n == 0x85 || n == 0xA0 || n == 0x1680
    || (0x2000 <= n <= 0x200A) || n == 0x2028 || n == 0x2029 || n == 0x202F || n == 0x205F || n == 0x3000
  }

  function TrimStart(s: string): string
  {
    if s != [] && IsWhiteSpace(s[0]) then TrimStart(s[1..]) else s
  }

  function TrimEnd(s: string): string
  {
    if s != [] && IsWhiteSpace(s[|s| - 1]) then TrimEnd(s[..|s| - 1]) else s
  }

  /** string.Trim. */
  function Trim(s: string): string
  {
    TrimEnd(TrimStart(s))
  }

  predicate HasContent(s: string)
  {
    |Trim(s)| > 0
  }

  lemma {:induction false} TrimStartKeeps(s: string)
    ensures |TrimStart(s)| > 0 <==> exists k :: 0 <= k < |s| && !IsWhiteSpace(s[k])
    ensures |TrimStart(s)| > 0 ==> !IsWhiteSpace(TrimStart(s)[0])
    decreases |s|
  {
    if s != [] && IsWhiteSpace(s[0]) {
      TrimStartKeeps(s[1..]);
      if exists k :: 0 <= k < |s| && !IsWhiteSpace(s[k]) {
        var k :| 0 <= k < |s| && !IsWhiteSpace(s[k]);
        assert s[1..][k - 1] == s[k];
      }
    }
  }

  lemma {:induction false} TrimEndKeeps(s: string)
    requires s != [] && !IsWhiteSpace(s[0])
    ensures |TrimEnd(s)| > 0
    decreases |s|
  {
    if IsWhiteSpace(s[|s| - 1]) {
      TrimEndKeeps(s[..|s| - 1]);
    }
  }

  /** Trimmed text is non-empty exactly when the text has a character that is not white space. */
  lemma HasContentSpec(s: string)
    ensures HasContent(s) <==> exists k :: 0 <= k < |s| && !IsWhiteSpace(s[k])
  {
    TrimStartKeeps(s);
    if |TrimStart(s)| > 0 {
      TrimEndKeeps(TrimStart(s));
    }
  }

  /** What opening a PDF page and reading its text gives: the open fails, the
      text read fails, or the text of each page. */
  datatype PdfReadOutcome = OpenFailed | ReadFailed | PageTexts(texts: seq<string>)

  /** A PDF page needs OCR when its text was read and no page of it has text
      beyond white space. When opening or reading fails, the page is left as
      not needing OCR and is passed through. */
  predicate NeedsOcrFor(outcome: PdfReadOutcome)
  {
    outcome.PageTexts? && !exists k :: 0 <= k < |outcome.texts| && HasContent(outcome.texts[k])
  }

  lemma NeedsOcrSpec(outcome: PdfReadOutcome)
    ensures NeedsOcrFor(outcome) <==>
              outcome.PageTexts? && forall k, c :: 0 <= k < |outcome.texts| && 0 <= c < |outcome.texts[k]| ==> IsWhiteSpace(outcome.texts[k][c])
  {
    if outcome.PageTexts? {
      forall k | 0 <= k < |outcome.texts| {
        HasContentSpec(outcome.texts[k]);
      }
    }
  }

  // ---------------------------------------------------------------------------
  // The OCR engine

  datatype OcrEngine = OcrEngine(name: string)

  datatype OcrParams = OcrParams(languageCode: Option<string>, mode: string)

  /** GetOcrEngine: the installed engine when OCR is asked for with a language, else none. */
  function GetOcrEngine(ocrParams: Option<OcrParams>, installed: Option<OcrEngine>): (r: Option<OcrEngine>)
    ensures r.Some? <==> ocrParams.Some? && ocrParams.value.languageCode.Some? && installed.Some?
    ensures r.Some? ==> r == installed
  {
    if ocrParams.Some? && ocrParams.value.languageCode.Some? then
      if installed.None? then None else installed
    else None
  }

  // ---------------------------------------------------------------------------
  // Document information and security

  predicate IsNullOrEmpty(s: Option<string>)
  {
    s.None? || s.value == ""
  }

  datatype PdfMetadata = PdfMetadata(
    author: Option<string>, creator: Option<string>, keywords: Option<string>, subject: Option<string>, title: Option<string>)

  datatype PdfEncryption = PdfEncryption(
    encryptPdf: bool, ownerPassword: Option<string>, userPassword: Option<string>,
    allowContentCopyingForAccessibility: bool, allowAnnotations: bool, allowDocumentAssembly: bool,
    allowContentCopying: bool, allowFormFilling: bool, allowFullQualityPrinting: bool,
    allowDocumentModification: bool, allowPrinting: bool)

  datatype PdfCompat = Default | PdfA1B | PdfA2B | PdfA3B | PdfA3U

  datatype PdfExportParams = PdfExportParams(metadata: PdfMetadata, encryption: Option<PdfEncryption>, compat: PdfCompat)

  datatype DocumentInfo = DocumentInfo(
    creator: Option<string>, author: Option<string>, keywords: Option<string>, subject: Option<string>, title: Option<string>)

  datatype SecurityLevel = NoSecurity | Encrypted128Bit

  datatype Permissions = Permissions(
    accessibilityExtractContent: bool, annotations: bool, assembleDocument: bool, extractContent: bool,
    formsFill: bool, fullQualityPrint: bool, modifyDocument: bool, printing: bool)

  datatype SecuritySettings = SecuritySettings(
    level: SecurityLevel, ownerPassword: Option<string>, userPassword: Option<string>, permit: Permissions)

  /** The settings of a new document: no security, no passwords, everything permitted. */
  const NewDocumentSecurity := SecuritySettings(NoSecurity, None, None, Permissions(true, true, true, true, true, true, true, true))

  /** Encryption is applied when it is asked for and at least one password is non-empty. */
  predicate Encrypts(p: PdfExportParams)
  {
    p.encryption.Some? && p.encryption.value.encryptPdf
    && (!IsNullOrEmpty(p.encryption.value.ownerPassword) || !IsNullOrEmpty(p.encryption.value.userPassword))
  }

  /** An abstract page of an output document: the placeholder added to an
      otherwise empty document, a page drawn from input image sourceIndex with
      the given invisible text, or page 1 of a stored PDF imported unchanged. */
  datatype OutPage = PlaceholderPage | DrawnPage(sourceIndex: nat, ocrText: Option<seq<string>>) | ImportedPage(sourceIndex: nat, storage: ImageStorage)

  /** The document the export builds, as PDFsharp holds it. */
  class PdfSharpDocument {
    var info: DocumentInfo
    var security: SecuritySettings
    var pages: seq<OutPage>

    constructor ()
      ensures info == DocumentInfo(None, None, None, None, None) && security == NewDocumentSecurity && pages == []
    {
      info := DocumentInfo(None, None, None, None, None);
      security := NewDocumentSecurity;
      pages := [];
    }

    method AddPage(page: OutPage)
      modifies this
      ensures pages == old(pages) + [page] && info == old(info) && security == old(security)
    {
      pages := pages + [page];
    }
  }

  /** The information InitializeDocument gives the new document. */
  function InfoFor(exportParams: PdfExportParams): DocumentInfo
  {
    var m := exportParams.metadata;
    DocumentInfo(if IsNullOrEmpty(m.creator) then Some("NAPS2") else m.creator, m.author, m.keywords, m.subject, m.title)
  }

  /** The security settings InitializeDocument gives the new document. */
  function SecurityFor(exportParams: PdfExportParams): SecuritySettings
  {
    if !Encrypts(exportParams) then NewDocumentSecurity
    else
      var e := exportParams.encryption.value;
      SecuritySettings(Encrypted128Bit,
                       if IsNullOrEmpty(e.ownerPassword) then NewDocumentSecurity.ownerPassword else e.ownerPassword,
                       if IsNullOrEmpty(e.userPassword) then NewDocumentSecurity.userPassword else e.userPassword,
                       Permissions(e.allowContentCopyingForAccessibility, e.allowAnnotations, e.allowDocumentAssembly,
                                   e.allowContentCopying, e.allowFormFilling, e.allowFullQualityPrinting,
                                   e.allowDocumentModification, e.allowPrinting))
  }

  /** The document always names a creator; every other metadata field is the
      caller's; it is encrypted exactly when encryption is asked for with a
      non-empty password, and then every password it holds is non-empty,
      at least one is set, and each permission is the caller's. */
  lemma DocumentSettings(exportParams: PdfExportParams)
    ensures InfoFor(exportParams).creator.Some? && InfoFor(exportParams).creator.value != ""
    ensures InfoFor(exportParams).creator ==
              if IsNullOrEmpty(exportParams.metadata.creator) then Some("NAPS2") else exportParams.metadata.creator
    ensures InfoFor(exportParams).author == exportParams.metadata.author && InfoFor(exportParams).title == exportParams.metadata.title
    ensures InfoFor(exportParams).keywords == exportParams.metadata.keywords && InfoFor(exportParams).subject == exportParams.metadata.subject
    ensures (SecurityFor(exportParams).level == Encrypted128Bit) <==> Encrypts(exportParams)
    ensures !Encrypts(exportParams) ==> SecurityFor(exportParams) == NewDocumentSecurity
    ensures Encrypts(exportParams) ==>
              var s := SecurityFor(exportParams);
              var e := exportParams.encryption.value;
              (s.ownerPassword.Some? || s.userPassword.Some?)
              && (s.ownerPassword.Some? ==> s.ownerPassword == e.ownerPassword && s.ownerPassword.value != "")
              && (s.userPassword.Some? ==> s.userPassword == e.userPassword && s.userPassword.value != "")
              && (!IsNullOrEmpty(e.ownerPassword) ==> s.ownerPassword == e.ownerPassword)
              && (!IsNullOrEmpty(e.userPassword) ==> s.userPassword == e.userPassword)
              && s.permit == Permissions(e.allowContentCopyingForAccessibility, e.allowAnnotations, e.allowDocumentAssembly,
                                         e.allowContentCopying, e.allowFormFilling, e.allowFullQualityPrinting,
                                         e.allowDocumentModification, e.allowPrinting)
  {
  }

  /** InitializeDocument: a new document with the metadata and, when asked for,
      the encryption of the export parameters. */
  method InitializeDocument(exportParams: PdfExportParams) returns (document: PdfSharpDocument)
    ensures fresh(document) && document.pages == []
    ensures document.info == InfoFor(exportParams) && document.security == SecurityFor(exportParams)
  {
    document := new PdfSharpDocument();
    var m := exportParams.metadata;
    var info := document.info;
    info := info.(creator := if IsNullOrEmpty(m.creator) then Some("NAPS2") else m.creator);
    info := info.(author := m.author);
    info := info.(keywords := m.keywords);
    info := info.(subject := m.subject);
    info := info.(title := m.title);
    document.info := info;
    if exportParams.encryption.Some? && exportParams.encryption.value.encryptPdf
       && (!IsNullOrEmpty(exportParams.encryption.value.ownerPassword) || !IsNullOrEmpty(exportParams.encryption.value.userPassword))
    {
      var e := exportParams.encryption.value;
      var security := document.security;
      security := security.(level := Encrypted128Bit);
      if !IsNullOrEmpty(e.ownerPassword) {
        security := security.(ownerPassword := e.ownerPassword);
      }
      if !IsNullOrEmpty(e.userPassword) {
        security := security.(userPassword := e.userPassword);
      }
      // every one of the eight permissions is set from the export parameters
      var permit := Permissions(e.allowContentCopyingForAccessibility, e.allowAnnotations, e.allowDocumentAssembly,
                                e.allowContentCopying, e.allowFormFilling, e.allowFullQualityPrinting,
                                e.allowDocumentModification, e.allowPrinting);
      document.security := security.(permit := permit);
    }
  }

  /** A saved PDF: its pages, information and security settings. */
  datatype PdfFile = PdfFile(pages: seq<OutPage>, info: DocumentInfo, security: SecuritySettings)

  /** The placeholder part of FinalizeAndSaveDocument: an empty document gets
      one placeholder page, and the caller is told so. Returns the saved file. */
  method FinalizeAndSaveDocument(document: PdfSharpDocument) returns (saved: PdfFile, placeholderPage: bool)
    modifies document
    ensures placeholderPage <==> old(document.pages) == []
    ensures document.pages == if placeholderPage then [PlaceholderPage] else old(document.pages)
    ensures document.info == old(document.info) && document.security == old(document.security)
    ensures saved == PdfFile(document.pages, document.info, document.security) && |saved.pages| >= 1
  {
    placeholderPage := false;
    if |document.pages| == 0 {
      document.AddPage(PlaceholderPage);
      placeholderPage := true;
    }
    saved := PdfFile(document.pages, document.info, document.security);
  }

  // ---------------------------------------------------------------------------
  // Splicing passthrough pages

  /** A PDF page to copy unchanged into the output at position pageIndex. */
  datatype PassthroughEntry = PassthroughEntry(pageIndex: nat, storage: ImageStorage)

  /** The merge opens only file and memory storage; any other entry is skipped. */
  predicate Importable(e: PassthroughEntry)
  {
    IsFileOrMemory(e.storage)
  }

  /** Import each entry's page at its index, in order. An index past the end
      of the document is an import failure. */
  function ImportAll(doc: seq<OutPage>, entries: seq<PassthroughEntry>): Result<seq<OutPage>>
    decreases |entries|
  {
    if entries == [] then Ok(doc)
    else
      var e := entries[0];
      if !Importable(e) then ImportAll(doc, entries[1..])
      else if e.pageIndex > |doc| then Err("Page index out of range")
      else ImportAll(InsertAt(doc, e.pageIndex, ImportedPage(e.pageIndex, e.storage)), entries[1..])
  }

  /** MergePassthroughPages as a function of the saved document: without
      passthrough pages the saved pages are written as they are, unless they
      are only the placeholder; otherwise the placeholder is deleted first and
      every passthrough page is imported at its index. */
  function MergedPages(saved: seq<OutPage>, placeholderPage: bool, entries: seq<PassthroughEntry>): Result<seq<OutPage>>
  {
    if entries == [] then
      if placeholderPage then Err("No pages to save") else Ok(saved)
    else if placeholderPage then
      if saved == [] then Err("Page index out of range") else ImportAll(saved[1..], entries)
    else ImportAll(saved, entries)
  }

  /** MergePassthroughPages and CopyPage: the destination opened from the saved
      bytes, the placeholder deleted, and one page imported per entry. */
  method MergePassthroughPages(saved: PdfFile, entries: seq<PassthroughEntry>, placeholderPage: bool) returns (r: Result<PdfFile>)
    ensures r.Ok? <==> MergedPages(saved.pages, placeholderPage, entries).Ok?
    ensures r.Ok? ==> r.value == saved.(pages := MergedPages(saved.pages, placeholderPage, entries).value)
    ensures r.Err? ==> r.message == MergedPages(saved.pages, placeholderPage, entries).message
  {
    if |entries| == 0 {
      if placeholderPage {
        return Err("No pages to save");
      }
      return Ok(saved);
    }
    var destDoc := saved.pages;
    if placeholderPage {
      if |destDoc| == 0 {
        return Err("Page index out of range");
      }
      destDoc := destDoc[1..];
    }
    ghost var start := destDoc;
    var i := 0;
    while i < |entries|
      invariant 0 <= i <= |entries|
      invariant ImportAll(destDoc, entries[i..]) == ImportAll(start, entries)
    {
      var state := entries[i];
      assert entries[i..][1..] == entries[i + 1..];
      if state.storage.FileStorage? || state.storage.MemoryStorage? {
        if state.pageIndex > |destDoc| {
          return Err("Page index out of range");
        }
        destDoc := InsertAt(destDoc, state.pageIndex, ImportedPage(state.pageIndex, state.storage));
      }
      i := i + 1;
    }
    assert entries[i..] == [];
    r := Ok(saved.(pages := destDoc));
  }

  // ---------------------------------------------------------------------------
  // Page order

  function SourceIndex(p: OutPage): int
  {
    if p.PlaceholderPage? then -1 else p.sourceIndex
  }

  function SourceIndices(pages: seq<OutPage>): (r: seq<int>)
    ensures |r| == |pages| && forall k :: 0 <= k < |pages| ==> r[k] == SourceIndex(pages[k])
  {
    if pages == [] then [] else [SourceIndex(pages[0])] + SourceIndices(pages[1..])
  }

  function EntryIndices(entries: seq<PassthroughEntry>): (r: seq<nat>)
    ensures |r| == |entries| && forall k :: 0 <= k < |entries| ==> r[k] == entries[k].pageIndex
  {
    if entries == [] then [] else [entries[0].pageIndex] + EntryIndices(entries[1..])
  }

  lemma {:induction false} SourceIndicesConcat(a: seq<OutPage>, b: seq<OutPage>)
    ensures SourceIndices(a + b) == SourceIndices(a) + SourceIndices(b)
    decreases |a|
  {
    if a != [] {
      assert (a + b)[1..] == a[1..] + b;
      SourceIndicesConcat(a[1..], b);
    }
  }

  lemma SourceIndicesPrefix(doc: seq<OutPage>, i: nat)
    requires i <= |doc|
    ensures SourceIndices(doc)[..i] == SourceIndices(doc[..i])
  {
  }

  lemma SourceIndicesSuffix(doc: seq<OutPage>, i: nat)
    requires i <= |doc|
    ensures SourceIndices(doc)[i..] == SourceIndices(doc[i..])
  {
  }

  lemma SourceIndicesSplice(l: seq<OutPage>, p: OutPage, r: seq<OutPage>)
    ensures SourceIndices(l + [p] + r) == SourceIndices(l) + [SourceIndex(p)] + SourceIndices(r)
  {
    SourceIndicesConcat(l + [p], r);
    SourceIndicesConcat(l, [p]);
  }

  lemma InsertAtIndices(doc: seq<OutPage>, i: nat, p: OutPage)
    requires i <= |doc|
    ensures SourceIndices(InsertAt(doc, i, p)) == SourceIndices(doc)[..i] + [SourceIndex(p)] + SourceIndices(doc)[i..]
  {
    SourceIndicesSplice(doc[..i], p, doc[i..]);
    SourceIndicesPrefix(doc, i);
    SourceIndicesSuffix(doc, i);
  }

  /** Inserting, in order, the passthrough positions at or after t into a
      document holding the positions below t followed by the rendered
      positions at or after t, gives every position in order. */
  lemma {:induction false} ImportInInputOrder(doc: seq<OutPage>, entries: seq<PassthroughEntry>, mask: seq<bool>, t: nat)
    requires t <= |mask|
    requires SourceIndices(doc) == Range(0, t) + Positions(mask, false, t, |mask|)
    requires EntryIndices(entries) == Positions(mask, true, t, |mask|)
    requires forall k :: 0 <= k < |entries| ==> Importable(entries[k])
    ensures ImportAll(doc, entries).Ok?
    ensures SourceIndices(ImportAll(doc, entries).value) == Range(0, |mask|)
    decreases |mask| - t
  {
    var n := |mask|;
    if t == n {
      assert entries == [];
    } else if mask[t] {
      var doc2 := ImportOneInOrder(doc, entries, mask, t);
      ImportInInputOrder(doc2, entries[1..], mask, t + 1);
    } else {
      RenderedInOrder(doc, entries, mask, t);
      ImportInInputOrder(doc, entries, mask, t + 1);
    }
  }

  /** The step of ImportInInputOrder at a passthrough position t: the first
      entry is imported at t and the rest sees the positions below t + 1. */
  lemma ImportOneInOrder(doc: seq<OutPage>, entries: seq<PassthroughEntry>, mask: seq<bool>, t: nat) returns (doc2: seq<OutPage>)
    requires t < |mask| && mask[t]
    requires SourceIndices(doc) == Range(0, t) + Positions(mask, false, t, |mask|)
    requires EntryIndices(entries) == Positions(mask, true, t, |mask|)
    requires forall k :: 0 <= k < |entries| ==> Importable(entries[k])
    ensures entries != [] && t <= |doc|
    ensures doc2 == InsertAt(doc, t, ImportedPage(t, entries[0].storage))
    ensures ImportAll(doc, entries) == ImportAll(doc2, entries[1..])
    ensures SourceIndices(doc2) == Range(0, t + 1) + Positions(mask, false, t + 1, |mask|)
    ensures EntryIndices(entries[1..]) == Positions(mask, true, t + 1, |mask|)
    ensures forall k :: 0 <= k < |entries[1..]| ==> Importable(entries[1..][k])
  {
    var n := |mask|;
    PassthroughStep(mask, t);
    SplitAfterRange(SourceIndices(doc), t, Positions(mask, false, t, n));
    assert EntryIndices(entries)[0] == t;
    var page := ImportedPage(t, entries[0].storage);
    assert Importable(entries[0]);
    assert ImportAll(doc, entries) == ImportAll(InsertAt(doc, t, page), entries[1..]);
    assert EntryIndices(entries[1..]) == EntryIndices(entries)[1..];
    doc2 := InsertAt(doc, t, page);
    InsertAtIndices(doc, t, page);
  }

  /** The step of ImportInInputOrder at a rendered position t. */
  lemma RenderedInOrder(doc: seq<OutPage>, entries: seq<PassthroughEntry>, mask: seq<bool>, t: nat)
    requires t < |mask| && !mask[t]
    requires SourceIndices(doc) == Range(0, t) + Positions(mask, false, t, |mask|)
    requires EntryIndices(entries) == Positions(mask, true, t, |mask|)
    ensures SourceIndices(doc) == Range(0, t + 1) + Positions(mask, false, t + 1, |mask|)
    ensures EntryIndices(entries) == Positions(mask, true, t + 1, |mask|)
  {
    RenderedStep(mask, t);
  }

  lemma SplitAfterRange(s: seq<int>, t: nat, rest: seq<nat>)
    requires s == Range(0, t) + rest
    ensures s[..t] == Range(0, t) && s[t..] == rest
  {
  }

  /** Whatever order the rendered pages are in, the import succeeds when the
      document holds as many pages as there are rendered positions, every
      page of the document is kept, and every passthrough page is added. */
  lemma {:induction false} ImportKeepsEveryPage(doc: seq<OutPage>, entries: seq<PassthroughEntry>, mask: seq<bool>, t: nat)
    requires t <= |mask|
    requires |doc| == t + |Positions(mask, false, t, |mask|)|
    requires EntryIndices(entries) == Positions(mask, true, t, |mask|)
    requires forall k :: 0 <= k < |entries| ==> Importable(entries[k])
    ensures ImportAll(doc, entries).Ok?
    ensures |ImportAll(doc, entries).value| == |doc| + |entries|
    ensures forall p :: p in doc ==> p in ImportAll(doc, entries).value
    ensures forall e :: e in entries ==> ImportedPage(e.pageIndex, e.storage) in ImportAll(doc, entries).value
    decreases |mask| - t
  {
    var n := |mask|;
    if t == n {
      assert entries == [];
    } else if mask[t] {
      PositionsCons(mask, true, t, n);
      PositionsCons(mask, false, t, n);
      var e := entries[0];
      assert EntryIndices(entries[1..]) == EntryIndices(entries)[1..];
      var page := ImportedPage(t, e.storage);
      InsertAtKeeps(doc, t, page);
      ImportKeepsEveryPage(InsertAt(doc, t, page), entries[1..], mask, t + 1);
      assert forall e' :: e' in entries ==> e' == e || e' in entries[1..];
    } else {
      PositionsCons(mask, true, t, n);
      PositionsCons(mask, false, t, n);
      ImportKeepsEveryPage(doc, entries, mask, t + 1);
    }
  }
}
