/** The invisible text layer drawn over a rendered page from an OCR result
    (DrawOcrTextOnPage and ReverseText in NAPS2.Sdk/ImportExport/Pdf/PdfExporter.cs).

    Text is held already split into text elements (extended grapheme
    clusters), which is what the .NET text-element enumerator yields; the
    splitting itself is not modelled. The font size the drawing code computes
    from an element's bounds is carried as a given integer. */
module OcrText {
  import opened Seqs

  /** One recognised word: its text elements, whether it reads right to left,
      and the font size computed for it from its bounds on the page. */
  datatype OcrElement = OcrElement(textElements: seq<string>, rightToLeft: bool, fontSize: int)

  datatype OcrResult = OcrResult(elements: seq<OcrElement>)

  /** string.Concat over a list of strings. */
  function Concat(parts: seq<string>): (r: string)
    ensures parts == [] ==> r == ""
  {
    if parts == [] then "" else parts[0] + Concat(parts[1..])
  }

  function Text(e: OcrElement): string
  {
    Concat(e.textElements)
  }

  lemma {:induction false} ConcatSnoc(parts: seq<string>, x: string)
    ensures Concat(parts + [x]) == Concat(parts) + x
    decreases |parts|
  {
    if parts == [] {
      assert parts + [x] == [x];
    } else {
      assert (parts + [x])[1..] == parts[1..] + [x];
      ConcatSnoc(parts[1..], x);
    }
  }

  /** Concatenation in reverse order keeps the total length. */
  lemma {:induction false} ConcatReverseLength(parts: seq<string>)
    ensures |Concat(Reverse(parts))| == |Concat(parts)|
    decreases |parts|
  {
    if parts != [] {
      assert Reverse(parts) == Reverse(parts[1..]) + [parts[0]];
      ConcatSnoc(Reverse(parts[1..]), parts[0]);
      ConcatReverseLength(parts[1..]);
    }
  }

  /** ReverseText: collect the text elements, reverse the list, concatenate. */
  method ReverseText(textElements: seq<string>) returns (text: string)
    ensures text == Concat(Reverse(textElements))
  {
    var elements: seq<string> := [];
    var i := 0;
    while i < |textElements|
      invariant 0 <= i <= |textElements|
      invariant elements == textElements[..i]
    {
      elements := elements + [textElements[i]];
      i := i + 1;
    }
    assert elements == textElements;
    elements := Reverse(elements);
    text := Concat(elements);
  }

  /** Reversing the text elements twice gives them back, and the reversed text
      is as long as the original. */
  lemma ReverseTextTwice(textElements: seq<string>)
    ensures Reverse(Reverse(textElements)) == textElements
    ensures |Concat(Reverse(textElements))| == |Concat(textElements)|
  {
    ReverseReverse(textElements);
    ConcatReverseLength(textElements);
  }

  /** An element is not drawn when its text is empty, or when it is a single
      dash or underscore whose computed font size exceeds 100 (a ruled line
      recognised as text). */
  predicate Skipped(e: OcrElement)
  {
    Text(e) == "" || (e.fontSize > 100 && (Text(e) == "-" || Text(e) == "_"))
  }

  /** The string drawn for an element that is not skipped. */
  function Drawn(e: OcrElement): string
  {
    if e.rightToLeft then Concat(Reverse(e.textElements)) else Text(e)
  }

  function DrawnTexts(es: seq<OcrElement>): (r: seq<string>)
    ensures |r| == |es|
    ensures forall k :: 0 <= k < |es| ==> r[k] == Drawn(es[k])
  {
    seq(|es|, k requires 0 <= k < |es| => Drawn(es[k]))
  }

  function Kept(es: seq<OcrElement>): (r: seq<bool>)
    ensures |r| == |es|
    ensures forall k :: 0 <= k < |es| ==> r[k] == !Skipped(es[k])
  {
    seq(|es|, k requires 0 <= k < |es| => !Skipped(es[k]))
  }

  /** The strings DrawOcrTextOnPage draws, in order: the drawn form of every
      element that is not skipped. */
  function TextLayer(result: OcrResult): seq<string>
  {
    Select(DrawnTexts(result.elements), Kept(result.elements))
  }

  lemma TextLayerSnoc(es: seq<OcrElement>, e: OcrElement)
    ensures Select(DrawnTexts(es + [e]), Kept(es + [e])) == Select(DrawnTexts(es), Kept(es)) + (if Skipped(e) then [] else [Drawn(e)])
  {
    assert DrawnTexts(es + [e]) == DrawnTexts(es) + [Drawn(e)];
    assert Kept(es + [e]) == Kept(es) + [!Skipped(e)];
    SelectSnoc(DrawnTexts(es), Kept(es), Drawn(e), !Skipped(e));
  }

  /** The drawing loop of DrawOcrTextOnPage; the geometry is not modelled. */
  method DrawOcrTextOnPage(result: OcrResult) returns (drawn: seq<string>)
    ensures drawn == TextLayer(result)
  {
    var es := result.elements;
    drawn := [];
    var i := 0;
    while i < |es|
      invariant 0 <= i <= |es|
      invariant drawn == Select(DrawnTexts(es[..i]), Kept(es[..i]))
    {
      var element := es[i];
      assert es[..i + 1] == es[..i] + [element];
      TextLayerSnoc(es[..i], element);
      if Text(element) == "" {
        i := i + 1;
        continue;
      }
      if element.fontSize > 100 && (Text(element) == "-" || Text(element) == "_") {
        i := i + 1;
        continue;
      }
      var s;
      if element.rightToLeft {
        s := ReverseText(element.textElements);
      } else {
        s := Text(element);
      }
      drawn := drawn + [s];
      i := i + 1;
    }
    assert es[..i] == es;
  }

  /** Every string in the text layer is non-empty, and comes from an element
      that is not skipped. */
  lemma {:induction false} TextLayerNonEmpty(es: seq<OcrElement>)
    ensures forall s :: s in Select(DrawnTexts(es), Kept(es)) ==> s != ""
    ensures forall s :: s in Select(DrawnTexts(es), Kept(es)) ==> exists e :: e in es && !Skipped(e) && s == Drawn(e)
    decreases |es|
  {
    if es != [] {
      assert DrawnTexts(es)[1..] == DrawnTexts(es[1..]);
      assert Kept(es)[1..] == Kept(es[1..]);
      TextLayerNonEmpty(es[1..]);
      ConcatReverseLength(es[0].textElements);
      forall s | s in Select(DrawnTexts(es[1..]), Kept(es[1..]))
        ensures exists e :: e in es && !Skipped(e) && s == Drawn(e)
      {
        var e :| e in es[1..] && !Skipped(e) && s == Drawn(e);
        assert e in es;
      }
    }
  }
}
