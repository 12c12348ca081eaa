/**
 * The "Split PDF" tool: a file input that loads one document into the page's
 * state, and a button that extracts the pages named by the range text into a
 * new document, named after that text.
 */
module SplitTool {
  import opened Wrappers
  import opened JsString
  import opened JsNumber
  import opened Pdf
  import opened PageRange

  /** What one click of the split button does. */
  datatype SplitOutcome =
    | NoDocument
      // no document is loaded: the handler returns without a message
    | Rejected(status: string)
      // a guard failed: only the status line changes
    | Extracted(fileName: string, indices: seq<int>, pages: seq<Page>, status: string)
      // the new document's pages, offered for download under fileName

  const EmptyRangeMessage := "Please enter page numbers to extract"
  const NoPagesMessage := "No valid pages found in range"

  /** The download name: the (trimmed) range text with every comma made an underscore. */
  function SplitFileName(rangeStr: string): (name: string)
    ensures |name| == |rangeStr| + 16
    ensures name[..12] == "split-pages-" && name[|name| - 4..] == ".pdf"
  {
    "split-pages-" + NameMiddle(rangeStr) + ".pdf"
  }

  /** The middle of the file name, between its fixed prefix and suffix: `rangeStr.replace(/,/g, '_')`. */
  function NameMiddle(rangeStr: string): (middle: string)
    ensures |middle| == |rangeStr|
    ensures forall i :: 0 <= i < |middle| ==> middle[i] != ','
  {
    ReplaceAll(rangeStr, ',', '_')
  }

  /**
   * The name has the fixed prefix and suffix around a middle of the same
   * length as the text, holds no comma, and keeps every other character of
   * the text in place.
   */
  lemma SplitFileNameShape(rangeStr: string)
    ensures var name := SplitFileName(rangeStr);
      && |name| == |rangeStr| + 16
      && |NameMiddle(rangeStr)| == |rangeStr|
      && ',' !in name
      && forall i :: 0 <= i < |rangeStr| && rangeStr[i] != ',' ==> NameMiddle(rangeStr)[i] == rangeStr[i]
  {
    var middle := NameMiddle(rangeStr);
    assert ',' !in middle by {
      forall i | 0 <= i < |middle|
        ensures middle[i] != ','
      {
      }
    }
    assert ',' !in "split-pages-" && ',' !in ".pdf";
  }

  /**
   * Round trip: the middle of the name is the text's comma-separated pieces
   * joined with underscores, so a text without underscores can be read back
   * from the name by cutting it at the underscores.
   */
  lemma NameMiddleRoundTrip(rangeStr: string)
    requires '_' !in rangeStr
    ensures NameMiddle(rangeStr) == Join(Split(rangeStr, ','), '_')
    ensures Split(NameMiddle(rangeStr), '_') == Split(rangeStr, ',')
    ensures ReplaceAll(NameMiddle(rangeStr), '_', ',') == rangeStr
  {
    ReplaceAllIsSplitJoin(rangeStr, ',', '_');
    var parts := Split(rangeStr, ',');
    forall i | 0 <= i < |parts|
      ensures '_' !in parts[i]
    {
      JoinSplit(rangeStr, ',');
      PieceOfJoin(parts, ',', i);
    }
    SplitJoin(parts, '_');
    var middle := NameMiddle(rangeStr);
    var back := ReplaceAll(middle, '_', ',');
    assert |back| == |rangeStr|;
    forall i | 0 <= i < |rangeStr|
      ensures back[i] == rangeStr[i]
    {
    }
  }

  /** Every character of a piece occurs in the joined string. */
  lemma {:induction false} PieceOfJoin(parts: seq<string>, sep: char, i: nat)
    requires i < |parts|
    ensures forall c :: c in parts[i] ==> c in Join(parts, sep)
  {
    if |parts| > 1 {
      if i > 0 {
        PieceOfJoin(parts[1..], sep, i - 1);
      }
    }
  }

  /**
   * Different texts can give the same name: a comma and an underscore at the
   * same place are not told apart, although "1_2" names page 1 only and
   * "1,2" names pages 1 and 2.
   */
  lemma NameCollision()
    ensures SplitFileName("1,2") == SplitFileName("1_2")
  {
    assert NameMiddle("1,2") == "1_2";
    assert NameMiddle("1_2") == "1_2";
  }

  /** The status line after a successful extraction. */
  function ExtractedMessage(count: nat): string
  {
    "Successfully extracted " + NatToString(count) + " page(s)!"
  }

  /** The status line after a document has been loaded. */
  function LoadedMessage(pageCount: nat): string
  {
    "PDF loaded successfully. Total pages: " + NatToString(pageCount)
  }

  /** The split tool's state: the document loaded last, if any. */
  class Splitter {
    var document: Option<Document>

    constructor ()
      ensures document == None
    {
      document := None;
    }

    /**
     * The file input's change handler. No file: nothing happens. A file that
     * loads replaces the document and reports its page count; one that does
     * not reports the error and leaves the previous document in place.
     */
    method Load(file: Option<SourceFile>) returns (status: Option<string>)
      modifies this
      ensures file.None? ==> document == old(document) && status == None
      ensures file.Some? && file.value.asPdf.Loaded? ==>
        document == Some(file.value.asPdf.doc)
        && status == Some(LoadedMessage(|file.value.asPdf.doc.pages|))
      ensures file.Some? && file.value.asPdf.LoadError? ==>
        document == old(document) && status == Some("Error: " + file.value.asPdf.message)
    {
      if file.None? {
        return None;
      }
      match file.value.asPdf
      case LoadError(message) =>
        status := Some("Error: " + message);
      case Loaded(doc) =>
        document := Some(doc);
        status := Some(LoadedMessage(|doc.pages|));
    }

    /**
     * The split button's click handler. Its guards are checked in order: no
     * document, empty trimmed text, no valid page. Otherwise the pages named
     * by the trimmed text are copied, in increasing order, into the output.
     */
    method Click(rangeInput: string) returns (outcome: SplitOutcome)
      ensures document.None? ==> outcome == NoDocument
      ensures document.Some? && Trim(rangeInput) == "" ==> outcome == Rejected(EmptyRangeMessage)
      ensures document.Some? && Trim(rangeInput) != "" && PageSet(Trim(rangeInput), |document.value.pages|) == {} ==>
        outcome == Rejected(NoPagesMessage)
      ensures document.Some? && Trim(rangeInput) != "" && PageSet(Trim(rangeInput), |document.value.pages|) != {} ==>
        var doc := document.value;
        var indices := AscendingElements(PageSet(Trim(rangeInput), |doc.pages|), |doc.pages|);
        outcome == Extracted(SplitFileName(Trim(rangeInput)), indices, CopyPages(doc, indices), ExtractedMessage(|indices|))
    {
      if document.None? {
        return NoDocument;
      }
      var doc := document.value;
      var rangeStr := Trim(rangeInput);
      if rangeStr == "" {
        return Rejected(EmptyRangeMessage);
      }
      var totalPages := |doc.pages|;
      var pageIndices := ParsePageRange(rangeStr, totalPages);
      ghost var pageSet := PageSet(rangeStr, totalPages);
      assert |pageIndices| == |pageSet|;
      if |pageIndices| == 0 {
        assert pageSet == {};
        return Rejected(NoPagesMessage);
      }
      assert pageSet != {};
      var copied := CopyPages(doc, pageIndices);
      var pages := AddPages([], copied);
      assert pages == copied;
      outcome := Extracted(SplitFileName(rangeStr), pageIndices, pages, ExtractedMessage(|pageIndices|));
    }
  }

  /**
   * An extraction's output is part of the document in its own order: page j
   * of the output is page indices[j] of the source, the positions increase,
   * so no page is repeated, and every page the text selects is there.
   */
  lemma ExtractedPages(doc: Document, rangeStr: string)
    requires PageSet(rangeStr, |doc.pages|) != {}
    ensures var indices := AscendingElements(PageSet(rangeStr, |doc.pages|), |doc.pages|);
      var pages := CopyPages(doc, indices);
      && |pages| == |PageSet(rangeStr, |doc.pages|)| > 0
      && (forall j :: 0 <= j < |pages| ==> pages[j] == doc.pages[indices[j]])
      && (forall j, l :: 0 <= j < l < |pages| ==> indices[j] < indices[l])
      && (forall k :: k in PageSet(rangeStr, |doc.pages|) ==> exists j :: 0 <= j < |indices| && indices[j] == k)
  {
    var pageSet := PageSet(rangeStr, |doc.pages|);
    var indices := AscendingElements(pageSet, |doc.pages|);
    forall k | k in pageSet
      ensures exists j :: 0 <= j < |indices| && indices[j] == k
    {
      assert k in indices;
    }
  }
}
