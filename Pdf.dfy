/**
 * The values that main.js hands to and gets back from its PDF library and
 * from the browser, seen from outside: a page is an opaque content stream or
 * one drawn image with a size, a document is its pages in order plus its
 * information fields, and a selected file carries, besides its name, size and
 * declared type, what loading or embedding its bytes would produce.
 */
module Pdf {
  import opened Wrappers

  datatype ImageFormat = Png | Jpeg

  /** An image embedded into a document: its encoding and its size in pixels. */
  datatype EmbeddedImage = EmbeddedImage(format: ImageFormat, width: nat, height: nat)

  /** A page's content: an existing page's content stream, or one image drawn at (x, y) with a given size. */
  datatype PageContent =
    | Content(stream: nat)
    | DrawnImage(image: EmbeddedImage, x: int, y: int, drawWidth: int, drawHeight: int)

  datatype Page = Page(width: int, height: int, content: PageContent)

  datatype Timestamp = Timestamp(millis: int)

  /** The document information fields; each may be absent. */
  datatype Metadata = Metadata(
    title: Option<string>,
    author: Option<string>,
    subject: Option<string>,
    creator: Option<string>,
    producer: Option<string>,
    creationDate: Option<Timestamp>,
    modificationDate: Option<Timestamp>)

  datatype Document = Document(pages: seq<Page>, metadata: Metadata)

  /** What loading a file's bytes as a PDF gives: a document, or the message of the error thrown. */
  datatype LoadResult = Loaded(doc: Document) | LoadError(message: string)

  /** What embedding a file's bytes as one image kind gives: the pixel size, or the message of the error thrown. */
  datatype Embedding = Embedded(width: nat, height: nat) | EmbedError(message: string)

  /**
   * A file the user picked: name, size in bytes, declared MIME type, the
   * message of the error reading its bytes (if reading fails), and what the
   * library makes of its bytes. A PDF handler reads and then loads inside one
   * `try`, so `asPdf` stands for both steps: a read error is a `LoadError`
   * with its message. The image loop reads before it looks at the type, so
   * the read error is kept apart for it.
   */
  datatype SourceFile = SourceFile(
    name: string,
    size: nat,
    mimeType: string,
    readError: Option<string>,
    asPdf: LoadResult,
    asPng: Embedding,
    asJpeg: Embedding)

  /** The pages at the given positions, in the order the positions are listed (what copyPages returns). */
  function CopyPages(doc: Document, indices: seq<int>): (copied: seq<Page>)
    requires forall k :: 0 <= k < |indices| ==> 0 <= indices[k] < |doc.pages|
  {
    seq(|indices|, k requires 0 <= k < |indices| => doc.pages[indices[k]])
  }

  /** `copied.forEach(page => doc.addPage(page))`: each copied page appended in turn. */
  method AddPages(pages: seq<Page>, copied: seq<Page>) returns (result: seq<Page>)
    ensures result == pages + copied
  {
    result := pages;
    for i := 0 to |copied|
      invariant result == pages + copied[..i]
    {
      result := result + [copied[i]];
      assert copied[..i + 1] == copied[..i] + [copied[i]];
    }
    assert copied[..|copied|] == copied;
  }

  /** The pages of several documents, one document after the other. */
  function Concat(docs: seq<seq<Page>>): seq<Page>
  {
    if docs == [] then [] else Concat(docs[..|docs| - 1]) + docs[|docs| - 1]
  }

  function TotalPages(docs: seq<seq<Page>>): nat
  {
    if docs == [] then 0 else TotalPages(docs[..|docs| - 1]) + |docs[|docs| - 1]|
  }

  /** Concatenating two lists of documents concatenates their pages. */
  lemma {:induction false} ConcatAppend(a: seq<seq<Page>>, b: seq<seq<Page>>)
    ensures Concat(a + b) == Concat(a) + Concat(b)
    decreases |b|
  {
    if b == [] {
      assert a + b == a;
    } else {
      ConcatAppend(a, b[..|b| - 1]);
      assert (a + b)[..|a + b| - 1] == a + b[..|b| - 1];
    }
  }

  /** The concatenation has as many pages as the documents together. */
  lemma {:induction false} ConcatLength(docs: seq<seq<Page>>)
    ensures |Concat(docs)| == TotalPages(docs)
  {
    if docs != [] {
      ConcatLength(docs[..|docs| - 1]);
    }
  }

  /**
   * Page j of document i sits at position TotalPages(docs[..i]) + j of the
   * concatenation: every document keeps its own page order, and the documents
   * follow one another in list order.
   */
  lemma {:induction false} ConcatAt(docs: seq<seq<Page>>, i: nat, j: nat)
    requires i < |docs| && j < |docs[i]|
    ensures TotalPages(docs[..i]) + j < |Concat(docs)|
    ensures Concat(docs)[TotalPages(docs[..i]) + j] == docs[i][j]
  {
    var last := |docs| - 1;
    var front := docs[..last];
    ConcatLength(front);
    ConcatLength(docs);
    if i < last {
      assert front[..i] == docs[..i];
      ConcatAt(front, i, j);
    } else {
      assert docs[..i] == front;
    }
  }
}
