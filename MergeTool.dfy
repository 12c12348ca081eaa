/**
 * The "Merge PDFs" tool: a list of pending files that grows with every
 * selection and shrinks when a file's delete button is pressed, and a button
 * that loads the files one after the other and concatenates their pages.
 * One file that does not load aborts the whole merge.
 */
module MergeTool {
  import opened Wrappers
  import opened JsNumber
  import opened Pdf

  /** What one click of the merge button does. */
  datatype MergeOutcome =
    | NothingToMerge
      // the list is empty: the handler returns without a message
    | MergeFailed(status: string)
      // a file did not load: no output, only the error message
    | Merged(fileName: string, pages: seq<Page>, status: string)

  const MergedFileName := "merged-document.pdf"

  /** The status line after a successful merge. */
  function MergedMessage(count: nat): string
  {
    "Successfully merged " + NatToString(count) + " PDFs!"
  }

  /** The status line under the list: empty for an empty list, otherwise the number of files. */
  function ListStatus(count: nat): (status: string)
    ensures status == "" <==> count == 0
  {
    if count == 0 then "" else NatToString(count) + " file(s) ready to merge"
  }

  /**
   * The start position `splice(start, 1)` uses: a negative start counts from
   * the end (and stops at 0), a start past the end is the end.
   */
  function SpliceStart(len: nat, start: int): (k: nat)
    ensures k <= len
  {
    if start < 0 then (if len + start < 0 then 0 else len + start)
    else if start > len then len
    else start
  }

  /** `list.splice(start, 1)`: the list without the one entry at the start position, if there is one. */
  function SpliceOne<T>(list: seq<T>, start: int): seq<T>
  {
    var k := SpliceStart(|list|, start);
    if k < |list| then list[..k] + list[k + 1..] else list
  }

  /**
   * Removing at a valid index deletes exactly that entry: one fewer entry, the
   * ones before it unchanged, the ones after it each moved down one place.
   */
  lemma SpliceInRange<T>(list: seq<T>, i: int)
    requires 0 <= i < |list|
    ensures SpliceOne(list, i) == list[..i] + list[i + 1..]
    ensures |SpliceOne(list, i)| == |list| - 1
    ensures forall j :: 0 <= j < i ==> SpliceOne(list, i)[j] == list[j]
    ensures forall j :: i <= j < |list| - 1 ==> SpliceOne(list, i)[j] == list[j + 1]
  {
  }

  /** A negative index counts from the end: -1 removes the last entry. */
  lemma SpliceNegative<T>(list: seq<T>, i: int)
    requires -|list| <= i < 0
    ensures SpliceOne(list, i) == SpliceOne(list, |list| + i)
    ensures |SpliceOne(list, i)| == |list| - 1
  {
  }

  /** An index at or past the end removes nothing. */
  lemma SplicePastEnd<T>(list: seq<T>, i: int)
    requires i >= |list|
    ensures SpliceOne(list, i) == list
  {
  }

  /** Every entry that survives a removal was in the list, and only one entry is lost. */
  lemma SpliceKeepsEntries<T>(list: seq<T>, i: int)
    ensures multiset(SpliceOne(list, i)) <= multiset(list)
    ensures |list| - 1 <= |SpliceOne(list, i)| <= |list|
  {
    var k := SpliceStart(|list|, i);
    if k < |list| {
      assert list == list[..k] + [list[k]] + list[k + 1..];
    }
  }

  /**
   * The index a delete button carries is `${i}`, read back with parseInt:
   * pressing the button of entry i removes entry i.
   */
  lemma DeleteButtonRemovesItsEntry<T>(list: seq<T>, i: nat)
    requires i < |list|
    ensures ParseInt(IntToString(i)) == Some(i)
    ensures SpliceOne(list, ParseInt(IntToString(i)).value) == list[..i] + list[i + 1..]
  {
    ParseIntOfIntToString(i);
  }

  /**
   * The documents of the files, in list order, if every one loads; otherwise
   * the first load error.
   *
   * Keep the facts about a successful LoadAll stated as `LoadAllOk` and
   * `MergedPages` state them: the file-to-document link in `LoadAllOk`, and
   * the page positions over the documents alone in `MergedPages`. A proof
   * goal that holds `LoadAll(files).Ok?`, `files[k].asPdf.Loaded?` and a term
   * `LoadAll(files).value[k].pages` together has let Dafny 4.11 derive
   * `false` from satisfiable facts, so such a goal proves nothing.
   */
  function LoadAll(files: seq<SourceFile>): (r: Result<seq<Document>, string>)
    ensures r.Ok? ==> |r.value| == |files|
  {
    if files == [] then Ok([])
    else match files[0].asPdf
      case LoadError(message) => Err(message)
      case Loaded(doc) =>
        match LoadAll(files[1..])
        case Err(message) => Err(message)
        case Ok(docs) => Ok([doc] + docs)
  }

  /** The pages of each document, document by document. */
  function PagesOf(docs: seq<Document>): seq<seq<Page>>
  {
    seq(|docs|, i requires 0 <= i < |docs| => docs[i].pages)
  }

  /**
   * LoadAll succeeds exactly when every file loads, and then gives each
   * file's document at the file's position.
   */
  lemma {:induction false} LoadAllOk(files: seq<SourceFile>)
    ensures LoadAll(files).Ok? <==> forall i :: 0 <= i < |files| ==> files[i].asPdf.Loaded?
    ensures LoadAll(files).Ok? ==>
      forall i :: 0 <= i < |files| ==> files[i].asPdf == Loaded(LoadAll(files).value[i])
  {
    if files != [] {
      LoadAllOk(files[1..]);
      assert forall i :: 1 <= i < |files| ==> files[1..][i - 1] == files[i];
    }
  }

  /**
   * LoadAll fails with the message of the first file that does not load: every
   * file before it loads.
   */
  lemma {:induction false} LoadAllFirstError(files: seq<SourceFile>)
    requires LoadAll(files).Err?
    ensures exists i :: (0 <= i < |files|
      && files[i].asPdf == LoadError(LoadAll(files).error)
      && forall j :: 0 <= j < i ==> files[j].asPdf.Loaded?)
  {
    if files[0].asPdf.Loaded? {
      LoadAllFirstError(files[1..]);
      var i :| 0 <= i < |files[1..]|
        && files[1..][i].asPdf == LoadError(LoadAll(files[1..]).error)
        && forall j :: 0 <= j < i ==> files[1..][j].asPdf.Loaded?;
      assert files[i + 1] == files[1..][i];
      assert forall j :: 1 <= j < i + 1 ==> files[j] == files[1..][j - 1];
    } else {
      assert files[0].asPdf == LoadError(LoadAll(files).error);
    }
  }

  /** The documents loaded so far extend by one loaded file. */
  lemma {:induction false} LoadAllSnocOne(files: seq<SourceFile>, f: SourceFile, doc: Document)
    requires LoadAll(files).Ok? && f.asPdf == Loaded(doc)
    ensures LoadAll(files + [f]) == Ok(LoadAll(files).value + [doc])
    decreases |files|
  {
    if files == [] {
      assert files + [f] == [f];
      assert [f][1..] == [];
      assert LoadAll([f]) == Ok([doc] + []);
      assert [doc] + [] == [] + [doc];
    } else {
      assert (files + [f])[1..] == files[1..] + [f];
      assert (files + [f])[0] == files[0];
      var first := files[0].asPdf.doc;
      var rest := LoadAll(files[1..]).value;
      assert LoadAll(files).value == [first] + rest;
      LoadAllSnocOne(files[1..], f, doc);
      assert LoadAll(files + [f]) == Ok([first] + (rest + [doc]));
      assert [first] + (rest + [doc]) == ([first] + rest) + [doc];
    }
  }

  /** The merge tool's state: the files waiting to be merged, in the order they were added. */
  class Merger {
    var files: seq<SourceFile>

    constructor ()
      ensures files == []
    {
      files := [];
    }

    /**
     * A selection is appended after the files already listed
     * (`push(...newFiles)`) and the list's status redrawn; an empty selection
     * changes nothing.
     */
    method Add(newFiles: seq<SourceFile>) returns (status: Option<string>)
      modifies this
      ensures files == old(files) + newFiles
      ensures |newFiles| > 0 ==> status == Some(ListStatus(|files|))
      ensures |newFiles| == 0 ==> status == None
    {
      status := None;
      if |newFiles| > 0 {
        files := files + newFiles;
        status := Some(ListStatus(|files|));
      }
    }

    /** A delete button: the entry at the index its text reads as is spliced out, and the status redrawn. */
    method Remove(index: int) returns (status: string)
      modifies this
      ensures files == SpliceOne(old(files), index)
      ensures status == ListStatus(|files|)
    {
      files := SpliceOne(files, index);
      status := ListStatus(|files|);
    }

    /**
     * The merge button's click handler: each file in turn is loaded and all of
     * its pages appended; the first file that does not load ends the merge
     * with its error and no output.
     */
    method Merge() returns (outcome: MergeOutcome)
      ensures files == [] ==> outcome == NothingToMerge
      ensures files != [] && LoadAll(files).Err? ==> outcome == MergeFailed("Error: " + LoadAll(files).error)
      ensures files != [] && LoadAll(files).Ok? ==>
        outcome == Merged(MergedFileName, Concat(PagesOf(LoadAll(files).value)), MergedMessage(|files|))
    {
      if |files| == 0 {
        return NothingToMerge;
      }
      var pages: seq<Page> := [];
      for i := 0 to |files|
        invariant LoadAll(files[..i]).Ok?
        invariant pages == Concat(PagesOf(LoadAll(files[..i]).value))
      {
        match files[i].asPdf
        case LoadError(message) =>
          LoadAllStopsAt(files, i);
          return MergeFailed("Error: " + message);
        case Loaded(pdf) =>
          var copied := CopyPages(pdf, AllIndices(|pdf.pages|));
          CopyAllPages(pdf);
          pages := AddPages(pages, copied);
          MergeStep(files, i, pdf);
      }
      assert files[..|files|] == files;
      outcome := Merged(MergedFileName, pages, MergedMessage(|files|));
    }
  }

  /** `pdf.getPageIndices()`: 0, 1, ..., count - 1. */
  function AllIndices(count: nat): seq<int>
  {
    seq(count, k => k)
  }

  /** Copying every page index in order copies the whole document. */
  lemma CopyAllPages(doc: Document)
    ensures CopyPages(doc, AllIndices(|doc.pages|)) == doc.pages
  {
  }

  /** One more loaded file: its pages follow those gathered so far. */
  lemma MergeStep(files: seq<SourceFile>, i: nat, pdf: Document)
    requires i < |files| && files[i].asPdf == Loaded(pdf)
    requires LoadAll(files[..i]).Ok?
    ensures LoadAll(files[..i + 1]).Ok?
    ensures Concat(PagesOf(LoadAll(files[..i + 1]).value))
         == Concat(PagesOf(LoadAll(files[..i]).value)) + pdf.pages
  {
    assert files[..i + 1] == files[..i] + [files[i]];
    LoadAllSnocOne(files[..i], files[i], pdf);
    var before := LoadAll(files[..i]).value;
    var after := before + [pdf];
    assert PagesOf(after) == PagesOf(before) + [pdf.pages];
    assert PagesOf(after)[..|PagesOf(after)| - 1] == PagesOf(before);
  }

  /** A file that does not load after files that all load is the first error of the whole list. */
  lemma LoadAllStopsAt(files: seq<SourceFile>, i: nat)
    requires i < |files| && files[i].asPdf.LoadError?
    requires LoadAll(files[..i]).Ok?
    ensures LoadAll(files) == Err(files[i].asPdf.message)
  {
    LoadAllOk(files[..i]);
    assert forall j :: 0 <= j < i ==> files[..i][j] == files[j];
    LoadAllPrefixError(files, i);
  }

  lemma {:induction false} LoadAllPrefixError(files: seq<SourceFile>, i: nat)
    requires i < |files| && files[i].asPdf.LoadError?
    requires forall j :: 0 <= j < i ==> files[j].asPdf.Loaded?
    ensures LoadAll(files) == Err(files[i].asPdf.message)
  {
    if i > 0 {
      assert files[0].asPdf.Loaded?;
      assert forall j :: 0 <= j < i - 1 ==> files[1..][j] == files[j + 1];
      LoadAllPrefixError(files[1..], i - 1);
    }
  }

  /**
   * A merge's output holds the pages of every loaded document in list order
   * and each document's own page order: page j of document i sits after all
   * pages of the documents before it. Its length is the sum of the page
   * counts. (LoadAllOk says document i is the one file i loads to.)
   */
  lemma MergedPages(docs: seq<Document>, i: nat, j: nat)
    requires i < |docs| && j < |docs[i].pages|
    ensures var all := PagesOf(docs);
      && |Concat(all)| == TotalPages(all)
      && TotalPages(all[..i]) + j < |Concat(all)|
      && Concat(all)[TotalPages(all[..i]) + j] == docs[i].pages[j]
  {
    var all := PagesOf(docs);
    ConcatLength(all);
    ConcatAt(all, i, j);
  }
}
