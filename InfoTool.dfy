/**
 * The "PDF Info" tool: a file input whose handler loads the picked document
 * and lists its name, size, page count and information fields, showing
 * "N/A" for a text field the document leaves absent or empty.
 */
module InfoTool {
  import opened Wrappers
  import opened Pdf

  const NotAvailable := "N/A"

  /** `value || 'N/A'`: an absent field and an empty string are both falsy. */
  function OrNotAvailable(field: Option<string>): (shown: string)
    ensures shown != ""
  {
    if field.Some? && field.value != "" then field.value else NotAvailable
  }

  /**
   * The text shown for a field is never empty; it is the field itself when
   * that is a non-empty string, and "N/A" exactly otherwise or when the
   * field itself reads "N/A".
   */
  lemma OrNotAvailableShown(field: Option<string>)
    ensures OrNotAvailable(field) != ""
    ensures field.Some? && field.value != "" ==> OrNotAvailable(field) == field.value
    ensures OrNotAvailable(field) == NotAvailable <==>
      field.None? || field.value == "" || field.value == NotAvailable
  {
  }

  /** A field holding the text "N/A" is shown exactly like a missing field. */
  lemma NotAvailableAmbiguous()
    ensures OrNotAvailable(Some(NotAvailable)) == OrNotAvailable(None) == OrNotAvailable(Some(""))
  {
  }

  /** What the info panel lists about one document. */
  datatype InfoView = InfoView(
    fileName: string,
    fileSize: nat,
    pageCount: nat,
    title: string,
    author: string,
    subject: string,
    creator: string,
    producer: string,
    created: Option<Timestamp>,
    modified: Option<Timestamp>)

  /** What the info input's change handler shows. */
  datatype InfoOutcome =
    | NoFile
      // nothing was picked: the panel stays as it was
    | InfoFailed(status: string)
      // the document did not load
    | Shown(view: InfoView)

  /**
   * The info input's change handler: no file, nothing; a file that does not
   * load, its error; otherwise the file's name and size, the document's page
   * count, the five text fields with "N/A" for a missing one, and each date
   * only when the document has it.
   */
  function ShowInfo(file: Option<SourceFile>): (outcome: InfoOutcome)
    ensures outcome.NoFile? <==> file.None?
    ensures outcome.InfoFailed? <==> file.Some? && file.value.asPdf.LoadError?
  {
    match file
    case None => NoFile
    case Some(f) =>
      match f.asPdf
      case LoadError(message) => InfoFailed("Error: " + message)
      case Loaded(doc) =>
        var m := doc.metadata;
        Shown(InfoView(
          f.name, f.size, |doc.pages|,
          OrNotAvailable(m.title), OrNotAvailable(m.author), OrNotAvailable(m.subject),
          OrNotAvailable(m.creator), OrNotAvailable(m.producer),
          m.creationDate, m.modificationDate))
  }

  /**
   * The panel of a loaded document: the page count is the document's, each
   * text field is the document's value or "N/A" in its place, so every one
   * is filled in and shows the document's own value when it has a non-empty
   * one, and the dates are the document's own, so a date row appears
   * exactly when the document has that date.
   */
  lemma ShowInfoOfLoaded(f: SourceFile)
    requires f.asPdf.Loaded?
    ensures ShowInfo(Some(f)).Shown?
    ensures var v := ShowInfo(Some(f)).view;
      var m := f.asPdf.doc.metadata;
      && v.fileName == f.name && v.fileSize == f.size
      && v.pageCount == |f.asPdf.doc.pages|
      && v.title == OrNotAvailable(m.title) && v.author == OrNotAvailable(m.author)
      && v.subject == OrNotAvailable(m.subject) && v.creator == OrNotAvailable(m.creator)
      && v.producer == OrNotAvailable(m.producer)
      && v.created == m.creationDate && v.modified == m.modificationDate
      && v.title != "" && v.author != "" && v.subject != "" && v.creator != "" && v.producer != ""
      && (m.title.Some? && m.title.value != "" ==> v.title == m.title.value)
      && (m.author.Some? && m.author.value != "" ==> v.author == m.author.value)
      && (m.subject.Some? && m.subject.value != "" ==> v.subject == m.subject.value)
      && (m.creator.Some? && m.creator.value != "" ==> v.creator == m.creator.value)
      && (m.producer.Some? && m.producer.value != "" ==> v.producer == m.producer.value)
      && (v.created.Some? <==> m.creationDate.Some?)
      && (v.modified.Some? <==> m.modificationDate.Some?)
  {
    var m := f.asPdf.doc.metadata;
    OrNotAvailableShown(m.title);
    OrNotAvailableShown(m.author);
    OrNotAvailableShown(m.subject);
    OrNotAvailableShown(m.creator);
    OrNotAvailableShown(m.producer);
  }

  /** A file that does not load shows only its error; no information is listed. */
  lemma ShowInfoOfFailed(f: SourceFile)
    requires f.asPdf.LoadError?
    ensures ShowInfo(Some(f)) == InfoFailed("Error: " + f.asPdf.message)
  {
  }
}
