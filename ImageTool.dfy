/**
 * The "Images to PDF" tool: the list of images picked last, and a button that
 * embeds them one after the other, each on a page of its own size. An image
 * of an unsupported type, or one the library cannot embed, aborts the whole
 * conversion.
 */
module ImageTool {
  import opened Wrappers
  import opened JsNumber
  import opened Pdf

  /** What one click of the convert button does. */
  datatype ConvertOutcome =
    | NothingToConvert
      // no image is selected: the handler returns without a message
    | ConvertFailed(status: string)
      // an image could not be embedded: no output, only the error message
    | Converted(fileName: string, pages: seq<Page>, status: string)

  const ConvertedFileName := "converted-images.pdf"
  const UnsupportedPrefix := "Unsupported image type: "

  /** The declared types the tool embeds; every other type is refused. */
  const SupportedTypes: set<string> := {"image/png", "image/jpeg", "image/jpg"}

  /** The status line after a selection of one or more images. */
  function SelectedMessage(count: nat): string
  {
    NatToString(count) + " image(s) selected"
  }

  /** The status line after a successful conversion. */
  function ConvertedMessage(count: nat): string
  {
    "Successfully converted " + NatToString(count) + " image(s) to PDF!"
  }

  /** The embedder a declared type selects: PNG for image/png, JPEG for image/jpeg and image/jpg. */
  function FormatOf(mimeType: string): (format: Option<ImageFormat>)
    ensures format.Some? <==> mimeType in SupportedTypes
  {
    if mimeType == "image/png" then Some(Png)
    else if mimeType == "image/jpeg" || mimeType == "image/jpg" then Some(Jpeg)
    else None
  }

  /**
   * Exactly the three supported types select an embedder, and the type
   * alone decides which one: the PNG type the PNG embedder, the two JPEG
   * spellings the JPEG embedder.
   */
  lemma FormatOfSupported(mimeType: string)
    ensures FormatOf(mimeType).Some? <==> mimeType in SupportedTypes
    ensures FormatOf(mimeType) == Some(Png) <==> mimeType == "image/png"
    ensures FormatOf(mimeType) == Some(Jpeg) <==> mimeType == "image/jpeg" || mimeType == "image/jpg"
  {
  }

  /** What one embedder makes of a file's bytes, as an image of the given kind. */
  function EmbedAs(format: ImageFormat, embedding: Embedding): Result<EmbeddedImage, string>
  {
    match embedding
    case Embedded(width, height) => Ok(EmbeddedImage(format, width, height))
    case EmbedError(message) => Err(message)
  }

  /**
   * One image of the loop: read the bytes, dispatch on the declared type,
   * then embed. A read error comes first, whatever the type; an unsupported
   * type is an error naming the type.
   */
  function Embed(file: SourceFile): (r: Result<EmbeddedImage, string>)
    ensures file.readError.Some? ==> r == Err(file.readError.value)
    ensures r.Ok? ==> file.readError.None? && file.mimeType in SupportedTypes
  {
    match file.readError
    case Some(message) => Err(message)
    case None =>
      match FormatOf(file.mimeType)
      case None => Err(UnsupportedPrefix + file.mimeType)
      case Some(Png) => EmbedAs(Png, file.asPng)
      case Some(Jpeg) => EmbedAs(Jpeg, file.asJpeg)
  }

  /**
   * An image whose bytes are read embeds exactly when its type is supported
   * and the embedder the type selects accepts its bytes; the image keeps the
   * size that embedder reports. An unsupported type fails with a message
   * naming that type. A read error is reported even for an unsupported type.
   */
  lemma EmbedDispatch(file: SourceFile)
    ensures file.readError.Some? ==> Embed(file) == Err(file.readError.value)
    ensures file.readError.None? && file.mimeType !in SupportedTypes ==>
      Embed(file) == Err(UnsupportedPrefix + file.mimeType)
    ensures file.readError.None? && file.mimeType == "image/png" ==>
      (Embed(file).Ok? <==> file.asPng.Embedded?)
      && (file.asPng.Embedded? ==> Embed(file).value == EmbeddedImage(Png, file.asPng.width, file.asPng.height))
    ensures file.readError.None? && file.mimeType in {"image/jpeg", "image/jpg"} ==>
      (Embed(file).Ok? <==> file.asJpeg.Embedded?)
      && (file.asJpeg.Embedded? ==> Embed(file).value == EmbeddedImage(Jpeg, file.asJpeg.width, file.asJpeg.height))
  {
    FormatOfSupported(file.mimeType);
  }

  /** `pdfDoc.addPage([w, h])` followed by `drawImage(image, {x: 0, y: 0, width: w, height: h})`. */
  function ImagePage(image: EmbeddedImage): Page
  {
    Page(image.width, image.height, DrawnImage(image, 0, 0, image.width, image.height))
  }

  /**
   * The conversion of a list of images: the pages built so far followed by
   * the next image's page, or the first error met.
   */
  function ConvertAll(files: seq<SourceFile>): (r: Result<seq<Page>, string>)
    ensures r.Ok? ==> |r.value| == |files|
  {
    if files == [] then Ok([])
    else
      match ConvertAll(files[..|files| - 1])
      case Err(message) => Err(message)
      case Ok(pages) =>
        match Embed(files[|files| - 1])
        case Err(message) => Err(message)
        case Ok(image) => Ok(pages + [ImagePage(image)])
  }

  /**
   * The conversion succeeds exactly when every image embeds, and then page i
   * is image i's page: sized to the image, the image drawn over all of it
   * from the corner (0, 0).
   */
  lemma {:induction false} ConvertAllOk(files: seq<SourceFile>)
    ensures ConvertAll(files).Ok? <==> forall i :: 0 <= i < |files| ==> Embed(files[i]).Ok?
    ensures ConvertAll(files).Ok? ==> forall i :: 0 <= i < |files| ==>
      var image := Embed(files[i]).value;
      var page := ConvertAll(files).value[i];
      && page.width == image.width && page.height == image.height
      && page.content == DrawnImage(image, 0, 0, image.width, image.height)
  {
    if files != [] {
      var front := files[..|files| - 1];
      ConvertAllOk(front);
      assert forall i :: 0 <= i < |front| ==> front[i] == files[i];
    }
  }

  /**
   * A failed conversion reports the error of the first image that does not
   * embed: every image before it embeds.
   */
  lemma {:induction false} ConvertAllFirstError(files: seq<SourceFile>)
    requires ConvertAll(files).Err?
    ensures exists i :: (0 <= i < |files|
      && Embed(files[i]) == Err(ConvertAll(files).error)
      && forall j :: 0 <= j < i ==> Embed(files[j]).Ok?)
  {
    var last := |files| - 1;
    var front := files[..last];
    if ConvertAll(front).Err? {
      ConvertAllFirstError(front);
      var i :| 0 <= i < |front|
        && Embed(front[i]) == Err(ConvertAll(front).error)
        && forall j :: 0 <= j < i ==> Embed(front[j]).Ok?;
      assert files[i] == front[i];
      assert forall j :: 0 <= j < i ==> files[j] == front[j];
    } else {
      ConvertAllOk(front);
      assert forall j :: 0 <= j < last ==> files[j] == front[j];
    }
  }

  /** Once the images up to position n fail, further images change nothing. */
  lemma {:induction false} ConvertAllKeepsError(files: seq<SourceFile>, n: nat)
    requires n <= |files| && ConvertAll(files[..n]).Err?
    ensures ConvertAll(files) == ConvertAll(files[..n])
    decreases |files| - n
  {
    if n < |files| {
      var longer := files[..n + 1];
      assert longer[..n] == files[..n];
      assert ConvertAll(longer) == ConvertAll(files[..n]);
      ConvertAllKeepsError(files, n + 1);
    } else {
      assert files[..n] == files;
    }
  }

  /** Images that all embed convert. */
  lemma {:induction false} ConvertAllEmbedsAll(files: seq<SourceFile>)
    requires forall j :: 0 <= j < |files| ==> Embed(files[j]).Ok?
    ensures ConvertAll(files).Ok?
  {
    if files != [] {
      var front := files[..|files| - 1];
      assert forall j :: 0 <= j < |front| ==> front[j] == files[j];
      ConvertAllEmbedsAll(front);
    }
  }

  /**
   * An image that does not embed after images that all do decides the
   * outcome: the conversion fails with that image's error, whatever follows
   * it.
   */
  lemma {:induction false} ConvertAllStopsAt(files: seq<SourceFile>, i: nat)
    requires i < |files| && Embed(files[i]).Err?
    requires forall j :: 0 <= j < i ==> Embed(files[j]).Ok?
    ensures ConvertAll(files) == Err(Embed(files[i]).error)
  {
    var front := files[..|files| - 1];
    assert forall j :: 0 <= j < |front| ==> front[j] == files[j];
    if i == |front| {
      ConvertAllEmbedsAll(front);
    } else {
      ConvertAllStopsAt(front, i);
    }
  }

  /** A readable image of an unsupported type after images that all embed: no output, and the message names the type. */
  lemma UnsupportedTypeAborts(files: seq<SourceFile>, i: nat)
    requires i < |files| && files[i].readError.None? && files[i].mimeType !in SupportedTypes
    requires forall j :: 0 <= j < i ==> Embed(files[j]).Ok?
    ensures ConvertAll(files) == Err(UnsupportedPrefix + files[i].mimeType)
  {
    EmbedDispatch(files[i]);
    ConvertAllStopsAt(files, i);
  }

  /**
   * An image whose bytes cannot be read, after images that all embed: the
   * conversion fails with the read error, even when the image's type is
   * unsupported.
   */
  lemma ReadErrorAborts(files: seq<SourceFile>, i: nat)
    requires i < |files| && files[i].readError.Some?
    requires forall j :: 0 <= j < i ==> Embed(files[j]).Ok?
    ensures ConvertAll(files) == Err(files[i].readError.value)
  {
    ConvertAllStopsAt(files, i);
  }

  /** The image tool's state: the images picked last. */
  class ImageConverter {
    var images: seq<SourceFile>

    constructor ()
      ensures images == []
    {
      images := [];
    }

    /**
     * The image input's change handler: the selection replaces the list,
     * even an empty one; only a non-empty selection reports its size.
     */
    method Select(newFiles: seq<SourceFile>) returns (status: Option<string>)
      modifies this
      ensures images == newFiles
      ensures |newFiles| > 0 ==> status == Some(SelectedMessage(|newFiles|))
      ensures |newFiles| == 0 ==> status == None
    {
      images := newFiles;
      if |images| > 0 {
        status := Some(SelectedMessage(|images|));
      } else {
        status := None;
      }
    }

    /**
     * The convert button's click handler: image after image is embedded and
     * given a page of its own size; the first image that cannot be embedded
     * ends the conversion with its error and no output.
     */
    method Convert() returns (outcome: ConvertOutcome)
      ensures images == [] ==> outcome == NothingToConvert
      ensures images != [] && ConvertAll(images).Err? ==> outcome == ConvertFailed("Error: " + ConvertAll(images).error)
      ensures images != [] && ConvertAll(images).Ok? ==>
        outcome == Converted(ConvertedFileName, ConvertAll(images).value, ConvertedMessage(|images|))
    {
      if |images| == 0 {
        return NothingToConvert;
      }
      var pages: seq<Page> := [];
      for i := 0 to |images|
        invariant ConvertAll(images[..i]) == Ok(pages)
      {
        var step := images[..i + 1];
        assert step[..i] == images[..i];
        match Embed(images[i])
        case Err(message) =>
          assert ConvertAll(step) == Err(message);
          ConvertAllKeepsError(images, i + 1);
          return ConvertFailed("Error: " + message);
        case Ok(image) =>
          pages := pages + [ImagePage(image)];
      }
      assert images[..|images|] == images;
      outcome := Converted(ConvertedFileName, pages, ConvertedMessage(|images|));
    }
  }
}
