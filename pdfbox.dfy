/** PDFBoxPDF2ImageConverterService: renders one page of a PDF document into an image with
    PDFBox, at a configurable image type and resolution. */
module PdfBox {
  import opened Outcomes
  import Host

  type Bytes = seq<bv8>

  /** BufferedImage.TYPE_INT_RGB. */
  const TYPE_INT_RGB: int := 1
  const DEFAULT_RESOLUTION: int := 96

  /** A page of a loaded document. */
  datatype Page = Page(content: Bytes)
  /** A loaded PDF document: its pages in order. */
  datatype PdfDocument = PdfDocument(pages: seq<Page>)
  /** A BufferedImage: its size, pixel type and pixels. */
  datatype Image = Image(width: int, height: int, imageType: int, pixels: Bytes)

  class PDFBoxPDF2ImageConverterService {
    var imageType: int
    var resolution: int
    /** PDDocument.load: parses the bytes of a stream. */
    const load: Bytes -> Result<PdfDocument>
    /** PDPage.convertToImage(imageType, resolution). */
    const render: (Page, int, int) -> Result<Image>
    /** Whether a document this service loaded is still open. */
    var documentOpen: bool
    /** How many times a close of the document handle has been attempted. */
    ghost var closeAttempts: nat

    constructor (load: Bytes -> Result<PdfDocument>, render: (Page, int, int) -> Result<Image>)
      ensures imageType == TYPE_INT_RGB && resolution == DEFAULT_RESOLUTION
      ensures this.load == load && this.render == render
      ensures !documentOpen && closeAttempts == 0
    {
      imageType := TYPE_INT_RGB;
      resolution := DEFAULT_RESOLUTION;
      this.load := load;
      this.render := render;
      documentOpen := false;
      closeAttempts := 0;
    }

    method SetImageType(imageType: int)
      modifies this`imageType
      ensures this.imageType == imageType
    {
      this.imageType := imageType;
    }

    method SetResolution(resolution: int)
      modifies this`resolution
      ensures this.resolution == resolution
    {
      this.resolution := resolution;
    }

    /** The image of a page of the document that data holds (None: a stream that cannot be read),
        stated by cases on loading and rendering: an IndexOutOfBoundsException raised anywhere
        inside gives null instead of an error. */
    function PageImage(data: Option<Bytes>, pageNumber: int): Result<Option<Image>>
      reads this
    {
      var loaded := if data.None? then Err(IOException) else load(data.value);
      match loaded
      case Err(e) => if e == IndexOutOfBounds then Ok(None) else Err(e)
      case Ok(doc) =>
        if pageNumber < 0 || pageNumber >= |doc.pages| then Ok(None)
        else
          match render(doc.pages[pageNumber], imageType, resolution)
          case Err(e) => if e == IndexOutOfBounds then Ok(None) else Err(e)
          case Ok(image) => Ok(Some(image))
    }

    /** getImageOfPage(pdfInputStream, pageNumber): loads the document, renders the page at the
        configured image type and resolution, turns a missing page into null, and closes the
        document handle on every exit, ignoring whatever close throws. */
    method GetImageOfPage(host: Host.Host, stream: Host.StreamId, pageNumber: int) returns (r: Result<Option<Image>>)
      modifies this`documentOpen, this`closeAttempts
      ensures r == PageImage(if stream in host.streams then Some(host.streams[stream]) else None, pageNumber)
      ensures stream in host.streams && load(host.streams[stream]).Ok? ==>
        var doc := load(host.streams[stream]).value;
        && (0 <= pageNumber < |doc.pages| && render(doc.pages[pageNumber], imageType, resolution).Ok? ==>
              r == Ok(Some(render(doc.pages[pageNumber], imageType, resolution).value)))
        && (pageNumber < 0 || pageNumber >= |doc.pages| ==> r == Ok(None))
      ensures stream in host.streams && load(host.streams[stream]).Err? && load(host.streams[stream]).error != IndexOutOfBounds ==>
        r == Err(load(host.streams[stream]).error)
      ensures !old(documentOpen) ==> !documentOpen
      ensures closeAttempts == old(closeAttempts) + 1
    {
      var loaded := if stream in host.streams then load(host.streams[stream]) else Err(IOException);
      var image: Option<Image> := None;
      var thrown: Option<Exception> := None;
      if loaded.Err? {
        thrown := Some(loaded.error);
      } else {
        documentOpen := true;
        var pages := loaded.value.pages;
        if pageNumber < 0 || pageNumber >= |pages| {
          thrown := Some(IndexOutOfBounds);
        } else {
          var rendered := render(pages[pageNumber], imageType, resolution);
          if rendered.Err? {
            thrown := Some(rendered.error);
          } else {
            image := Some(rendered.value);
          }
        }
      }
      // catch (IndexOutOfBoundsException): only a warning
      if thrown == Some(IndexOutOfBounds) {
        thrown := None;
      }
      // finally: close is attempted; on a null handle it throws, and every failure is swallowed
      closeAttempts := closeAttempts + 1;
      if loaded.Ok? {
        documentOpen := false;
      }
      if thrown.Some? {
        return Err(thrown.value);
      }
      r := Ok(image);
    }

    /** getImageOfPage(pdfFile, pageNumber): the stream overload on the file's content, with the
        stream it opens closed again on every path. */
    method GetImageOfPageFile(host: Host.Host, pdfFile: Option<Host.FileId>, pageNumber: int) returns (r: Result<Option<Image>>)
      requires host.Valid()
      modifies this`documentOpen, this`closeAttempts, host`streams, host`nextStream
      ensures host.Valid() && host.streams == old(host.streams)
      ensures pdfFile.None? ==> r == Err(NullPointer)
      ensures pdfFile.Some? && pdfFile.value !in host.files ==> r == Err(IOException)
      ensures pdfFile.Some? && pdfFile.value in host.files ==> r == PageImage(Some(host.files[pdfFile.value]), pageNumber)
      ensures !old(documentOpen) ==> !documentOpen
    {
      var input := host.OpenFile(pdfFile);
      if input.Err? {
        host.CloseQuietly(None);
        return Err(input.error);
      }
      r := GetImageOfPage(host, input.value, pageNumber);
      host.CloseQuietly(Some(input.value));
    }
  }
}
