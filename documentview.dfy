/** DocumentViewService: turns documents stored in the repository into SWF views and thumbnails.
    A document of a supported mime-type group is first brought to PDF (a PDF is taken as it is,
    anything else goes through the document converter), then either converted to SWF with pdf2swf
    and stored next to the document or in its swfView child, or rendered on its first page and
    stored, scaled, as its thumbnail child. Every temporary file is deleted again and every
    failure on the way is caught and logged. */
module DocumentView {
  import opened Outcomes
  import Strings
  import MimeTypes
  import Host
  import Jcr
  import Pdf2Swf
  import PdfBox

  type Bytes = seq<bv8>

  const PDF_GROUP := "pdf"
  const SWF_MIME := "application/x-shockwave-flash"
  const SWF_VIEW := "swfView"
  const SWF_VIEW_MIXIN := "jmix:swfDocumentView"
  const JAHIANT_RESOURCE := "jnt:resource"
  const JAHIAMIX_IMAGE := "jmix:image"
  const J_WIDTH := "j:width"
  const J_HEIGHT := "j:height"
  const DEFAULT_THUMBNAIL_FORMAT := "png"

  /** The DocumentConverterService: whether it is enabled, and what it makes of a document's
      content and mime type when asked for application/pdf. */
  datatype DocumentConverter = DocumentConverter(enabled: bool, convert: (Bytes, Option<string>) -> Result<Bytes>)

  /** The name of the SWF file made from a document: the name up to its last dot, plus ".swf". */
  function SwfName(name: string): string {
    Strings.SubstringBeforeLast(name, '.') + ".swf"
  }

  /** The SWF name keeps the document's name up to its last dot, or the whole name when it has no
      dot, and ends in ".swf". */
  lemma SwfNameParts(name: string)
    ensures var base := Strings.SubstringBeforeLast(name, '.');
      && SwfName(name) == base + ".swf"
      && base <= name
      && ('.' !in name ==> base == name)
      && ('.' in name ==> |base| < |name| && name[|base|] == '.' && '.' !in name[|base| + 1..])
  {
    var i := Strings.LastIndexOf(name, '.');
    var base := Strings.SubstringBeforeLast(name, '.');
    if '.' in name {
      var k :| 0 <= k < |name| && name[k] == '.';
      assert i >= 0;
      assert |base| == i;
      var tail := name[i + 1..];
      forall j | 0 <= j < |tail|
        ensures tail[j] != '.'
      {
        assert tail[j] == name[i + 1 + j];
      }
    }
  }

  /** Naming is idempotent: the SWF name of an SWF name is itself. */
  lemma SwfNameIdempotent(name: string)
    ensures SwfName(SwfName(name)) == SwfName(name)
  {
    var base := Strings.SubstringBeforeLast(name, '.');
    var s := base + ".swf";
    assert s[|base|] == '.';
    forall j | |base| < j < |s|
      ensures s[j] != '.'
    {
      assert s[j] == ".swf"[j - |base|];
    }
    var i := Strings.LastIndexOf(s, '.');
    assert i == |base|;
    assert s[..|base|] == base;
  }

  /** What findAvailableNodeName promises: a name that no child of the folder has. */
  ghost predicate ValidNamer(namer: (set<string>, string) -> string) {
    forall taken, name :: namer(taken, name) !in taken
  }

  class DocumentViewService {
    var enabled: bool
    var supportedDocumentFormats: Option<seq<string>>
    var thumbnailImageFormat: string
    /** The mime-type groups of the content repository (JCRContentUtils.getMimeTypes). */
    const registry: MimeTypes.Registry
    const documentConverter: DocumentConverter
    const pdf2image: PdfBox.PDFBoxPDF2ImageConverterService
    const pdf2swf: Pdf2Swf.PDF2SWFConverterService
    /** JCRContentUtils.findAvailableNodeName, over the names of the folder's children. */
    const findAvailableNodeName: (set<string>, string) -> string
    /** Thumbnailator: Thumbnails.of(image).size(s, s).asBufferedImage(). */
    const thumbnailer: (PdfBox.Image, int) -> Result<PdfBox.Image>
    /** ImageIO.write(image, format, stream): the bytes written. */
    const imageWriter: (PdfBox.Image, string) -> Result<Bytes>

    /** The registry holds no wildcard pattern the glob reading would get wrong, and the name
        chooser keeps its promise. */
    ghost predicate Valid() {
      MimeTypes.RegexSafe(registry) && ValidNamer(findAvailableNodeName)
    }

    constructor (registry: MimeTypes.Registry, documentConverter: DocumentConverter,
                 pdf2image: PdfBox.PDFBoxPDF2ImageConverterService, pdf2swf: Pdf2Swf.PDF2SWFConverterService,
                 findAvailableNodeName: (set<string>, string) -> string,
                 thumbnailer: (PdfBox.Image, int) -> Result<PdfBox.Image>, imageWriter: (PdfBox.Image, string) -> Result<Bytes>)
      ensures !enabled && supportedDocumentFormats.None? && thumbnailImageFormat == DEFAULT_THUMBNAIL_FORMAT
      ensures this.registry == registry && this.documentConverter == documentConverter
      ensures this.pdf2image == pdf2image && this.pdf2swf == pdf2swf && this.findAvailableNodeName == findAvailableNodeName
      ensures this.thumbnailer == thumbnailer && this.imageWriter == imageWriter
    {
      enabled := false;
      supportedDocumentFormats := None;
      thumbnailImageFormat := DEFAULT_THUMBNAIL_FORMAT;
      this.registry := registry;
      this.documentConverter := documentConverter;
      this.pdf2image := pdf2image;
      this.pdf2swf := pdf2swf;
      this.findAvailableNodeName := findAvailableNodeName;
      this.thumbnailer := thumbnailer;
      this.imageWriter := imageWriter;
    }

    method SetEnabled(enabled: bool)
      modifies this`enabled
      ensures this.enabled == enabled
    {
      this.enabled := enabled;
    }

    method SetThumbnailImageFormat(format: string)
      modifies this`thumbnailImageFormat
      ensures thumbnailImageFormat == format
    {
      thumbnailImageFormat := format;
    }

    /** setSupportedDocumentFormats: a null or empty set is stored as null; any other set becomes
        an array holding each of its formats once, in no particular order. */
    method SetSupportedDocumentFormats(formats: Option<set<string>>)
      modifies this`supportedDocumentFormats
      ensures supportedDocumentFormats.None? <==> formats.None? || formats.value == {}
      ensures supportedDocumentFormats.Some? ==>
        var g := supportedDocumentFormats.value;
        && (forall x :: x in g <==> x in formats.value)
        && |g| == |formats.value|
    {
      if formats.None? || formats.value == {} {
        supportedDocumentFormats := None;
        return;
      }
      var rest := formats.value;
      var list: seq<string> := [];
      while rest != {}
        invariant rest <= formats.value
        invariant forall x :: x in list <==> x in formats.value && x !in rest
        invariant |list| + |rest| == |formats.value|
        decreases rest
      {
        var x :| x in rest;
        list := list + [x];
        rest := rest - {x};
      }
      supportedDocumentFormats := Some(list);
    }

    /** isMimeTypeGroup(type, "pdf"). */
    predicate IsPdf(mime: Option<string>) {
      MimeTypes.InGroups(registry, mime, [PDF_GROUP])
    }

    method CheckPdf(mime: Option<string>) returns (b: bool)
      requires MimeTypes.RegexSafe(registry)
      ensures b == IsPdf(mime)
    {
      var r := MimeTypes.IsMimeTypeGroupString(registry, mime, Some(PDF_GROUP));
      Strings.SplitWholeToken(PDF_GROUP, MimeTypes.GROUP_SEPARATORS);
      b := r.value;
    }

    /** The guard of convert, createView and createThumbnail: the service is enabled, the
        supported formats are set, and the node is an nt:file whose content type belongs to one of
        them. */
    predicate Supported(nodes: Jcr.Nodes, p: Jcr.Path)
      reads this
    {
      && enabled && supportedDocumentFormats.Some?
      && p in nodes && Jcr.IsNodeType(nodes[p], Jcr.NT_FILE)
      && MimeTypes.InGroups(registry, Jcr.ContentType(nodes, p), supportedDocumentFormats.value)
    }

    method CheckSupported(session: Jcr.Session, p: Jcr.Path) returns (b: bool)
      requires MimeTypes.RegexSafe(registry) && p in session.nodes
      ensures b == Supported(session.nodes, p)
    {
      if !enabled || supportedDocumentFormats.None? {
        return false;
      }
      if !Jcr.IsNodeType(session.nodes[p], Jcr.NT_FILE) {
        return false;
      }
      var found, _, _ := MimeTypes.IsMimeTypeGroup(registry, Jcr.ContentType(session.nodes, p), supportedDocumentFormats.value);
      b := found;
    }

    /** What convertToPDF makes of a document's content: the content itself for a PDF, nothing
        when the document converter is disabled, and otherwise the converter's output, which it
        writes into a new temporary file. */
    function PdfContent(canCreateTemp: bool, content: Bytes, mime: Option<string>): Result<Option<Bytes>>
      reads this
    {
      if IsPdf(mime) then Ok(Some(content))
      else if !documentConverter.enabled then Ok(None)
      else
        match documentConverter.convert(content, mime)
        case Err(e) => Err(e)
        case Ok(pdf) => if canCreateTemp then Ok(Some(pdf)) else Err(IOException)
    }

    /** What convert(File, String) makes of a document's content: its PDF form handed to pdf2swf,
        where a missing PDF reaches pdf2swf as a null input. */
    function SwfContent(canCreateTemp: bool, content: Bytes, mime: Option<string>): Result<Option<Bytes>>
      reads this, pdf2swf
    {
      match PdfContent(canCreateTemp, content, mime)
      case Err(e) => Err(e)
      case Ok(pdf) => pdf2swf.Swf(canCreateTemp, pdf)
    }

    /** documentConverterService.convert(file, mime, "application/pdf"). */
    method RunConverter(host: Host.Host, source: Host.FileId, mime: Option<string>) returns (r: Result<Host.FileId>)
      requires host.Valid() && source in host.files
      modifies host`files, host`nextFile
      ensures host.Valid()
      ensures var c := documentConverter.convert(old(host.files)[source], mime);
        && (c.Err? ==> r == Err(c.error) && host.files == old(host.files))
        && (c.Ok? && !host.canCreateTemp ==> r == Err(IOException) && host.files == old(host.files))
        && (c.Ok? && host.canCreateTemp ==>
              r == Ok(old(host.nextFile)) && old(host.nextFile) !in old(host.files)
              && host.files == old(host.files)[old(host.nextFile) := c.value])
      ensures r.Ok? ==> r.value < host.nextFile
    {
      var c := documentConverter.convert(host.files[source], mime);
      if c.Err? {
        return Err(c.error);
      }
      var out := host.CreateTempFile();
      if out.Err? {
        return Err(out.error);
      }
      host.WriteFile(out.value, c.value);
      r := Ok(out.value);
    }

    /** convertToPDF(sourceFile, mime): the source file itself for the "pdf" group, null when the
        document converter is disabled, and the converter's output file otherwise. */
    method ConvertToPdf(host: Host.Host, source: Host.FileId, mime: Option<string>) returns (r: Result<Option<Host.FileId>>)
      requires MimeTypes.RegexSafe(registry) && host.Valid() && source in host.files
      modifies host`files, host`nextFile
      ensures host.Valid()
      ensures IsPdf(mime) ==> r == Ok(Some(source)) && host.files == old(host.files)
      ensures !IsPdf(mime) && !documentConverter.enabled ==> r == Ok(None) && host.files == old(host.files)
      ensures !IsPdf(mime) ==>
        var pc := PdfContent(host.canCreateTemp, old(host.files)[source], mime);
        && (pc.Err? ==> r == Err(pc.error) && host.files == old(host.files))
        && (pc == Ok(None) ==> r == Ok(None) && host.files == old(host.files))
        && (pc.Ok? && pc.value.Some? ==>
              r == Ok(Some(old(host.nextFile))) && old(host.nextFile) !in old(host.files)
              && host.files == old(host.files)[old(host.nextFile) := pc.value.value])
      ensures r.Ok? && r.value.Some? ==> r.value.value < host.nextFile
    {
      var isPdf := CheckPdf(mime);
      if isPdf {
        return Ok(Some(source));
      }
      if !documentConverter.enabled {
        return Ok(None);
      }
      var out := RunConverter(host, source, mime);
      if out.Err? {
        return Err(out.error);
      }
      r := Ok(Some(out.value));
    }

    /** convert(sourceFile, mime): the SWF file made from the document's PDF form; the
        intermediate PDF is deleted whatever happens, and so is the source itself when it was the
        PDF. No other file is created or removed. */
    method ConvertFile(host: Host.Host, source: Host.FileId, mime: Option<string>) returns (r: Result<Option<Host.FileId>>)
      requires MimeTypes.RegexSafe(registry) && host.Valid() && source in host.files
      modifies host`files, host`nextFile, host`spawned
      ensures host.Valid()
      ensures var s := SwfContent(host.canCreateTemp, old(host.files)[source], mime);
        var kept := if IsPdf(mime) then old(host.files) - {source} else old(host.files);
        && (s.Err? ==> r == Err(s.error) && host.files == kept)
        && (s.Ok? && s.value.None? ==> r == Ok(None) && host.files == kept)
        && (s.Ok? && s.value.Some? ==>
              r.Ok? && r.value.Some? && r.value.value !in old(host.files)
              && host.files == kept[r.value.value := s.value.value])
    {
      var pdf := ConvertToPdf(host, source, mime);
      if pdf.Err? {
        return Err(pdf.error);
      }
      r := pdf2swf.Convert(host, pdf.value);
      host.DeleteQuietly(pdf.value);
    }

    /** Where convert(node) stores the SWF file: beside the document, under its SWF name, or under
        a name no sibling has when existing files must not be overwritten. The root has no parent,
        so nothing is stored for it. */
    function SwfTarget(nodes: Jcr.Nodes, p: Jcr.Path, overwrite: bool): Option<Jcr.Path> {
      match Jcr.Parent(p)
      case None => None
      case Some(folder) =>
        var name := SwfName(Jcr.Name(p));
        Some(folder + [if overwrite then name else findAvailableNodeName(Jcr.ChildNames(nodes, folder), name)])
    }

    /** The SWF content convert(node) and createView obtain for a supported document, or None when
        a step fails or produces nothing: the temporary input file, the download of the content
        into it, and the conversion. */
    function ProducedSwf(nodes: Jcr.Nodes, canCreateTemp: bool, p: Jcr.Path): Option<Bytes>
      reads this, pdf2swf
    {
      if !canCreateTemp then None
      else
        match Jcr.FileData(nodes, p)
        case None => None
        case Some(content) =>
          match SwfContent(canCreateTemp, content, Jcr.ContentType(nodes, p))
          case Ok(Some(swf)) => Some(swf)
          case _ => None
    }

    /** The repository after convert(node, overwrite): None when nothing is written. */
    function ConvertedNodes(nodes: Jcr.Nodes, canCreateTemp: bool, p: Jcr.Path, overwrite: bool): Option<Jcr.Nodes>
      reads this, pdf2swf
    {
      if !Supported(nodes, p) then None
      else
        match ProducedSwf(nodes, canCreateTemp, p)
        case None => None
        case Some(swf) =>
          match SwfTarget(nodes, p, overwrite)
          case None => None
          case Some(target) => Some(Jcr.WithFile(nodes, target, swf, SWF_MIME))
    }

    /** The temporary files a step leaves for its caller to delete. */
    static function Temporaries(inFile: Option<Host.FileId>, outFile: Option<Host.FileId>): set<Host.FileId> {
      (if inFile.Some? then {inFile.value} else {}) + (if outFile.Some? then {outFile.value} else {})
    }

    /** The temporary-file part shared by convert(node) and createView: the document's content is
        downloaded into a new temporary file and converted; the input file is left for the caller
        to delete. */
    method ProduceSwf(session: Jcr.Session, host: Host.Host, p: Jcr.Path) returns (inFile: Option<Host.FileId>, outFile: Option<Host.FileId>)
      requires MimeTypes.RegexSafe(registry) && host.Valid()
      modifies host`files, host`nextFile, host`spawned
      ensures host.Valid()
      ensures inFile.Some? ==> inFile.value !in old(host.files)
      ensures outFile.Some? ==> outFile.value !in old(host.files) && outFile != inFile && outFile.value in host.files
      ensures host.files - Temporaries(inFile, outFile) == old(host.files)
      ensures var swf := old(ProducedSwf(session.nodes, host.canCreateTemp, p));
        (swf.Some? <==> outFile.Some?) && (swf.Some? ==> host.files[outFile.value] == swf.value)
    {
      inFile, outFile := None, None;
      var created := host.CreateTempFile();
      if created.Err? {
        return;
      }
      inFile := Some(created.value);
      var downloaded := session.DownloadFileContent(host, p, created.value);
      if downloaded.Fail? {
        return;
      }
      outFile := ConvertDownloaded(host, created.value, Jcr.ContentType(session.nodes, p));
    }

    /** The conversion step of convert(node) and createView on the downloaded input file: an
        output file exists exactly when an SWF was produced, and apart from it and the input file
        the files are as before. */
    method ConvertDownloaded(host: Host.Host, inFile: Host.FileId, mime: Option<string>) returns (outFile: Option<Host.FileId>)
      requires MimeTypes.RegexSafe(registry) && host.Valid() && inFile in host.files
      modifies host`files, host`nextFile, host`spawned
      ensures host.Valid()
      ensures outFile.Some? ==> outFile.value !in old(host.files) && outFile.value in host.files
      ensures host.files - Temporaries(Some(inFile), outFile) == old(host.files) - {inFile}
      ensures var s := old(SwfContent(host.canCreateTemp, host.files[inFile], mime));
        (outFile.Some? <==> s.Ok? && s.value.Some?) && (outFile.Some? ==> host.files[outFile.value] == s.value.value)
    {
      var converted := ConvertFile(host, inFile, mime);
      outFile := None;
      if converted.Ok? {
        outFile := converted.value;
      }
    }

    /** The upload part of convert(node): the SWF file is streamed into a file node at the target
        path, the session is saved, and the stream is closed again. */
    method UploadConverted(session: Jcr.Session, host: Host.Host, p: Jcr.Path, out: Host.FileId, overwrite: bool)
      requires host.Valid() && out in host.files && p != []
      modifies session`nodes, session`persisted, host`streams, host`nextStream
      ensures host.Valid() && host.streams == old(host.streams)
      ensures session.nodes == Jcr.WithFile(old(session.nodes), SwfTarget(old(session.nodes), p, overwrite).value, host.files[out], SWF_MIME)
      ensures session.persisted == session.nodes
    {
      var folder := Jcr.Parent(p).value;
      var newName := SwfName(Jcr.Name(p));
      if !overwrite {
        newName := findAvailableNodeName(Jcr.ChildNames(session.nodes, folder), newName);
      }
      var stream := host.OpenFile(Some(out));
      session.UploadFile(folder, newName, host.streams[stream.value], SWF_MIME);
      session.Save();
      host.CloseQuietly(Some(stream.value));
    }

    /** convert(fileNode, overwriteIfExists): for a supported document, the SWF made from it is
        uploaded beside it and saved; nothing is written when the service is off, the node is not
        a supported file, or any step fails, since every exception is caught and logged. Both
        temporary files are gone afterwards, on every path. */
    method ConvertNode(session: Jcr.Session, host: Host.Host, p: Jcr.Path, overwrite: bool)
      requires Valid() && host.Valid() && p in session.nodes
      modifies session`nodes, session`persisted, host`files, host`nextFile, host`streams, host`nextStream, host`spawned
      ensures host.Valid() && host.files == old(host.files) && host.streams == old(host.streams)
      ensures var after := old(ConvertedNodes(session.nodes, host.canCreateTemp, p, overwrite));
        && (after.None? ==> session.nodes == old(session.nodes) && session.persisted == old(session.persisted))
        && (after.Some? ==> session.nodes == after.value && session.persisted == after.value)
    {
      ghost var after := ConvertedNodes(session.nodes, host.canCreateTemp, p, overwrite);
      var supported := CheckSupported(session, p);
      if !supported {
        return;
      }
      ghost var before := session.nodes;
      ghost var swf := ProducedSwf(before, host.canCreateTemp, p);
      var inFile, outFile := ProduceSwf(session, host, p);
      assert swf.Some? <==> outFile.Some?;
      if outFile.Some? && p != [] {
        UploadConverted(session, host, p, outFile.value, overwrite);
        assert after == Some(session.nodes);
      } else {
        assert after.None?;
      }
      DeleteTemporaries(host, inFile, outFile);
    }

    /** The finally block of convert(node) and createView: both temporary files are deleted. */
    static method DeleteTemporaries(host: Host.Host, inFile: Option<Host.FileId>, outFile: Option<Host.FileId>)
      requires host.Valid()
      modifies host`files
      ensures host.Valid() && host.files == old(host.files) - Temporaries(inFile, outFile)
    {
      host.DeleteQuietly(inFile);
      host.DeleteQuietly(outFile);
    }

    /** convert(node, true) run a second time on the repository it produced writes the same SWF
        file over the one it stored, so the repository stays as the first run left it: one
        replaced artifact, not two. The SWF must not be stored over the document itself. */
    lemma ConvertIdempotent(nodes: Jcr.Nodes, canCreateTemp: bool, p: Jcr.Path)
      requires ConvertedNodes(nodes, canCreateTemp, p, true).Some?
      requires SwfTarget(nodes, p, true).value != p
      ensures var after := ConvertedNodes(nodes, canCreateTemp, p, true);
        ConvertedNodes(after.value, canCreateTemp, p, true) == after
    {
      var t := SwfTarget(nodes, p, true).value;
      var swf := ProducedSwf(nodes, canCreateTemp, p).value;
      var after := Jcr.WithFile(nodes, t, swf, SWF_MIME);
      var c := p + [Jcr.JCR_CONTENT];
      Jcr.UploadReadsBack(nodes, t, swf, SWF_MIME);
      assert |t| == |p| by {
        assert t == Jcr.Parent(p).value + [SwfName(Jcr.Name(p))];
      }
      assert c != t && c != t + [Jcr.JCR_CONTENT] by {
        assert |c| != |t|;
        assert c[..|p|] == p && (t + [Jcr.JCR_CONTENT])[..|p|] == t;
      }
      assert p != t + [Jcr.JCR_CONTENT] by {
        assert |p| != |t + [Jcr.JCR_CONTENT]|;
      }
      assert after[p] == nodes[p];
      assert (c in after <==> c in nodes) && (c in nodes ==> after[c] == nodes[c]);
      assert Jcr.ContentType(after, p) == Jcr.ContentType(nodes, p);
      assert Jcr.FileData(after, p) == Jcr.FileData(nodes, p);
      assert Supported(after, p);
      assert ProducedSwf(after, canCreateTemp, p) == Some(swf);
      Jcr.WithFileIdempotent(nodes, t, swf, SWF_MIME);
    }

    /** The SWF file convert(node) stores sits in the document's folder and reads back: with
        overwriting it has the document's SWF name, otherwise a name no sibling had. Something is
        stored exactly when the document is supported, has a parent and yields an SWF. */
    lemma ConvertedReadsBack(nodes: Jcr.Nodes, canCreateTemp: bool, p: Jcr.Path, overwrite: bool)
      requires Valid()
      ensures var after := ConvertedNodes(nodes, canCreateTemp, p, overwrite);
        var swf := ProducedSwf(nodes, canCreateTemp, p);
        && (after.Some? <==> Supported(nodes, p) && p != [] && swf.Some?)
        && (after.Some? ==>
              var t := SwfTarget(nodes, p, overwrite).value;
              && Jcr.Parent(t) == Jcr.Parent(p)
              && (overwrite ==> Jcr.Name(t) == SwfName(Jcr.Name(p)))
              && (!overwrite ==> t !in nodes)
              && Jcr.FileData(after.value, t) == swf
              && Jcr.ContentType(after.value, t) == Some(SWF_MIME))
    {
      var after := ConvertedNodes(nodes, canCreateTemp, p, overwrite);
      if after.Some? {
        var folder := Jcr.Parent(p).value;
        var t := SwfTarget(nodes, p, overwrite).value;
        assert t[..|folder|] == folder;
        if !overwrite {
          var name := findAvailableNodeName(Jcr.ChildNames(nodes, folder), SwfName(Jcr.Name(p)));
          assert name !in Jcr.ChildNames(nodes, folder);
        }
        Jcr.UploadReadsBack(nodes, t, ProducedSwf(nodes, canCreateTemp, p).value, SWF_MIME);
      }
    }

    /** The guard: when the service is off, the supported formats are unset, the node is not an
        nt:file or its content type is in none of the supported groups, convert, createView and
        createThumbnail change nothing. */
    lemma UnsupportedUntouched(nodes: Jcr.Nodes, canCreateTemp: bool, p: Jcr.Path, overwrite: bool, name: string, size: int, now: Jcr.Timestamp)
      requires p in nodes
      requires !enabled || supportedDocumentFormats.None? || !Jcr.IsNodeType(nodes[p], Jcr.NT_FILE)
        || !MimeTypes.InGroups(registry, Jcr.ContentType(nodes, p), supportedDocumentFormats.value)
      ensures ConvertedNodes(nodes, canCreateTemp, p, overwrite).None?
      ensures ViewedNodes(nodes, canCreateTemp, p, now).None?
      ensures ThumbnailedNodes(nodes, canCreateTemp, p, name, size, now) == nodes
    {
    }

    /** The repository after createView(node): None when nothing is written. */
    function ViewedNodes(nodes: Jcr.Nodes, canCreateTemp: bool, p: Jcr.Path, now: Jcr.Timestamp): Option<Jcr.Nodes>
      reads this, pdf2swf
    {
      if !Supported(nodes, p) then None
      else
        match ProducedSwf(nodes, canCreateTemp, p)
        case None => None
        case Some(swf) => Some(WithView(nodes, p, swf, now))
    }

    /** The storing part of createView: the swfView child is found or made, its data replaced by
        the SWF file's content, its mime type and modification time set, and the session saved;
        the stream on the SWF file is closed again. */
    method StoreView(session: Jcr.Session, host: Host.Host, p: Jcr.Path, out: Host.FileId, now: Jcr.Timestamp)
      requires host.Valid() && p in session.nodes && out in host.files
      modifies session`nodes, session`persisted, host`streams, host`nextStream
      ensures host.Valid() && host.streams == old(host.streams)
      ensures session.nodes == WithView(old(session.nodes), p, host.files[out], now)
      ensures session.persisted == session.nodes
    {
      var view := p + [SWF_VIEW];
      PrepareView(session, p);
      var stream := host.OpenFile(Some(out));
      RemoveData(session, view);
      session.SetProperty(view, Jcr.JCR_DATA, Jcr.BinaryValue(host.streams[stream.value]));
      session.SetProperty(view, Jcr.JCR_MIMETYPE, Jcr.StringValue(SWF_MIME));
      session.SetProperty(view, Jcr.JCR_LASTMODIFIED, Jcr.DateValue(now));
      session.Save();
      host.CloseQuietly(Some(stream.value));
    }

    /** createView(fileNode) at time now: for a supported document, the SWF made from it is stored
        in its swfView child and saved; nothing is written when the service is off, the node is
        not a supported file, or any step fails. Both temporary files are gone afterwards. */
    method CreateView(session: Jcr.Session, host: Host.Host, p: Jcr.Path, now: Jcr.Timestamp)
      requires Valid() && host.Valid() && p in session.nodes
      modifies session`nodes, session`persisted, host`files, host`nextFile, host`streams, host`nextStream, host`spawned
      ensures host.Valid() && host.files == old(host.files) && host.streams == old(host.streams)
      ensures var after := old(ViewedNodes(session.nodes, host.canCreateTemp, p, now));
        && (after.None? ==> session.nodes == old(session.nodes) && session.persisted == old(session.persisted))
        && (after.Some? ==> session.nodes == after.value && session.persisted == after.value)
    {
      var supported := CheckSupported(session, p);
      if !supported {
        return;
      }
      ghost var before := session.nodes;
      ghost var swf := ProducedSwf(before, host.canCreateTemp, p);
      var inFile, outFile := ProduceSwf(session, host, p);
      assert swf.Some? <==> outFile.Some?;
      if outFile.Some? {
        StoreView(session, host, p, outFile.value, now);
      }
      DeleteTemporaries(host, inFile, outFile);
    }

    /** The PDF content getImageOfFirstPage converts a document that is not a PDF into: the
        temporary copy of the content must be made and filled before the converter runs. */
    function ConvertedPdf(canCreateTemp: bool, nodes: Jcr.Nodes, p: Jcr.Path): Result<Bytes> {
      if !canCreateTemp then Err(IOException)
      else
        match Jcr.FileData(nodes, p)
        case None => Err(RepositoryException)
        case Some(content) => documentConverter.convert(content, Jcr.ContentType(nodes, p))
    }

    /** The PDF getImageOfFirstPage renders: a PDF document's own content (none when the node has
        none, since downloadFile then gives null), nothing when the document converter is off, and
        otherwise the converted content. */
    function PdfSource(canCreateTemp: bool, nodes: Jcr.Nodes, p: Jcr.Path): Result<Option<Bytes>>
      reads this
    {
      if IsPdf(Jcr.ContentType(nodes, p)) then Ok(Jcr.FileData(nodes, p))
      else if !documentConverter.enabled then Ok(None)
      else
        match ConvertedPdf(canCreateTemp, nodes, p)
        case Err(e) => Err(e)
        case Ok(pdf) => Ok(Some(pdf))
    }

    /** What getImageOfFirstPage returns: the first page of the PDF source rendered, when there is
        one. */
    function FirstPageImage(canCreateTemp: bool, nodes: Jcr.Nodes, p: Jcr.Path): Result<Option<PdfBox.Image>>
      reads this, pdf2image
    {
      match PdfSource(canCreateTemp, nodes, p)
      case Err(e) => Err(e)
      case Ok(None) => Ok(None)
      case Ok(Some(pdf)) => pdf2image.PageImage(Some(pdf), 0)
    }

    /** The first page, and only the first page, is rendered: a document with pages yields the
        rendering of page 0 at the configured image type and resolution, an empty one no image,
        and a loading failure other than a missing page its error. */
    lemma FirstPageRendered(canCreateTemp: bool, nodes: Jcr.Nodes, p: Jcr.Path, pdf: Bytes)
      requires PdfSource(canCreateTemp, nodes, p) == Ok(Some(pdf))
      ensures var r := FirstPageImage(canCreateTemp, nodes, p);
        var loaded := pdf2image.load(pdf);
        && (loaded.Err? && loaded.error != IndexOutOfBounds ==> r == Err(loaded.error))
        && (loaded.Ok? && |loaded.value.pages| == 0 ==> r == Ok(None))
        && (loaded.Ok? && |loaded.value.pages| > 0 ==>
              var image := pdf2image.render(loaded.value.pages[0], pdf2image.imageType, pdf2image.resolution);
              (image.Ok? ==> r == Ok(Some(image.value))) && (image.Err? && image.error != IndexOutOfBounds ==> r == Err(image.error)))
    {
    }

    /** The inner try block of getImageOfFirstPage: the content is copied into a temporary file,
        converted to a PDF file and a stream opened on it; the copy is deleted on every path, and
        on failure nothing is left open or on disk. */
    method OpenConvertedPdf(session: Jcr.Session, host: Host.Host, p: Jcr.Path) returns (r: Result<(Host.FileId, Host.StreamId)>)
      requires host.Valid()
      modifies host`files, host`nextFile, host`streams, host`nextStream
      ensures host.Valid()
      ensures var c := old(ConvertedPdf(host.canCreateTemp, session.nodes, p));
        && (c.Err? ==> r == Err(c.error) && host.files == old(host.files) && host.streams == old(host.streams))
        && (c.Ok? ==>
              && r.Ok? && r.value.0 !in old(host.files) && host.files == old(host.files)[r.value.0 := c.value]
              && r.value.1 !in old(host.streams) && host.streams == old(host.streams)[r.value.1 := c.value])
    {
      var created := host.CreateTempFile();
      if created.Err? {
        return Err(created.error);
      }
      var inFile := created.value;
      var downloaded := session.DownloadFileContent(host, p, inFile);
      if downloaded.Fail? {
        host.DeleteQuietly(Some(inFile));
        return Err(downloaded.error);
      }
      var pdf := RunConverter(host, inFile, Jcr.ContentType(session.nodes, p));
      if pdf.Err? {
        host.DeleteQuietly(Some(inFile));
        return Err(pdf.error);
      }
      var stream := host.OpenFile(Some(pdf.value));
      host.DeleteQuietly(Some(inFile));
      r := Ok((pdf.value, stream.value));
    }

    /** getImageOfFirstPage(fileNode): the first page of the document's PDF form as an image; the
        stream and the converted PDF file are closed and deleted on every path. */
    method GetImageOfFirstPage(session: Jcr.Session, host: Host.Host, p: Jcr.Path) returns (r: Result<Option<PdfBox.Image>>)
      requires MimeTypes.RegexSafe(registry) && host.Valid()
      modifies host`files, host`nextFile, host`streams, host`nextStream, pdf2image`documentOpen, pdf2image`closeAttempts
      ensures host.Valid() && host.files == old(host.files) && host.streams == old(host.streams)
      ensures r == old(FirstPageImage(host.canCreateTemp, session.nodes, p))
    {
      var isPdf := CheckPdf(Jcr.ContentType(session.nodes, p));
      var stream: Option<Host.StreamId> := None;
      var pdfFile: Option<Host.FileId> := None;
      if isPdf {
        stream := session.DownloadFile(host, p);
      } else if !documentConverter.enabled {
        return Ok(None);
      } else {
        var pdf := OpenConvertedPdf(session, host, p);
        if pdf.Err? {
          return Err(pdf.error);
        }
        pdfFile := Some(pdf.value.0);
        stream := Some(pdf.value.1);
      }
      r := Ok(None);
      if stream.Some? {
        r := pdf2image.GetImageOfPage(host, stream.value, 0);
      }
      host.CloseQuietly(stream);
      host.DeleteQuietly(pdfFile);
    }

    /** The repository after storeThumbnailNode(fileNode, thumbnail, name) at time now: the child
        is found or made (a jnt:resource with the jmix:image mixin), its jcr:data removed, and,
        when the image can be encoded, its data, size, mime type and modification time set, with
        the document stamped at the same time. When encoding fails the data stays removed. */
    function ThumbnailNodes(nodes: Jcr.Nodes, p: Jcr.Path, thumbnail: PdfBox.Image, name: string, now: Jcr.Timestamp): Jcr.Nodes
      requires p in nodes
      reads this
    {
      var t := p + [name];
      var cleared := WithoutData(PreparedThumbnail(nodes, t), t);
      match imageWriter(thumbnail, thumbnailImageFormat)
      case Err(_) => cleared
      case Ok(encoded) => WithThumbnail(cleared, p, t, encoded, thumbnail, ThumbnailMime(thumbnailImageFormat), now)
    }

    /** storeThumbnailNode: a failure to encode the image propagates after the child has been
        made and its data removed. */
    method StoreThumbnailNode(session: Jcr.Session, p: Jcr.Path, thumbnail: PdfBox.Image, name: string, now: Jcr.Timestamp) returns (r: Outcome)
      requires p in session.nodes
      modifies session`nodes
      ensures session.nodes == old(ThumbnailNodes(session.nodes, p, thumbnail, name, now))
      ensures var encoded := imageWriter(thumbnail, thumbnailImageFormat);
        (encoded.Err? ==> r == Fail(encoded.error)) && (encoded.Ok? ==> r == Pass)
    {
      var t := p + [name];
      PrepareThumbnail(session, t);
      RemoveData(session, t);
      var encoded := imageWriter(thumbnail, thumbnailImageFormat);
      if encoded.Err? {
        return Fail(encoded.error);
      }
      StoreThumbnail(session, p, t, encoded.value, thumbnail, ThumbnailMime(thumbnailImageFormat), now);
      r := Pass;
    }

    /** The repository session after createThumbnail(fileNode, name, size) at time now; the
        session is not saved. */
    function ThumbnailedNodes(nodes: Jcr.Nodes, canCreateTemp: bool, p: Jcr.Path, name: string, size: int, now: Jcr.Timestamp): Jcr.Nodes
      requires p in nodes
      reads this, pdf2image
    {
      if !Supported(nodes, p) then nodes
      else
        match FirstPageImage(canCreateTemp, nodes, p)
        case Ok(Some(image)) =>
          (match thumbnailer(image, size)
           case Ok(thumbnail) => ThumbnailNodes(nodes, p, thumbnail, name, now)
           case Err(_) => nodes)
        case _ => nodes
    }

    /** createThumbnail(fileNode, thumbnailName, thumbnailSize) at time now: for a supported
        document whose first page renders, the scaled image is stored in the named child; every
        failure is caught and logged, and no file or stream outlives the call. */
    method CreateThumbnail(session: Jcr.Session, host: Host.Host, p: Jcr.Path, name: string, size: int, now: Jcr.Timestamp)
      requires Valid() && host.Valid() && p in session.nodes
      modifies session`nodes, host`files, host`nextFile, host`streams, host`nextStream, pdf2image`documentOpen, pdf2image`closeAttempts
      ensures host.Valid() && host.files == old(host.files) && host.streams == old(host.streams)
      ensures session.nodes == old(ThumbnailedNodes(session.nodes, host.canCreateTemp, p, name, size, now))
    {
      var supported := CheckSupported(session, p);
      if !supported {
        return;
      }
      var image := GetImageOfFirstPage(session, host, p);
      if image.Ok? && image.value.Some? {
        var thumbnail := thumbnailer(image.value.value, size);
        if thumbnail.Ok? {
          var _ := StoreThumbnailNode(session, p, thumbnail.value, name, now);
        }
      }
    }

    /** A stored thumbnail reads back: the child holds the encoded image, its size and the mime
        type of the format, it and the document carry the same modification time, a new child is
        a jnt:resource with the jmix:image mixin, and no other node changes. */
    lemma ThumbnailStored(nodes: Jcr.Nodes, p: Jcr.Path, thumbnail: PdfBox.Image, name: string, now: Jcr.Timestamp)
      requires p in nodes && imageWriter(thumbnail, thumbnailImageFormat).Ok?
      ensures var r := ThumbnailNodes(nodes, p, thumbnail, name, now);
        var t := p + [name];
        && r.Keys == nodes.Keys + {t}
        && r[t].props[Jcr.JCR_DATA] == Jcr.BinaryValue(imageWriter(thumbnail, thumbnailImageFormat).value)
        && r[t].props[J_WIDTH] == Jcr.LongValue(thumbnail.width) && r[t].props[J_HEIGHT] == Jcr.LongValue(thumbnail.height)
        && (r[t].props[Jcr.JCR_MIMETYPE] == Jcr.StringValue("image/png") <==> thumbnailImageFormat == "png")
        && r[t].props[Jcr.JCR_LASTMODIFIED] == r[p].props[Jcr.JCR_LASTMODIFIED] == Jcr.DateValue(now)
        && (t !in nodes ==> r[t].primaryType == JAHIANT_RESOURCE && Jcr.IsNodeType(r[t], JAHIAMIX_IMAGE))
        && (t in nodes ==> r[t].primaryType == nodes[t].primaryType && r[t].mixins == nodes[t].mixins)
        && r[p].primaryType == nodes[p].primaryType && r[p].mixins == nodes[p].mixins
        && (forall q :: q in nodes && q != p && q != t ==> r[q] == nodes[q])
    {
      var t := p + [name];
      assert t != p by {
        assert |t| != |p|;
      }
      ThumbnailMimeIff(thumbnailImageFormat);
      ThumbnailCleared(nodes, p, t);
      var cleared := WithoutData(PreparedThumbnail(nodes, t), t);
      ThumbnailWritten(cleared, p, t, imageWriter(thumbnail, thumbnailImageFormat).value, thumbnail, ThumbnailMime(thumbnailImageFormat), now);
    }

    /** When the image cannot be encoded, the child is left without data and the document is not
        stamped. */
    lemma ThumbnailWriteFailure(nodes: Jcr.Nodes, p: Jcr.Path, thumbnail: PdfBox.Image, name: string, now: Jcr.Timestamp)
      requires p in nodes && imageWriter(thumbnail, thumbnailImageFormat).Err?
      ensures var r := ThumbnailNodes(nodes, p, thumbnail, name, now);
        var t := p + [name];
        && t in r && Jcr.JCR_DATA !in r[t].props && r[p] == nodes[p]
        && (forall q :: q in nodes && q != t ==> r[q] == nodes[q])
    {
      var t := p + [name];
      assert t != p by {
        assert |t| != |p|;
      }
    }
  }

  /** The mime type stored with a thumbnail: PNG for the "png" format, JPEG for any other. */
  function ThumbnailMime(format: string): string {
    if format == "png" then "image/png" else "image/jpeg"
  }

  lemma ThumbnailMimeIff(format: string)
    ensures ThumbnailMime(format) == "image/png" <==> format == "png"
    ensures ThumbnailMime(format) == "image/jpeg" <==> format != "png"
  {
    assert "image/png"[6] != "image/jpeg"[6];
  }

  /** The repository after the SWF view of document p is stored at time now: when p has no
      swfView child yet, p gains the jmix:swfDocumentView mixin (unless it is of that type
      already) and an nt:resource child swfView; that child's data is replaced by the SWF
      content, and its mime type and modification time are set. */
  function WithView(nodes: Jcr.Nodes, p: Jcr.Path, swf: Bytes, now: Jcr.Timestamp): Jcr.Nodes
    requires p in nodes
  {
    var v := p + [SWF_VIEW];
    var cleared := WithoutData(PreparedView(nodes, p), v);
    var n1 := Jcr.WithProperty(cleared, v, Jcr.JCR_DATA, Jcr.BinaryValue(swf));
    var n2 := Jcr.WithProperty(n1, v, Jcr.JCR_MIMETYPE, Jcr.StringValue(SWF_MIME));
    Jcr.WithProperty(n2, v, Jcr.JCR_LASTMODIFIED, Jcr.DateValue(now))
  }

  /** The swfView child found or made: a document without one gains the jmix:swfDocumentView
      mixin, unless it is of that type already, and an empty nt:resource child. */
  function PreparedView(nodes: Jcr.Nodes, p: Jcr.Path): (r: Jcr.Nodes)
    requires p in nodes
    ensures r.Keys == nodes.Keys + {p + [SWF_VIEW]}
  {
    var v := p + [SWF_VIEW];
    if v in nodes then nodes
    else if Jcr.IsNodeType(nodes[p], SWF_VIEW_MIXIN) then nodes[v := Jcr.Node(Jcr.NT_RESOURCE, {}, map[])]
    else nodes[p := nodes[p].(mixins := nodes[p].mixins + {SWF_VIEW_MIXIN})][v := Jcr.Node(Jcr.NT_RESOURCE, {}, map[])]
  }

  /** The first part of the storing in createView, on the session. */
  method PrepareView(session: Jcr.Session, p: Jcr.Path)
    requires p in session.nodes
    modifies session`nodes
    ensures session.nodes == PreparedView(old(session.nodes), p)
  {
    var view := p + [SWF_VIEW];
    assert view != p by {
      assert |view| != |p|;
    }
    if view !in session.nodes {
      if !Jcr.IsNodeType(session.nodes[p], SWF_VIEW_MIXIN) {
        session.AddMixin(p, SWF_VIEW_MIXIN);
      }
      session.AddNode(view, Jcr.NT_RESOURCE);
    }
  }

  /** The thumbnail child found or made: an empty jnt:resource with the jmix:image mixin when it
      is missing (getNode throws PathNotFoundException). */
  function PreparedThumbnail(nodes: Jcr.Nodes, t: Jcr.Path): (r: Jcr.Nodes)
    ensures r.Keys == nodes.Keys + {t}
  {
    if t in nodes then nodes else nodes[t := Jcr.Node(JAHIANT_RESOURCE, {JAHIAMIX_IMAGE}, map[])]
  }

  /** The first part of storeThumbnailNode, on the session. */
  method PrepareThumbnail(session: Jcr.Session, t: Jcr.Path)
    modifies session`nodes
    ensures session.nodes == PreparedThumbnail(old(session.nodes), t)
  {
    if t !in session.nodes {
      session.AddNode(t, JAHIANT_RESOURCE);
      session.AddMixin(t, JAHIAMIX_IMAGE);
      assert {} + {JAHIAMIX_IMAGE} == {JAHIAMIX_IMAGE};
    }
  }

  /** The thumbnail child t of p after its data, size, mime type and modification time are set,
      with the document p stamped at the same time. */
  function WithThumbnail(nodes: Jcr.Nodes, p: Jcr.Path, t: Jcr.Path, encoded: Bytes, thumbnail: PdfBox.Image, mime: string, now: Jcr.Timestamp): (r: Jcr.Nodes)
    requires p in nodes && t in nodes
    ensures r.Keys == nodes.Keys
  {
    var n1 := Jcr.WithProperty(nodes, t, Jcr.JCR_DATA, Jcr.BinaryValue(encoded));
    var n2 := Jcr.WithProperty(n1, t, J_WIDTH, Jcr.LongValue(thumbnail.width));
    var n3 := Jcr.WithProperty(n2, t, J_HEIGHT, Jcr.LongValue(thumbnail.height));
    var n4 := Jcr.WithProperty(n3, t, Jcr.JCR_MIMETYPE, Jcr.StringValue(mime));
    var n5 := Jcr.WithProperty(n4, t, Jcr.JCR_LASTMODIFIED, Jcr.DateValue(now));
    Jcr.WithProperty(n5, p, Jcr.JCR_LASTMODIFIED, Jcr.DateValue(now))
  }

  /** The thumbnail child found or made and cleared of its data, with nothing else changed. */
  lemma ThumbnailCleared(nodes: Jcr.Nodes, p: Jcr.Path, t: Jcr.Path)
    requires p in nodes && p != t
    ensures var c := WithoutData(PreparedThumbnail(nodes, t), t);
      && c.Keys == nodes.Keys + {t} && c[p] == nodes[p]
      && Jcr.JCR_DATA !in c[t].props
      && (t !in nodes ==> c[t].primaryType == JAHIANT_RESOURCE && c[t].mixins == {JAHIAMIX_IMAGE})
      && (t in nodes ==> c[t].primaryType == nodes[t].primaryType && c[t].mixins == nodes[t].mixins)
      && (forall q :: q in nodes && q != t ==> c[q] == nodes[q])
  {
  }

  /** What WithThumbnail writes reads back, and nothing else changes. */
  lemma ThumbnailWritten(nodes: Jcr.Nodes, p: Jcr.Path, t: Jcr.Path, encoded: Bytes, thumbnail: PdfBox.Image, mime: string, now: Jcr.Timestamp)
    requires p in nodes && t in nodes && p != t
    ensures var r := WithThumbnail(nodes, p, t, encoded, thumbnail, mime, now);
      && r.Keys == nodes.Keys
      && r[t].props == nodes[t].props[Jcr.JCR_DATA := Jcr.BinaryValue(encoded)]
           [J_WIDTH := Jcr.LongValue(thumbnail.width)][J_HEIGHT := Jcr.LongValue(thumbnail.height)]
           [Jcr.JCR_MIMETYPE := Jcr.StringValue(mime)][Jcr.JCR_LASTMODIFIED := Jcr.DateValue(now)]
      && r[t].primaryType == nodes[t].primaryType && r[t].mixins == nodes[t].mixins
      && r[p] == nodes[p].(props := nodes[p].props[Jcr.JCR_LASTMODIFIED := Jcr.DateValue(now)])
      && (forall q :: q in nodes && q != p && q != t ==> r[q] == nodes[q])
  {
  }

  /** The property writes of storeThumbnailNode once the image is encoded, on the session. */
  method StoreThumbnail(session: Jcr.Session, p: Jcr.Path, t: Jcr.Path, encoded: Bytes, thumbnail: PdfBox.Image, mime: string, now: Jcr.Timestamp)
    requires p in session.nodes && t in session.nodes
    modifies session`nodes
    ensures session.nodes == WithThumbnail(old(session.nodes), p, t, encoded, thumbnail, mime, now)
  {
    session.SetProperty(t, Jcr.JCR_DATA, Jcr.BinaryValue(encoded));
    session.SetProperty(t, J_WIDTH, Jcr.LongValue(thumbnail.width));
    session.SetProperty(t, J_HEIGHT, Jcr.LongValue(thumbnail.height));
    session.SetProperty(t, Jcr.JCR_MIMETYPE, Jcr.StringValue(mime));
    session.SetProperty(t, Jcr.JCR_LASTMODIFIED, Jcr.DateValue(now));
    session.SetProperty(p, Jcr.JCR_LASTMODIFIED, Jcr.DateValue(now));
  }

  /** The repository with the jcr:data property of q removed, when q has one. */
  function WithoutData(nodes: Jcr.Nodes, q: Jcr.Path): (r: Jcr.Nodes)
    requires q in nodes
    ensures r.Keys == nodes.Keys
    ensures r[q] == nodes[q].(props := nodes[q].props - {Jcr.JCR_DATA})
    ensures forall x :: x in nodes && x != q ==> r[x] == nodes[x]
  {
    nodes[q := nodes[q].(props := nodes[q].props - {Jcr.JCR_DATA})]
  }

  /** if (node.hasProperty(jcr:data)) node.getProperty(jcr:data).remove(). */
  method RemoveData(session: Jcr.Session, q: Jcr.Path)
    requires q in session.nodes
    modifies session`nodes
    ensures session.nodes == WithoutData(old(session.nodes), q)
  {
    if Jcr.JCR_DATA in session.nodes[q].props {
      session.RemoveProperty(q, Jcr.JCR_DATA);
    } else {
      assert session.nodes[q].props - {Jcr.JCR_DATA} == session.nodes[q].props;
      assert WithoutData(session.nodes, q) == session.nodes;
    }
  }

  /** A stored view reads back: the swfView child holds the SWF under its mime type and the
      modification time, keeps its other properties, a new child is an nt:resource under a
      document of type jmix:swfDocumentView, an existing one leaves the document alone, and no
      other node changes. */
  lemma ViewStored(nodes: Jcr.Nodes, p: Jcr.Path, swf: Bytes, now: Jcr.Timestamp)
    requires p in nodes
    ensures var r := WithView(nodes, p, swf, now);
      var v := p + [SWF_VIEW];
      && r.Keys == nodes.Keys + {v}
      && r[v].props[Jcr.JCR_DATA] == Jcr.BinaryValue(swf)
      && r[v].props[Jcr.JCR_MIMETYPE] == Jcr.StringValue(SWF_MIME)
      && r[v].props[Jcr.JCR_LASTMODIFIED] == Jcr.DateValue(now)
      && Jcr.IsNodeType(r[p], SWF_VIEW_MIXIN) == (v !in nodes || Jcr.IsNodeType(nodes[p], SWF_VIEW_MIXIN))
      && r[p].primaryType == nodes[p].primaryType && r[p].props == nodes[p].props
      && (v !in nodes ==> r[v].primaryType == Jcr.NT_RESOURCE && r[v].props.Keys == {Jcr.JCR_DATA, Jcr.JCR_MIMETYPE, Jcr.JCR_LASTMODIFIED})
      && (v in nodes ==>
            && r[p] == nodes[p] && r[v].primaryType == nodes[v].primaryType && r[v].mixins == nodes[v].mixins
            && forall k :: k in nodes[v].props && k != Jcr.JCR_DATA && k != Jcr.JCR_MIMETYPE && k != Jcr.JCR_LASTMODIFIED ==> r[v].props[k] == nodes[v].props[k])
      && (forall q :: q in nodes && q != p && q != v ==> r[q] == nodes[q])
  {
    var v := p + [SWF_VIEW];
    assert v != p by {
      assert |v| != |p|;
    }
  }
}
