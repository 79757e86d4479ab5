# DAM document viewer, modelled in Dafny

This project models the conversion pipeline of the DAM document viewer, the Jahia module that
turns documents in the content repository into Flash (SWF) views and thumbnails. It covers:

- **Mime-type groups.** `isMimeTypeGroup` asks whether a mime type belongs to one of some named
  groups of the repository's registry. A pattern holding `*` is matched as a glob; any other
  pattern must match exactly.
- **DocumentViewService.** It checks that the service is enabled and the document is supported.
  It brings the document to PDF, either as it is or through the document converter. It runs
  pdf2swf and stores the resulting SWF beside the document (`convert`) or in its `swfView` child
  (`createView`). It renders the first page and stores it, scaled, as a thumbnail child
  (`createThumbnail`). Its own finally blocks delete the temporary files they know of. The
  temporary output file of a failed pdf2swf run is not among them (see Findings).
- **PDF2SWFConverterService.** It builds the pdf2swf command line, with its `${inFile}`/`${outFile}`
  substitution map, and runs it behind an enabled flag.
- **PDFBoxPDF2ImageConverterService.** It renders one page and turns a missing page into null. It
  attempts to close the document on every path.
- **generateThumbnail.** The thumbnail dimension arithmetic, in Java `int` arithmetic.
- **CreateThumbnailDocumentRule.** The thumbnail size, which the document's folder may override.

Modules:

- `Outcomes`: Option, Result and the Java exceptions that matter.
- `JavaInt`: 32-bit wrap-around, truncating division and `Long.intValue`.
- `Strings`: `StringUtils.split` and `substringBeforeLast`.
- `MimeTypes`, `Pdf2Swf`, `PdfBox`, `ThumbnailScaler`, `DocumentView` and `ThumbnailRule` follow
  the source classes.
- `Host`: temporary files, open streams and spawned commands.
- `Jcr`: the repository, as a map from node path to node, with an editing session.

Methods that change the repository, the files or the streams are stated against specification
functions of the old state:

- `ConvertedNodes`, `ViewedNodes` and `ThumbnailedNodes` give the repository after each node
  operation.
- `SwfContent` and `FirstPageImage` give what is produced.

Lemmas then prove what those functions promise. The temporary-file cleanup is stated as "the set
of files and the set of open streams are the same after the call as before it". The node
operations reach pdf2swf through the corrected `Pdf2Swf.PDF2SWFConverterService.Convert`, and over
it the cleanup holds on every path, including every failure the source catches and logs. The
source's own `convert(File)` leaves its temporary output file behind when pdf2swf fails; the
as-written `Pdf2Swf.PDF2SWFConverterService.ConvertAsWritten` states exactly which file remains
and with what content.

The foreign parts are parameters of the model, supplied as function-typed constants:

- the document converter;
- the pdf2swf program;
- PDFBox's load and render;
- Thumbnailator and ImageIO;
- `findAvailableNodeName`, of which only its promise (the name is not taken in the folder) is
  assumed, as part of the service's `Valid` predicate.

The mime registry is a map from group name to patterns. The current time is a parameter.

## Model

| member | source | states |
|---|---|---|
| MimeTypes.IsMimeTypeGroup | src/main/java/org/jahia/modules/docviewer/DocumentViewService.java:105-134 | true exactly when the mime type is not null and some pattern of some registered listed group accepts it (InGroups); when true, the ghost results name that pattern, which is the first match in group order and then pattern order, so the search stops there |
| MimeTypes.IsMimeTypeGroupString | src/main/java/org/jahia/modules/docviewer/DocumentViewService.java:92-94 | a null mime type gives false; otherwise the result is membership in the groups that splitting on "," and " " yields; a null group string gives a NullPointerException |
| MimeTypes.NullInNoGroup | src/main/java/org/jahia/modules/docviewer/DocumentViewService.java:106-108 | a null mime type belongs to no group, whatever the groups |
| MimeTypes.UnregisteredGroupSkipped | src/main/java/org/jahia/modules/docviewer/DocumentViewService.java:112-115 | listing a group missing from the registry changes nothing |
| MimeTypes.InGroupsAppend | src/main/java/org/jahia/modules/docviewer/DocumentViewService.java:111-131 | membership in a concatenation of group lists is membership in one of the parts |
| MimeTypes.InGroupsSameGroups | src/main/java/org/jahia/modules/docviewer/DocumentViewService.java:510-514 | only which groups are listed matters, not their order or repetition, so the order of the supported-format array is irrelevant |
| MimeTypes.InOneGroup | src/main/java/org/jahia/modules/docviewer/DocumentViewService.java:252 | membership in a single group means some pattern registered for that group accepts the type |
| MimeTypes.GlobLiteral | src/main/java/org/jahia/modules/docviewer/DocumentViewService.java:117-123 | for a pattern without "*", the glob reading is string equality, so both branches agree on such patterns |
| MimeTypes.GlobLiteralPrefix | src/main/java/org/jahia/modules/docviewer/DocumentViewService.java:118-120 | a literal prefix of a pattern must be matched character for character |
| MimeTypes.GlobStarLiteral | src/main/java/org/jahia/modules/docviewer/DocumentViewService.java:118-120 | "*" followed by literal text accepts exactly the strings that end with that text and have no line terminator before it |
| MimeTypes.SingleWildcard | src/main/java/org/jahia/modules/docviewer/DocumentViewService.java:118-120 | a pattern a*b accepts exactly the strings that start with a and end with b without overlap, with no line terminator between them |
| MimeTypes.StarSuffix | src/main/java/org/jahia/modules/docviewer/DocumentViewService.java:118-120 | the "*"-then-literal case applied to a suffix of the mime type |
| MimeTypes.DotIsLiteral | src/main/java/org/jahia/modules/docviewer/DocumentViewService.java:119 | "." is escaped: application/vnd.ms-* does not accept application/vndxms-excel |
| MimeTypes.TrailingWildcard | src/main/java/org/jahia/modules/docviewer/DocumentViewService.java:119 | text/* accepts text/plain |
| Strings.TokenLength | src/main/java/org/jahia/modules/docviewer/DocumentViewService.java:93 | the length of the longest separator-free prefix: no separator inside it, and a separator right after it |
| Strings.SplitTokens | src/main/java/org/jahia/modules/docviewer/DocumentViewService.java:93 | every token StringUtils.split returns is non-empty and holds no separator |
| Strings.SplitKeepsCharacters | src/main/java/org/jahia/modules/docviewer/DocumentViewService.java:93 | the concatenated tokens are the input with its separator characters removed |
| Strings.SplitJoin | src/main/java/org/jahia/modules/docviewer/PDF2SWFConverterService.java:132 | splitting tokens joined by a separator gives back the same tokens |
| Strings.SplitWholeToken | src/main/java/org/jahia/modules/docviewer/DocumentViewService.java:252 | a string with no separator, such as "pdf", splits into itself alone |
| Strings.LastIndexOf | src/main/java/org/jahia/modules/docviewer/DocumentViewService.java:201 | the last position holding the character, or -1 exactly when it does not occur |
| Strings.SubstringBeforeLast | src/main/java/org/jahia/modules/docviewer/DocumentViewService.java:201 | the result is a prefix of the name |
| Strings.NatToString | src/main/java/org/jahia/modules/docviewer/PDF2SWFConverterService.java:124 | the decimal form of a temporary file number is non-empty |
| JavaInt.Wrap | src/main/java/org/jahia/modules/docviewer/test/TestPdf2ImagePdfbox.java:98-100 | the result is an int congruent to the argument modulo 2^32 |
| JavaInt.Mul | src/main/java/org/jahia/modules/docviewer/test/TestPdf2ImagePdfbox.java:98-100 | Java int multiplication yields an int |
| JavaInt.Div | src/main/java/org/jahia/modules/docviewer/test/TestPdf2ImagePdfbox.java:98-100 | Java int division yields an int |
| JavaInt.IntValue | src/main/java/org/jahia/modules/docviewer/rules/CreateThumbnailDocumentRule.java:70 | Long.intValue yields an int |
| JavaInt.WrapInt | src/main/java/org/jahia/modules/docviewer/test/TestPdf2ImagePdfbox.java:98-100 | wrapping leaves a value already in int range unchanged |
| JavaInt.MulExact | src/main/java/org/jahia/modules/docviewer/test/TestPdf2ImagePdfbox.java:98-100 | without overflow, int multiplication is the mathematical product |
| JavaInt.DivNonNegative | src/main/java/org/jahia/modules/docviewer/test/TestPdf2ImagePdfbox.java:98-100 | for a non-negative dividend and a positive divisor, truncating division is floor division |
| JavaInt.DivAtMost | src/main/java/org/jahia/modules/docviewer/test/TestPdf2ImagePdfbox.java:98-100 | a quotient by a positive divisor is at most the dividend |
| JavaInt.AtMostProduct | src/main/java/org/jahia/modules/docviewer/test/TestPdf2ImagePdfbox.java:98-100 | multiplying by a positive number does not decrease a natural number |
| JavaInt.IntValueSmall | src/main/java/org/jahia/modules/docviewer/rules/CreateThumbnailDocumentRule.java:70 | a long in 1..2^31-1 keeps its value under intValue |
| JavaInt.IntValueOfTwoTo31 | src/main/java/org/jahia/modules/docviewer/rules/CreateThumbnailDocumentRule.java:70 | 2^31 narrows to -2^31 |
| JavaInt.IntValueOfTwoTo32 | src/main/java/org/jahia/modules/docviewer/rules/CreateThumbnailDocumentRule.java:70 | 2^32 narrows to 0 |
| Host.Argv | src/main/java/org/jahia/modules/docviewer/PDF2SWFConverterService.java:127-138 | the argv has the executable first, then each argument after placeholder substitution |
| Host.Host.CreateTempFile | src/main/java/org/jahia/modules/docviewer/DocumentViewService.java:265-267 | succeeds exactly when the temporary directory accepts files; the new file is fresh and empty; on failure an IOException is thrown and nothing changes |
| Host.Host.WriteFile | src/main/java/org/jahia/modules/docviewer/PDF2SWFConverterService.java:115 | the file gets the written content and no other file changes |
| Host.Host.DeleteQuietly | src/main/java/org/jahia/modules/docviewer/DocumentViewService.java:230-231 | the file is gone if there was one; a null file is ignored; it never throws |
| Host.Host.OpenFile | src/main/java/org/jahia/modules/docviewer/PDFBoxPDF2ImageConverterService.java:96 | a null file gives a NullPointerException, a missing one an IOException, and otherwise a fresh stream over the file's content |
| Host.Host.OpenBytes | src/main/java/org/jahia/modules/docviewer/DocumentViewService.java:447 | a fresh stream over the given bytes |
| Host.Host.CloseQuietly | src/main/java/org/jahia/modules/docviewer/PDFBoxPDF2ImageConverterService.java:99 | the stream is closed if there was one; a null stream is ignored; it never throws |
| Host.Host.Spawn | src/main/java/org/jahia/modules/docviewer/PDF2SWFConverterService.java:115 | the command line is appended to the record of executed commands |
| Jcr.Parent | src/main/java/org/jahia/modules/docviewer/DocumentViewService.java:200 | only the root has no parent; the parent path followed by the name gives back the path |
| Jcr.ChildNames | src/main/java/org/jahia/modules/docviewer/DocumentViewService.java:204 | a name is taken in the folder exactly when the folder has a child under that name |
| Jcr.UploadReadsBack | src/main/java/org/jahia/modules/docviewer/DocumentViewService.java:211-212 | after uploadFile, the file node exists, reads back the data under the given mime type, is an nt:file when it was new, and no other node changes |
| Jcr.WithFileIdempotent | src/main/java/org/jahia/modules/docviewer/DocumentViewService.java:211-212 | uploading the same data under the same mime type again leaves the repository as it is |
| Jcr.Session.AddNode | src/main/java/org/jahia/modules/docviewer/DocumentViewService.java:337 | a new child with the given type and no mixins or properties |
| Jcr.Session.AddMixin | src/main/java/org/jahia/modules/docviewer/DocumentViewService.java:338 | the node gains the mixin and nothing else changes |
| Jcr.Session.SetProperty | src/main/java/org/jahia/modules/docviewer/DocumentViewService.java:358-364 | the property gets the value and nothing else changes |
| Jcr.WithProperty | src/main/java/org/jahia/modules/docviewer/DocumentViewService.java:358-364 | setting one property changes that property of that node only: the type, the mixins, the other properties and every other node stay |
| Jcr.Session.RemoveProperty | src/main/java/org/jahia/modules/docviewer/DocumentViewService.java:342 | the property is gone and nothing else changes |
| Jcr.Session.UploadFile | src/main/java/org/jahia/modules/docviewer/DocumentViewService.java:211-212 | the session's nodes become WithFile of the old ones |
| Jcr.Session.Save | src/main/java/org/jahia/modules/docviewer/DocumentViewService.java:214 | the saved state becomes the session's state |
| Jcr.Session.DownloadFileContent | src/main/java/org/jahia/modules/docviewer/DocumentViewService.java:197 | the file receives the node's binary content; a node without content gives a RepositoryException and writes nothing |
| Jcr.Session.DownloadFile | src/main/java/org/jahia/modules/docviewer/DocumentViewService.java:447 | a fresh stream over the node's content, or null, with no stream opened, when the node has none |
| Pdf2Swf.ParameterTokens | src/main/java/org/jahia/modules/docviewer/PDF2SWFConverterService.java:132 | every parameter token is non-empty and holds no space; null parameters give no tokens |
| Pdf2Swf.ExpandPlain | src/main/java/org/jahia/modules/docviewer/PDF2SWFConverterService.java:132 | an argument that is not a ${...} placeholder is passed through unchanged |
| Pdf2Swf.ExpandBound | src/main/java/org/jahia/modules/docviewer/PDF2SWFConverterService.java:131-137 | a bound ${inFile} or ${outFile} placeholder becomes the path of the file bound to it |
| Pdf2Swf.ArgvOf | src/main/java/org/jahia/modules/docviewer/PDF2SWFConverterService.java:127-138 | once each placeholder and each parameter token is known to expand as it should, the argv is [executable, input path, "-o", output path] + tokens |
| Pdf2Swf.ConvertArgv | src/main/java/org/jahia/modules/docviewer/PDF2SWFConverterService.java:127-141 | the command run is [executable, input path, "-o", output path] followed by the parameter tokens in order, and the substitution map has exactly the keys inFile and outFile |
| Pdf2Swf.NullInputStaysLiteral | src/main/java/org/jahia/modules/docviewer/PDF2SWFConverterService.java:135 | a null input leaves the literal "${inFile}" as pdf2swf's first argument |
| Pdf2Swf.SampleParameters | src/main/java/org/jahia/modules/docviewer/PDF2SWFConverterService.java:132 | "-f -T 9 -t -s storeallcharacters" splits into its six tokens in order |
| Pdf2Swf.SampleJoin | src/main/java/org/jahia/modules/docviewer/PDF2SWFConverterService.java:132 | the six sample tokens joined by spaces are the sample parameter line |
| Pdf2Swf.SampleTokens | src/main/java/org/jahia/modules/docviewer/PDF2SWFConverterService.java:132 | each sample token is non-empty and holds no space |
| Pdf2Swf.PDF2SWFConverterService.ConvertInto | src/main/java/org/jahia/modules/docviewer/PDF2SWFConverterService.java:99-121 | when disabled, no command is built or run and nothing changes; a bad executable throws IllegalArgumentException before anything runs; otherwise exactly the command of getConvertCommandLine runs, the output holds what pdf2swf wrote, and a non-zero exit reaches the caller only as an ExecuteException |
| Pdf2Swf.PDF2SWFConverterService.ConvertAsWritten | src/main/java/org/jahia/modules/docviewer/PDF2SWFConverterService.java:77-87 | as written: disabled gives null and no temp file, as does a refused createTempFile; otherwise the fresh temp file exists afterwards, empty when the blank executable throws IllegalArgumentException and holding what pdf2swf wrote otherwise, so it is left on disk on both failures and is the result on success; the command line run is recorded |
| Pdf2Swf.PDF2SWFConverterService.Convert | src/main/java/org/jahia/modules/docviewer/PDF2SWFConverterService.java:77-87 | corrected: the same results, but on every failure the files are as before; when enabled, the result is exactly the fresh temp file passed as the output argument, holding pdf2swf's output |
| Pdf2Swf.LeakOnFailure | src/main/java/org/jahia/modules/docviewer/PDF2SWFConverterService.java:84-86 | a failing pdf2swf on a null input leaves the as-written conversion's temporary file behind |
| PdfBox.PDFBoxPDF2ImageConverterService.constructor | src/main/java/org/jahia/modules/docviewer/PDFBoxPDF2ImageConverterService.java:65-67 | the defaults are the RGB image type and a resolution of 96 |
| PdfBox.PDFBoxPDF2ImageConverterService.SetImageType | src/main/java/org/jahia/modules/docviewer/PDFBoxPDF2ImageConverterService.java:105-107 | the image type is set |
| PdfBox.PDFBoxPDF2ImageConverterService.SetResolution | src/main/java/org/jahia/modules/docviewer/PDFBoxPDF2ImageConverterService.java:109-111 | the resolution is set |
| PdfBox.PDFBoxPDF2ImageConverterService.GetImageOfPage | src/main/java/org/jahia/modules/docviewer/PDFBoxPDF2ImageConverterService.java:69-89 | an in-range page gives its rendering at the configured type and resolution; an out-of-range page gives null, not an error; a load error other than an index error propagates; close is attempted exactly once on every path, its failures ignored |
| PdfBox.PDFBoxPDF2ImageConverterService.GetImageOfPageFile | src/main/java/org/jahia/modules/docviewer/PDFBoxPDF2ImageConverterService.java:91-103 | the same result as the stream overload on the file's content; a null or missing file gives the stream constructor's error; the stream it opens is closed on every path |
| ThumbnailScaler.GenerateThumbnail | src/main/java/org/jahia/modules/docviewer/test/TestPdf2ImagePdfbox.java:93-103 | the image comes back unchanged exactly when it fits in the box (no upscaling); a side that rounds to 0 gives an IllegalArgumentException |
| ThumbnailScaler.PortraitScaling | src/main/java/org/jahia/modules/docviewer/test/TestPdf2ImagePdfbox.java:99-103 | for an image taller than wide, the result is (size*w/h truncated, size), the largest width within the aspect ratio |
| ThumbnailScaler.LandscapeScaling | src/main/java/org/jahia/modules/docviewer/test/TestPdf2ImagePdfbox.java:97-98 | for an image at least as wide as tall, the result is (size, size*h/w truncated) |
| ThumbnailScaler.PortraitQuotient | src/main/java/org/jahia/modules/docviewer/test/TestPdf2ImagePdfbox.java:99-100 | size*w/h is below size and is the floor of the exact quotient |
| ThumbnailScaler.PortraitResult | src/main/java/org/jahia/modules/docviewer/test/TestPdf2ImagePdfbox.java:99-103 | a portrait image outside the box becomes (size*w/h, size), or fails when that width is 0 |
| ThumbnailScaler.LandscapeQuotient | src/main/java/org/jahia/modules/docviewer/test/TestPdf2ImagePdfbox.java:97-98 | size*h/w is at most size and is the floor of the exact quotient |
| ThumbnailScaler.LandscapeResult | src/main/java/org/jahia/modules/docviewer/test/TestPdf2ImagePdfbox.java:97-103 | a landscape image outside the box becomes (size, size*h/w), or fails when that height is 0 |
| ThumbnailScaler.Resize | src/main/java/org/jahia/modules/docviewer/test/TestPdf2ImagePdfbox.java:97-103 | outside the box the result is the scaled size, or an IllegalArgumentException when a side is below one |
| ThumbnailScaler.SquareScaling | src/main/java/org/jahia/modules/docviewer/test/TestPdf2ImagePdfbox.java:97-98 | a square larger than the box becomes size x size |
| ThumbnailScaler.ResizedWithinBox | src/main/java/org/jahia/modules/docviewer/test/TestPdf2ImagePdfbox.java:97-101 | after scaling, neither side exceeds size and the longer side is exactly size |
| ThumbnailScaler.ThinImageFails | src/main/java/org/jahia/modules/docviewer/test/TestPdf2ImagePdfbox.java:98 | as written, a 1000 x 1 image at size 150 gets height 0 and throws |
| ThumbnailScaler.ClampedWithinBox | src/main/java/org/jahia/modules/docviewer/test/TestPdf2ImagePdfbox.java:93-103 | corrected: never fails for a positive size, is unchanged exactly when the image fits, stays in the box with its longer side at size, and agrees with the as-written version wherever that one succeeds |
| ThumbnailScaler.ThinImageClamped | src/main/java/org/jahia/modules/docviewer/test/TestPdf2ImagePdfbox.java:98 | corrected: the 1000 x 1 image becomes 150 x 1 |
| ThumbnailScaler.MulMonotone | src/main/java/org/jahia/modules/docviewer/test/TestPdf2ImagePdfbox.java:98-100 | multiplying by a positive factor keeps the order |
| ThumbnailScaler.MulStrict | src/main/java/org/jahia/modules/docviewer/test/TestPdf2ImagePdfbox.java:98-100 | multiplying by a positive factor keeps a strict order |
| ThumbnailScaler.Floor | src/main/java/org/jahia/modules/docviewer/test/TestPdf2ImagePdfbox.java:98-100 | a quotient lies between its floor bounds and stays below c when the dividend is below c times the divisor |
| ThumbnailScaler.ExactScaledSize | src/main/java/org/jahia/modules/docviewer/test/TestPdf2ImagePdfbox.java:97-101 | without overflow, the int arithmetic equals the mathematical one |
| DocumentView.SwfNameParts | src/main/java/org/jahia/modules/docviewer/DocumentViewService.java:201-202 | the SWF name is the name up to its last "." (the whole name when there is none) followed by ".swf" |
| DocumentView.SwfNameIdempotent | src/main/java/org/jahia/modules/docviewer/DocumentViewService.java:201-202 | the SWF name of an SWF name is that name again |
| DocumentView.DocumentViewService.constructor | src/main/java/org/jahia/modules/docviewer/DocumentViewService.java:138-146 | the service starts disabled, with no supported formats and the "png" thumbnail format |
| DocumentView.DocumentViewService.SetEnabled | src/main/java/org/jahia/modules/docviewer/DocumentViewService.java:498-500 | the enabled flag is set |
| DocumentView.DocumentViewService.SetThumbnailImageFormat | src/main/java/org/jahia/modules/docviewer/DocumentViewService.java:516-518 | the thumbnail format is set |
| DocumentView.DocumentViewService.SetSupportedDocumentFormats | src/main/java/org/jahia/modules/docviewer/DocumentViewService.java:510-514 | a null or empty set is stored as null; any other set becomes an array holding exactly its formats, each once |
| DocumentView.DocumentViewService.CheckPdf | src/main/java/org/jahia/modules/docviewer/DocumentViewService.java:252 | the result is membership in the "pdf" group |
| DocumentView.DocumentViewService.CheckSupported | src/main/java/org/jahia/modules/docviewer/DocumentViewService.java:182-192 | the guard holds exactly when the service is enabled, the formats are set, and the node is an nt:file whose content type is in a supported group |
| DocumentView.DocumentViewService.UnsupportedUntouched | src/main/java/org/jahia/modules/docviewer/DocumentViewService.java:182-192 | when the guard fails, convert, createView and createThumbnail write nothing |
| DocumentView.DocumentViewService.RunConverter | src/main/java/org/jahia/modules/docviewer/DocumentViewService.java:260-261 | the converter's error propagates; otherwise its output lands in a fresh temporary file, or an IOException is thrown when none can be made |
| DocumentView.DocumentViewService.ConvertToPdf | src/main/java/org/jahia/modules/docviewer/DocumentViewService.java:251-263 | a PDF gives the source file itself with nothing changed; a disabled converter gives null; otherwise it gives the converter's output in a fresh file, or the converter's error |
| DocumentView.DocumentViewService.ConvertFile | src/main/java/org/jahia/modules/docviewer/DocumentViewService.java:160-167 | the result is pdf2swf applied to the PDF form; the intermediate PDF is deleted on every path (the source too when it was the PDF), and only the SWF file is new |
| DocumentView.DocumentViewService.ProduceSwf | src/main/java/org/jahia/modules/docviewer/DocumentViewService.java:196-198 | the fresh input and output files are the only files that differ; an output exists exactly when an SWF was produced, and it holds that SWF |
| DocumentView.DocumentViewService.ConvertDownloaded | src/main/java/org/jahia/modules/docviewer/DocumentViewService.java:197-198 | on the downloaded input file: an output file exists exactly when an SWF was produced and it holds that SWF; apart from the input and output files nothing changes |
| DocumentView.DocumentViewService.UploadConverted | src/main/java/org/jahia/modules/docviewer/DocumentViewService.java:200-218 | the SWF is uploaded at the target (the SWF name, or an available name when not overwriting), the session is saved, and the stream is closed |
| DocumentView.DocumentViewService.DeleteTemporaries | src/main/java/org/jahia/modules/docviewer/DocumentViewService.java:229-231 | both temporary files are deleted |
| DocumentView.DocumentViewService.ConvertNode | src/main/java/org/jahia/modules/docviewer/DocumentViewService.java:180-238 | the files and streams are as before on every path; the repository is saved as ConvertedNodes, and nothing is written when that is None |
| DocumentView.DocumentViewService.ConvertedReadsBack | src/main/java/org/jahia/modules/docviewer/DocumentViewService.java:199-214 | something is stored exactly when the document is supported, has a parent and yields an SWF; the target is in the document's folder and carries the SWF name when overwriting, or a name not yet taken otherwise; it reads back the SWF under the SWF mime type |
| DocumentView.DocumentViewService.ConvertIdempotent | src/main/java/org/jahia/modules/docviewer/DocumentViewService.java:199-214 | convert with overwriting, run again on the repository it produced, gives that same repository: the SWF is written over the one stored, leaving one artifact and not two (for an SWF not stored over the document itself) |
| DocumentView.PreparedView | src/main/java/org/jahia/modules/docviewer/DocumentViewService.java:399-405 | the result has exactly the old nodes plus the swfView child |
| DocumentView.PrepareView | src/main/java/org/jahia/modules/docviewer/DocumentViewService.java:399-405 | an existing swfView child is used as it is; otherwise the mixin is added when missing and an nt:resource child is made |
| DocumentView.WithoutData | src/main/java/org/jahia/modules/docviewer/DocumentViewService.java:341-343 | the nodes are the same; node q loses its jcr:data property and keeps everything else, and every other node is unchanged |
| DocumentView.RemoveData | src/main/java/org/jahia/modules/docviewer/DocumentViewService.java:410-412 | the jcr:data property is removed when present, and nothing else changes |
| DocumentView.ViewStored | src/main/java/org/jahia/modules/docviewer/DocumentViewService.java:399-417 | the swfView child holds the SWF, its mime type and the modification time and keeps its other properties; a new child is an nt:resource under a document of type jmix:swfDocumentView; an existing child leaves the document alone; no other node changes |
| DocumentView.DocumentViewService.StoreView | src/main/java/org/jahia/modules/docviewer/DocumentViewService.java:396-420 | the session becomes WithView of the old nodes and is saved; the stream on the SWF file is closed |
| DocumentView.DocumentViewService.CreateView | src/main/java/org/jahia/modules/docviewer/DocumentViewService.java:377-437 | the files and streams are as before on every path; the repository is saved as ViewedNodes, and nothing is written when that is None |
| DocumentView.DocumentViewService.FirstPageRendered | src/main/java/org/jahia/modules/docviewer/DocumentViewService.java:468-470 | only page 0 of the PDF source is rendered: its image at the configured type and resolution; an empty document gives null; a load error other than an index error propagates |
| DocumentView.DocumentViewService.OpenConvertedPdf | src/main/java/org/jahia/modules/docviewer/DocumentViewService.java:455-464 | the temporary copy is deleted on every path; on failure the error propagates and no file or stream remains; on success exactly one new PDF file and one stream over it exist |
| DocumentView.DocumentViewService.GetImageOfFirstPage | src/main/java/org/jahia/modules/docviewer/DocumentViewService.java:439-477 | the result is FirstPageImage (a PDF's own content, null when the converter is off, or the converted content, rendered on page 0); the files and streams are as before on every path |
| DocumentView.PreparedThumbnail | src/main/java/org/jahia/modules/docviewer/DocumentViewService.java:334-339 | the result has exactly the old nodes plus the thumbnail child |
| DocumentView.PrepareThumbnail | src/main/java/org/jahia/modules/docviewer/DocumentViewService.java:334-339 | an existing child is used as it is; a missing one becomes a jnt:resource with the jmix:image mixin |
| DocumentView.WithThumbnail | src/main/java/org/jahia/modules/docviewer/DocumentViewService.java:350-364 | writing the thumbnail keeps the set of nodes the same |
| DocumentView.StoreThumbnail | src/main/java/org/jahia/modules/docviewer/DocumentViewService.java:350-364 | the six property writes leave the session at WithThumbnail of the old nodes |
| DocumentView.ThumbnailWritten | src/main/java/org/jahia/modules/docviewer/DocumentViewService.java:350-364 | the child gets the data, width, height, mime type and modification time on top of its old properties, the document gets the same time, and no other node changes |
| DocumentView.DocumentViewService.StoreThumbnailNode | src/main/java/org/jahia/modules/docviewer/DocumentViewService.java:328-367 | the session becomes ThumbnailNodes of the old nodes; an encoding failure propagates |
| DocumentView.DocumentViewService.ThumbnailStored | src/main/java/org/jahia/modules/docviewer/DocumentViewService.java:335-364 | the child holds the encoded image and its width and height; the mime type is image/png exactly when the format is "png"; the child and the document carry the same modification time; a new child is a jnt:resource with jmix:image; no other node changes |
| DocumentView.DocumentViewService.ThumbnailWriteFailure | src/main/java/org/jahia/modules/docviewer/DocumentViewService.java:341-351 | when encoding fails, the child is left without data and the document is not stamped |
| DocumentView.ThumbnailMimeIff | src/main/java/org/jahia/modules/docviewer/DocumentViewService.java:360-361 | "image/png" exactly for the "png" format, "image/jpeg" for any other |
| DocumentView.DocumentViewService.CreateThumbnail | src/main/java/org/jahia/modules/docviewer/DocumentViewService.java:281-326 | the files and streams are as before; the session becomes ThumbnailedNodes (the scaled first page is stored when every step succeeds) and is not saved |
| ThumbnailRule.CreateThumbnailDocumentRule.constructor | src/main/java/org/jahia/modules/docviewer/rules/CreateThumbnailDocumentRule.java:55-57 | the defaults are the name "thumbnail" and the size 150 |
| ThumbnailRule.CreateThumbnailDocumentRule.SetThumbnailName | src/main/java/org/jahia/modules/docviewer/rules/CreateThumbnailDocumentRule.java:77-79 | the thumbnail name is set |
| ThumbnailRule.CreateThumbnailDocumentRule.SetThumbnailSize | src/main/java/org/jahia/modules/docviewer/rules/CreateThumbnailDocumentRule.java:81-83 | the thumbnail size is set |
| ThumbnailRule.SizeOverride | src/main/java/org/jahia/modules/docviewer/rules/CreateThumbnailDocumentRule.java:66-71 | a folder value in 1..2^31-1 becomes the size |
| ThumbnailRule.SizeDefault | src/main/java/org/jahia/modules/docviewer/rules/CreateThumbnailDocumentRule.java:65-74 | an absent or non-positive folder value leaves the configured size in effect |
| ThumbnailRule.NarrowedSizeNotPositive | src/main/java/org/jahia/modules/docviewer/rules/CreateThumbnailDocumentRule.java:69-70 | as written, a folder value of 2^31 narrows to -2^31, and one of 2^32 to 0 |
| ThumbnailRule.SizePositive | src/main/java/org/jahia/modules/docviewer/rules/CreateThumbnailDocumentRule.java:63-75 | corrected: the size is positive whenever the configured one is, and agrees with the as-written one whenever the folder value fits in an int |
| ThumbnailRule.CreateThumbnailDocumentRule.Execute | src/main/java/org/jahia/modules/docviewer/rules/CreateThumbnailDocumentRule.java:59-61 | a failure to compute the size propagates before anything is written; otherwise createThumbnail runs with the configured name and the computed size |

## Left out

- DocumentView.DocumentViewService.ConvertFile calls the corrected `Convert`, not
  `ConvertAsWritten`, so the temporary file the source leaks when pdf2swf fails after
  createTempFile (a blank executable or a non-zero exit) does not appear in its contract.
- DocumentView.DocumentViewService.ProduceSwf: "only the input and output temporaries differ"
  holds over the corrected `Convert`. In the source one more file, the leaked pdf2swf temporary,
  remains when pdf2swf fails.
- DocumentView.DocumentViewService.ConvertDownloaded: the same as ProduceSwf; the leaked pdf2swf
  temporary is not among the files it lets change.
- DocumentView.DocumentViewService.ConvertNode: "files as before on every path" holds over the
  corrected `Convert`. In the source a pdf2swf failure leaves its temporary output file behind.
- DocumentView.DocumentViewService.CreateView: the same as ConvertNode; the source leaves the
  pdf2swf temporary output file behind when pdf2swf fails.
- Host.ExpandArgument and Host.Argv substitute only an argument that is a whole `${name}`
  placeholder, and the executable is passed unexpanded. commons-exec also substitutes `${name}`
  inside a longer argument and in the executable, so a parameter token such as `-o=${outFile}`
  would receive a path there but stays literal here. commons-exec is not part of this model.
- The foreign libraries are oracles of the model: `DocumentConverterService`, the pdf2swf program,
  PDFBox's parsing and rendering, Thumbnailator and ImageIO. Their internals are outside this code.
- The document converter is taken to return content or throw. A converter that returns a null
  file, which the source would pass to `new FileInputStream`, is not modelled.
- The pdf2swf oracle sees the option tokens and the content at the input path, not the paths
  themselves. The paths it is given are what `Pdf2Swf.ConvertArgv` and `Host.Host.Spawn` record.
- Process execution (`DefaultExecutor`) is reduced to an exit value. A non-zero exit becomes an
  ExecuteException. There is no timeout, and process output is not modelled.
- commons-exec quote handling in `addArguments(parameters, false)` is not modelled: parameters are
  split on spaces only. File-separator normalisation is not modelled either.
- Temporary file names follow the pattern /tmp/doc-viewer<n>.tmp. The real names are random;
  only their freshness matters here.
- The java.util.regex engine is not modelled. `MimeTypes.GlobMatch` is its meaning for the
  patterns that `MimeTypes.RegexSafe` admits: no regex metacharacter other than `.` and `*`.
  Wildcard patterns with other metacharacters are excluded by that requires clause.
- JCR:
  - `checkout` has no effect on the node map.
  - `addNode`, `setProperty`, `uploadFile` and `save` never fail.
  - `isNodeType` sees only the primary type and the mixins, not supertypes.
  - `uploadFile` creates an `nt:file` when the node is missing.
  - The mime registry of `getMimeTypes` is a constant.
  - Node names are not validated.
- ThumbnailRule.LongOf: `Property.getLong` converts only long and date values. A string, binary,
  double or decimal value is taken to throw a ValueFormatException rather than being parsed.
- PdfBox.PDFBoxPDF2ImageConverterService.GetImageOfPage: the handle being closed afterwards is
  stated only for a service that had no document open before the call. A close attempt on every
  path is stated through a ghost counter.
- ThumbnailScaler.PortraitScaling, ThumbnailScaler.LandscapeScaling, ThumbnailScaler.SquareScaling,
  ThumbnailScaler.ResizedWithinBox and ThumbnailScaler.ClampedWithinBox require `size*w` and
  `size*h` to fit in an int. `ThumbnailScaler.GenerateThumbnail` itself computes with
  wrap-around.
- generateThumbnail works on dimensions only: the Graphics2D drawing and `BufferedImage.flush`
  are not modelled.
- The service's collaborators (converters, renderer, registry, name chooser) are fixed when it is
  constructed. Their setters are therefore not modelled. The same holds for the setters of
  PDF2SWFConverterService (`setEnabled`, `setExecutablePath`, `setParameters`).
- Logging, `System.currentTimeMillis` timing and `Calendar.getInstance` are left out. The
  modification time is the parameter `now`.
- ThumbnailRule.CreateThumbnailDocumentRule.Execute uses the corrected size computation
  (`ThumbnailRule.ThumbnailSize`). The as-written one is `ThumbnailRule.ThumbnailSizeAsWritten`
  (see Findings).
- ICEpdfPDF2ImageConverterService, DocumentViewRuleService and the `main` methods of the test
  classes are not part of this model.

## Findings

| source | as written | input that shows it | evidently intended | confidence | as-written member | corrected member |
|---|---|---|---|---|---|---|
| src/main/java/org/jahia/modules/docviewer/PDF2SWFConverterService.java:84-86 | `convert(File)` creates the temporary output file and calls `convert(in, out)` with no try/finally. When the executor throws, the file is never deleted, and the caller's finally (DocumentViewService.java:230-231) sees a null `outFile`. | A document of a non-PDF type with the document converter disabled and pdf2swf enabled. pdf2swf receives the literal `${inFile}`, exits non-zero, and the executor throws. | The temporary output file is deleted when the conversion fails. | not executed | Pdf2Swf.PDF2SWFConverterService.ConvertAsWritten, Pdf2Swf.LeakOnFailure | Pdf2Swf.PDF2SWFConverterService.Convert |
| src/main/java/org/jahia/modules/docviewer/test/TestPdf2ImagePdfbox.java:97-103 | The shorter side `size*h/w` is truncated to 0 for a thin image, and `new BufferedImage(w, 0, type)` throws an IllegalArgumentException. | A 1000 x 1 image at size 150. | A thumbnail at least one pixel wide and high. | not executed | ThumbnailScaler.ThinImageFails | ThumbnailScaler.ClampedWithinBox, ThumbnailScaler.ThinImageClamped |
| src/main/java/org/jahia/modules/docviewer/rules/CreateThumbnailDocumentRule.java:69-70 | The positivity test is made on the long, and `intValue` narrows it afterwards, so the size passed on can be negative or zero. | A folder `j:documentRuleThumbnailSize` of 2147483648 gives size -2147483648. A value of 4294967296 gives 0. | Only a value positive as an int overrides the configured size. | not executed | ThumbnailRule.NarrowedSizeNotPositive | ThumbnailRule.SizePositive |
