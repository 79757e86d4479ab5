/** CreateThumbnailDocumentRule: the document rule that makes a thumbnail of a document, of a size
    the document's folder may override through its j:documentRuleThumbnailSize property. */
module ThumbnailRule {
  import opened Outcomes
  import opened JavaInt
  import Host
  import Jcr
  import DocumentView

  const DEFAULT_THUMBNAIL_NAME := "thumbnail"
  const DEFAULT_THUMBNAIL_SIZE := 150
  const THUMBNAIL_SIZE_PROPERTY := "j:documentRuleThumbnailSize"

  /** Property.getLong: a long is itself, a date its time in milliseconds; other values are not
      converted here and throw a ValueFormatException. */
  function LongOf(v: Jcr.Value): Result<int> {
    match v
    case LongValue(n) => Ok(n)
    case DateValue(t) => Ok(t)
    case _ => Err(ValueFormat)
  }

  /** The folder's size override as a long, when it has one: the root has no folder (getParent
      throws), and a folder missing from the repository cannot be read. */
  function FolderSize(nodes: Jcr.Nodes, p: Jcr.Path): Result<Option<int>> {
    match Jcr.Parent(p)
    case None => Err(RepositoryException)
    case Some(folder) =>
      if folder !in nodes then Err(RepositoryException)
      else if THUMBNAIL_SIZE_PROPERTY !in nodes[folder].props then Ok(None)
      else
        match LongOf(nodes[folder].props[THUMBNAIL_SIZE_PROPERTY])
        case Err(e) => Err(e)
        case Ok(n) => Ok(Some(n))
  }

  /** getThumbnailSize(document) as written: a positive long overrides the configured size, cut
      to an int by intValue after the check. */
  function ThumbnailSizeAsWritten(nodes: Jcr.Nodes, p: Jcr.Path, configured: int): Result<int> {
    match FolderSize(nodes, p)
    case Err(e) => Err(e)
    case Ok(None) => Ok(configured)
    case Ok(Some(n)) => Ok(if n > 0 then IntValue(n) else configured)
  }

  /** getThumbnailSize(document) with the range check the positive-value test is meant to give:
      only a value that is positive as an int overrides the configured size. */
  function ThumbnailSize(nodes: Jcr.Nodes, p: Jcr.Path, configured: int): Result<int> {
    match FolderSize(nodes, p)
    case Err(e) => Err(e)
    case Ok(None) => Ok(configured)
    case Ok(Some(n)) => Ok(if 0 < n <= INT_MAX then n else configured)
  }

  /** A folder value of 2^31 passes the positive test and reaches createThumbnail as a negative
      size; one of 2^32 as zero. */
  lemma NarrowedSizeNotPositive(nodes: Jcr.Nodes, p: Jcr.Path, configured: int)
    requires p != [] && Jcr.Parent(p).value in nodes
    ensures var folder := Jcr.Parent(p).value;
      && (nodes[folder].props == map[THUMBNAIL_SIZE_PROPERTY := Jcr.LongValue(TWO_32 / 2)] ==>
            ThumbnailSizeAsWritten(nodes, p, configured) == Ok(INT_MIN))
      && (nodes[folder].props == map[THUMBNAIL_SIZE_PROPERTY := Jcr.LongValue(TWO_32)] ==>
            ThumbnailSizeAsWritten(nodes, p, configured) == Ok(0))
  {
    IntValueOfTwoTo31();
    IntValueOfTwoTo32();
  }

  /** The override: a folder value in 1..2^31-1 is the size, as written and corrected alike. */
  lemma SizeOverride(nodes: Jcr.Nodes, p: Jcr.Path, configured: int, n: int)
    requires p != [] && Jcr.Parent(p).value in nodes && 0 < n <= INT_MAX
    requires THUMBNAIL_SIZE_PROPERTY in nodes[Jcr.Parent(p).value].props
    requires nodes[Jcr.Parent(p).value].props[THUMBNAIL_SIZE_PROPERTY] == Jcr.LongValue(n)
    ensures ThumbnailSize(nodes, p, configured) == Ok(n)
    ensures ThumbnailSizeAsWritten(nodes, p, configured) == Ok(n)
  {
    IntValueSmall(n);
  }

  /** The default: without the property, or with a value that is not positive, the configured
      size stays in effect. */
  lemma SizeDefault(nodes: Jcr.Nodes, p: Jcr.Path, configured: int)
    requires p != [] && Jcr.Parent(p).value in nodes
    requires var props := nodes[Jcr.Parent(p).value].props;
      THUMBNAIL_SIZE_PROPERTY !in props || (props[THUMBNAIL_SIZE_PROPERTY].LongValue? && props[THUMBNAIL_SIZE_PROPERTY].n <= 0)
    ensures ThumbnailSize(nodes, p, configured) == Ok(configured)
    ensures ThumbnailSizeAsWritten(nodes, p, configured) == Ok(configured)
  {
  }

  /** The corrected size is positive whenever the configured one is, and agrees with the
      as-written one whenever the folder value fits in an int. */
  lemma SizePositive(nodes: Jcr.Nodes, p: Jcr.Path, configured: int)
    requires configured > 0
    ensures ThumbnailSize(nodes, p, configured).Ok? ==> ThumbnailSize(nodes, p, configured).value > 0
    ensures (FolderSize(nodes, p).Ok? && FolderSize(nodes, p).value.Some? ==> FolderSize(nodes, p).value.value <= INT_MAX) ==>
      ThumbnailSize(nodes, p, configured) == ThumbnailSizeAsWritten(nodes, p, configured)
  {
    var f := FolderSize(nodes, p);
    if f.Ok? && f.value.Some? && 0 < f.value.value <= INT_MAX {
      IntValueSmall(f.value.value);
    }
  }

  class CreateThumbnailDocumentRule {
    var thumbnailName: string
    var thumbnailSize: int
    const documentViewService: DocumentView.DocumentViewService

    constructor (documentViewService: DocumentView.DocumentViewService)
      ensures thumbnailName == DEFAULT_THUMBNAIL_NAME && thumbnailSize == DEFAULT_THUMBNAIL_SIZE
      ensures this.documentViewService == documentViewService
    {
      thumbnailName := DEFAULT_THUMBNAIL_NAME;
      thumbnailSize := DEFAULT_THUMBNAIL_SIZE;
      this.documentViewService := documentViewService;
    }

    method SetThumbnailName(thumbnailName: string)
      modifies this`thumbnailName
      ensures this.thumbnailName == thumbnailName
    {
      this.thumbnailName := thumbnailName;
    }

    method SetThumbnailSize(thumbnailSize: int)
      modifies this`thumbnailSize
      ensures this.thumbnailSize == thumbnailSize
    {
      this.thumbnailSize := thumbnailSize;
    }

    /** execute(document) at time now: the thumbnail is created under the configured name at the
        computed size; a failure to compute the size propagates, before anything is written. */
    method Execute(session: Jcr.Session, host: Host.Host, p: Jcr.Path, now: Jcr.Timestamp) returns (r: Outcome)
      requires documentViewService.Valid() && host.Valid() && p in session.nodes
      modifies session`nodes, host`files, host`nextFile, host`streams, host`nextStream
      modifies documentViewService.pdf2image`documentOpen, documentViewService.pdf2image`closeAttempts
      ensures host.Valid() && host.files == old(host.files) && host.streams == old(host.streams)
      ensures var size := ThumbnailSize(old(session.nodes), p, thumbnailSize);
        && (size.Err? ==> r == Fail(size.error) && session.nodes == old(session.nodes))
        && (size.Ok? ==>
              r == Pass
              && session.nodes == old(documentViewService.ThumbnailedNodes(session.nodes, host.canCreateTemp, p, thumbnailName, size.value, now)))
    {
      var size := ThumbnailSize(session.nodes, p, thumbnailSize);
      if size.Err? {
        return Fail(size.error);
      }
      documentViewService.CreateThumbnail(session, host, p, thumbnailName, size.value, now);
      r := Pass;
    }
  }
}
