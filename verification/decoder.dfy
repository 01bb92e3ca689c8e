/** The platform's PDF decoder session (`android.graphics.pdf.PdfRenderer`),
    as the engine relies on it: a fixed list of page sizes, a closed flag, and
    at most one open page at a time. The rules below are the platform's
    run-time checks: every call on a closed session throws, opening a page
    while another is open throws, an index outside the document throws, and
    closing a page that is already closed throws. */
module Decoder {
  import opened Results

  /** A page's natural size, in points. The platform reports both sides as
      non-negative integers; either may be zero. */
  datatype Size = Size(width: nat, height: nat)

  /** A handle on an opened page (`PdfRenderer.Page`). */
  datatype Page = Page(index: int, closed: bool)

  datatype Session = Session(pages: seq<Size>, closed: bool, current: Option<int>)

  predicate Valid(d: Session) {
    d.current.Some? ==> !d.closed && 0 <= d.current.value < |d.pages|
  }

  /** `PdfRenderer(fileDescriptor)`: `None` stands for a source that is not a
      readable PDF document. */
  function Open(source: Option<seq<Size>>): (r: Result<Session>)
    ensures r.Ok? <==> source.Some?
    ensures r.Err? ==> r.error == InvalidDocument
    ensures r.Ok? ==> Valid(r.value) && !r.value.closed && r.value.current == None
                      && r.value.pages == source.value
  {
    match source
    case None => Err(InvalidDocument)
    case Some(pages) => Ok(Session(pages, false, None))
  }

  /** `pageCount`, which also refuses a closed session. */
  function PageCount(d: Session): (r: Result<nat>)
    ensures r.Ok? <==> !d.closed
    ensures r.Ok? ==> r.value == |d.pages|
    ensures r.Err? ==> r.error == RendererClosed
  {
    if d.closed then Err(RendererClosed) else Ok(|d.pages|)
  }

  /** `openPage(index)`: checks, in order, that the session is open, that no
      page is open, and that the index is in the document. */
  function OpenPage(d: Session, index: int): (r: Result<Session>)
    requires Valid(d)
    ensures r.Ok? <==> !d.closed && d.current == None && 0 <= index < |d.pages|
    ensures r.Ok? ==> Valid(r.value) && r.value == d.(current := Some(index))
    ensures d.closed ==> r == Err(RendererClosed)
    ensures !d.closed && d.current.Some? ==> r == Err(PageAlreadyOpen)
    ensures !d.closed && d.current == None && !(0 <= index < |d.pages|) ==> r == Err(PageNotInDocument)
  {
    if d.closed then Err(RendererClosed)
    else if d.current.Some? then Err(PageAlreadyOpen)
    else if !(0 <= index < |d.pages|) then Err(PageNotInDocument)
    else Ok(d.(current := Some(index)))
  }

  /** `Page.close()`: releases the session's open page; a second close of the
      same handle throws and changes nothing. */
  function ClosePage(d: Session, p: Page): (r: (Session, Result<()>))
    requires Valid(d)
    ensures Valid(r.0)
    ensures p.closed ==> r == (d, Err(PageAlreadyClosed))
    ensures !p.closed ==> r == (d.(current := None), Ok(()))
  {
    if p.closed then (d, Err(PageAlreadyClosed)) else (d.(current := None), Ok(()))
  }

  /** `close()`: refuses a session that is already closed or has a page open. */
  function Close(d: Session): (r: Result<Session>)
    requires Valid(d)
    ensures r.Ok? <==> !d.closed && d.current == None
    ensures r.Ok? ==> Valid(r.value) && r.value.closed && r.value.pages == d.pages
    ensures d.closed ==> r == Err(RendererClosed)
    ensures !d.closed && d.current.Some? ==> r == Err(PageAlreadyOpen)
  {
    if d.closed then Err(RendererClosed)
    else if d.current.Some? then Err(PageAlreadyOpen)
    else Ok(d.(closed := true))
  }
}
