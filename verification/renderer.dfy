/** The page renderer engine (`KodexPdfRenderer`): a decoder session, the map
    of pages it has opened, the write-once page-size memo and the two-tier
    cache, with one pure transition function per operation. Exceptions that
    escape an operation are `Err` outcomes carrying the state reached when
    they were thrown. */
module Renderer {
  import opened Results
  import opened Bitmaps
  import opened Decoder
  import CacheManager
  import Lru

  /** The default JPEG quality of the disk tier. */
  const DefaultCompressQuality: int := 75

  datatype Engine = Engine(
    decoder: Session,
    openPages: map<int, Page>,
    dims: map<int, Size>,
    cache: CacheManager.Cache,
    quality: int)

  /** The state after an operation, and what it returned or threw. */
  datatype Step<T> = Step(engine: Engine, out: Result<T>)

  /** What the black-box rasterizer does with the destination bitmap. */
  datatype Raster = Painted(pixels: Pixels) | RenderThrew

  /** What the file system does with the first disk write and its retry. */
  datatype DiskFaults = DiskFaults(first: CacheManager.WriteFault, retry: CacheManager.WriteFault)

  /** Every handle kept in `openPages` is filed under its own index, and an
      open one is the decoder's current page. */
  predicate Consistent(e: Engine) {
    && Decoder.Valid(e.decoder)
    && (forall k :: k in e.openPages ==> e.openPages[k].index == k)
    && (forall k :: k in e.openPages && !e.openPages[k].closed ==> e.decoder.current == Some(k))
  }

  /** The state between two operations: no page open on the decoder, every
      remembered handle closed, at most one of them, every memoised size the
      page's true size, and a well-formed cache. */
  predicate Quiescent(e: Engine) {
    && Consistent(e)
    && e.decoder.current == None
    && (forall k :: k in e.openPages ==> e.openPages[k].closed)
    && |e.openPages.Keys| <= 1
    && (forall k :: k in e.dims ==> 0 <= k < |e.decoder.pages| && e.dims[k] == e.decoder.pages[k])
    && CacheManager.Valid(e.cache)
  }

  /** The constructor: open the decoder, build the cache manager, then
      `initCache` wipes what an earlier session left on disk. `mkdirs` says
      whether creating the cache directory succeeds; what `initCache` does
      last decides whether the engine has one. */
  function Open(source: Option<seq<Size>>, maxMemory: nat, priorDisk: CacheManager.Disk, quality: int, mkdirs: bool): (r: Result<Engine>)
    requires CacheManager.DiskValid(priorDisk)
    ensures source.None? ==> r == Err(InvalidDocument)
    ensures source.Some? ==> (r.Ok? <==> CacheManager.MemoryBudget(maxMemory) > 0)
    ensures r.Ok? ==> Quiescent(r.value) && r.value.decoder.pages == source.value && !r.value.decoder.closed
    ensures r.Ok? ==> r.value.openPages == map[] && r.value.dims == map[] && r.value.quality == quality
    ensures r.Ok? ==> r.value.cache.memory.entries == map[] && r.value.cache.disk == CacheManager.Disk(mkdirs, map[])
  {
    match Decoder.Open(source)
    case Err(x) => Err(x)
    case Ok(decoder) =>
      match CacheManager.NewCacheManager(maxMemory, priorDisk, mkdirs)
      case Err(x) => Err(x)
      case Ok(cache) => Ok(Engine(decoder, map[], map[], CacheManager.InitCache(cache, mkdirs), quality))
  }

  /** When the constructor cannot create the cache directory, no page that
      misses the memory tier is ever returned, whatever is asked of the
      renderer afterwards. */
  lemma OpenWithoutDirectoryServesNoNewPages(source: Option<seq<Size>>, maxMemory: nat, priorDisk: CacheManager.Disk, quality: int, requests: seq<Request>)
    requires CacheManager.DiskValid(priorDisk)
    ensures var r := Open(source, maxMemory, priorDisk, quality, false);
            r.Ok? ==> NoNewPages(RenderAll(r.value, requests).1)
  {
    var r := Open(source, maxMemory, priorDisk, quality, false);
    if r.Ok? {
      LostDirectoryServesNoNewPages(r.value, requests);
    }
  }

  /** `getPageCount`. */
  function GetPageCount(e: Engine): (r: Result<nat>)
    ensures r.Ok? <==> !e.decoder.closed
    ensures r.Ok? ==> r.value == |e.decoder.pages|
  {
    Decoder.PageCount(e.decoder)
  }

  /** `addBitmapToMemoryCache` as the source writes it: on a write that
      throws, `clearDirectoryCache` and one retry. The wipe removes the
      directory itself, so the retry cannot create its file. A `compress`
      that returns false throws nothing, so it gets no retry. */
  function AddBitmapToMemoryCacheAsWritten(c: CacheManager.Cache, pageNo: int, b: Bitmap, quality: int, faults: DiskFaults): (r: CacheManager.Effect)
    requires CacheManager.Valid(c)
    ensures CacheManager.Valid(r.cache) && r.cache.memory.maxSize == c.memory.maxSize
    ensures pageNo in r.cache.memory.entries <==> SizeOf(b) <= c.memory.maxSize
    ensures pageNo in r.cache.memory.entries ==> r.cache.memory.entries[pageNo] == b
    ensures forall q :: q in r.cache.memory.entries && q != pageNo ==> q in c.memory.entries && r.cache.memory.entries[q] == c.memory.entries[q]
    ensures r.out.Ok? <==> c.disk.present && 0 <= quality <= 100 && !faults.first.Throws?
    ensures r.out.Ok? ==> r.cache.disk.present
    ensures r.out.Ok? ==> (CacheManager.DecodeBitmapFromDiskCache(r.cache.disk, pageNo) == Some(CacheManager.JpegRendition(b, quality)) <==> faults.first.Healthy?)
    ensures r.out.Ok? ==> forall q :: q != pageNo ==> CacheManager.DecodeBitmapFromDiskCache(r.cache.disk, q) == CacheManager.DecodeBitmapFromDiskCache(c.disk, q)
    ensures r.out.Err? ==> r.out.error == CacheDirMissing && r.cache.disk == CacheManager.Disk(false, map[])
  {
    var first := CacheManager.AddBitmapToCache(c, pageNo, b, quality, faults.first);
    if first.out.Ok? then first
    else
      var second := CacheManager.AddBitmapToCache(CacheManager.ClearDirectoryCache(first.cache), pageNo, b, quality, faults.retry);
      KeepsOthers(c.memory, first.cache.memory, second.cache.memory, pageNo);
      second
  }

  /** Two puts of the same page keep every other entry the first cache had. */
  lemma KeepsOthers(a: Lru.Lru, b: Lru.Lru, c: Lru.Lru, p: int)
    requires forall q :: q in b.entries && q != p ==> q in a.entries && b.entries[q] == a.entries[q]
    requires forall q :: q in c.entries && q != p ==> q in b.entries && c.entries[q] == b.entries[q]
    ensures forall q :: q in c.entries && q != p ==> q in a.entries && c.entries[q] == a.entries[q]
  {
  }

  /** A `compress` that returns false on the first write goes unnoticed: the
      call completes, so the renderer returns the page, keeps the directory
      and does not retry, and the page's file is there but reads back as
      nothing. No other page's file changes. */
  lemma CompressFailureSkipsRetryAsWritten(c: CacheManager.Cache, pageNo: int, b: Bitmap, retry: CacheManager.WriteFault)
    requires CacheManager.Valid(c) && c.disk.present
    ensures var r := AddBitmapToMemoryCacheAsWritten(c, pageNo, b, DefaultCompressQuality, DiskFaults(CacheManager.CompressFails, retry));
            && r.out.Ok? && r.cache.disk.present
            && CacheManager.FileFor(pageNo) in r.cache.disk.files
            && CacheManager.DecodeBitmapFromDiskCache(r.cache.disk, pageNo).None?
            && forall q :: q != pageNo ==> CacheManager.DecodeBitmapFromDiskCache(r.cache.disk, q) == CacheManager.DecodeBitmapFromDiskCache(c.disk, q)
  {
  }

  /** The retry never succeeds as written: with a healthy file system on the
      retry and a valid quality, a first write that throws (the stream fails
      to open or to write) still ends in a failed write and an empty disk
      tier. */
  lemma RetryAfterWipeFailsAsWritten(c: CacheManager.Cache, pageNo: int, b: Bitmap)
    requires CacheManager.Valid(c) && c.disk.present
    ensures var r := AddBitmapToMemoryCacheAsWritten(c, pageNo, b, DefaultCompressQuality, DiskFaults(CacheManager.Throws, CacheManager.Healthy));
            r.out == Err(CacheDirMissing) && !r.cache.disk.present
            && CacheManager.DecodeBitmapFromDiskCache(r.cache.disk, pageNo).None?
  {
  }

  /** `addBitmapToMemoryCache` with the wipe done as `initCache` does it
      (delete, then create the directory again, which is taken to succeed),
      so that the one retry can succeed. The engine keeps the definition as written; this one states
      what the retry was evidently meant to achieve. */
  function AddBitmapToMemoryCache(c: CacheManager.Cache, pageNo: int, b: Bitmap, quality: int, faults: DiskFaults): (r: CacheManager.Effect)
    requires CacheManager.Valid(c)
    ensures CacheManager.Valid(r.cache) && r.cache.memory.maxSize == c.memory.maxSize
    ensures pageNo in r.cache.memory.entries <==> SizeOf(b) <= c.memory.maxSize
    ensures pageNo in r.cache.memory.entries ==> r.cache.memory.entries[pageNo] == b
    ensures r.out.Ok? <==> 0 <= quality <= 100 && ((c.disk.present && !faults.first.Throws?) || !faults.retry.Throws?)
    ensures r.out.Ok? ==> r.cache.disk.present
    ensures r.out.Ok? ==> (CacheManager.DecodeBitmapFromDiskCache(r.cache.disk, pageNo) == Some(CacheManager.JpegRendition(b, quality))
                           <==> (if c.disk.present && !faults.first.Throws? then faults.first else faults.retry).Healthy?)
    ensures !(c.disk.present && 0 <= quality <= 100 && !faults.first.Throws?) ==> r.cache.disk.present && r.cache.disk.files.Keys <= {CacheManager.FileFor(pageNo)}
  {
    var first := CacheManager.AddBitmapToCache(c, pageNo, b, quality, faults.first);
    if first.out.Ok? then first
    else
      var wiped := CacheManager.InitCache(first.cache, true);
      var second := CacheManager.AddBitmapToCache(wiped, pageNo, b, quality, faults.retry);
      RetryIntoEmptyDirectory(wiped, second, pageNo, b, quality, faults.retry);
      second
  }

  /** A write into an empty directory leaves at most that page's file. */
  lemma RetryIntoEmptyDirectory(wiped: CacheManager.Cache, r: CacheManager.Effect, pageNo: int, b: Bitmap, quality: int, fault: CacheManager.WriteFault)
    requires CacheManager.Valid(wiped) && wiped.disk == CacheManager.Disk(true, map[])
    requires r == CacheManager.AddBitmapToCache(wiped, pageNo, b, quality, fault)
    ensures r.cache.disk.present && r.cache.disk.files.Keys <= {CacheManager.FileFor(pageNo)}
  {
    var (disk, _) := CacheManager.WriteFile(wiped.disk, pageNo, b, quality, fault);
    assert r.cache.disk == disk;
  }

  /** With the directory re-created, a first write that throws followed by a
      healthy retry stores the page on disk, and nothing else is left there. */
  lemma RetryAfterWipeSucceeds(c: CacheManager.Cache, pageNo: int, b: Bitmap)
    requires CacheManager.Valid(c) && c.disk.present
    ensures var r := AddBitmapToMemoryCache(c, pageNo, b, DefaultCompressQuality, DiskFaults(CacheManager.Throws, CacheManager.Healthy));
            r.out.Ok? && r.cache.disk.files.Keys == {CacheManager.FileFor(pageNo)}
            && CacheManager.DecodeBitmapFromDiskCache(r.cache.disk, pageNo) == Some(CacheManager.JpegRendition(b, DefaultCompressQuality))
  {
    var first := CacheManager.AddBitmapToCache(c, pageNo, b, DefaultCompressQuality, CacheManager.Throws);
    var wiped := CacheManager.InitCache(first.cache, true);
    WriteIntoEmptyDirectory(wiped, pageNo, b);
  }

  lemma WriteIntoEmptyDirectory(c: CacheManager.Cache, pageNo: int, b: Bitmap)
    requires CacheManager.Valid(c) && c.disk == CacheManager.Disk(true, map[])
    ensures var r := CacheManager.AddBitmapToCache(c, pageNo, b, DefaultCompressQuality, CacheManager.Healthy);
            r.out.Ok? && r.cache.disk.files.Keys == {CacheManager.FileFor(pageNo)}
  {
    var (disk, out) := CacheManager.WriteFile(c.disk, pageNo, b, DefaultCompressQuality, CacheManager.Healthy);
    assert disk.files == map[CacheManager.FileFor(pageNo) := CacheManager.Encode(b, DefaultCompressQuality)];
  }

  /** `getPageDimensions`: the memo first; on a miss the page is opened only
      to read its size, the size is recorded and the page closed again. */
  function GetPageDimensions(e: Engine, pageNo: int): (r: Step<Size>)
    requires Quiescent(e)
    ensures Quiescent(r.engine)
    ensures pageNo in e.dims ==> r == Step(e, Ok(e.dims[pageNo]))
    ensures r.out.Ok? ==> 0 <= pageNo < |e.decoder.pages| && r.out.value == e.decoder.pages[pageNo]
    ensures r.out.Ok? ==> pageNo in r.engine.dims
    ensures r.out.Ok? <==> pageNo in e.dims || (!e.decoder.closed && 0 <= pageNo < |e.decoder.pages|)
    ensures r.out.Err? ==> r.engine == e && r.out.error != PageAlreadyOpen
    ensures r.engine.openPages == e.openPages && r.engine.cache == e.cache && r.engine.quality == e.quality
    ensures r.engine.decoder.pages == e.decoder.pages && r.engine.decoder.closed == e.decoder.closed
    ensures forall k :: k in e.dims ==> k in r.engine.dims && r.engine.dims[k] == e.dims[k]
  {
    if pageNo in e.dims then Step(e, Ok(e.dims[pageNo]))
    else
      match Decoder.OpenPage(e.decoder, pageNo)
      case Err(x) => Step(e, Err(x))
      case Ok(withPage) =>
        var size := withPage.pages[pageNo];
        var (closed, _) := Decoder.ClosePage(withPage, Page(pageNo, false));
        Step(e.(decoder := closed, dims := e.dims[pageNo := size]), Ok(size))
  }

  /** The memo is write-once: a second lookup of the same page returns the
      same size and leaves the state exactly as the first left it. */
  lemma DimensionMemoWriteOnce(e: Engine, pageNo: int)
    requires Quiescent(e)
    ensures var first := GetPageDimensions(e, pageNo);
            first.out.Ok? ==> GetPageDimensions(first.engine, pageNo) == first
  {
  }

  /** Closing the given handles one after another, ignoring the exception a
      handle that is already closed raises. */
  function CloseEach(d: Session, pages: seq<Page>): (r: Session)
    requires Decoder.Valid(d)
    ensures Decoder.Valid(r) && r.pages == d.pages && r.closed == d.closed
    decreases |pages|
  {
    if |pages| == 0 then d else CloseEach(Decoder.ClosePage(d, pages[0]).0, pages[1..])
  }

  predicate HasOpenHandle(e: Engine) {
    exists k :: k in e.openPages && !e.openPages[k].closed
  }

  /** `closeAllOpenPages`: close every remembered handle (an already closed
      one throws, which is caught and logged), then clear the map. */
  function CloseAllOpenPages(e: Engine): (r: Engine)
    requires Consistent(e)
    ensures Consistent(r) && r.openPages == map[]
    ensures r.decoder.current == (if HasOpenHandle(e) then None else e.decoder.current)
    ensures r.decoder.pages == e.decoder.pages && r.decoder.closed == e.decoder.closed
    ensures r.dims == e.dims && r.cache == e.cache && r.quality == e.quality
  {
    var decoder := if HasOpenHandle(e) then e.decoder.(current := None) else e.decoder;
    e.(decoder := decoder, openPages := map[])
  }

  /** Whatever order the map yields its handles in, closing them one by one
      leaves the decoder as `CloseAllOpenPages` does. */
  lemma CloseAllIsSequentialClose(e: Engine, order: seq<int>)
    requires Consistent(e)
    requires forall i :: 0 <= i < |order| ==> order[i] in e.openPages
    requires forall k :: k in e.openPages ==> k in order
    requires forall i, j :: 0 <= i < j < |order| ==> order[i] != order[j]
    ensures CloseEach(e.decoder, seq(|order|, i requires 0 <= i < |order| => e.openPages[order[i]])) == CloseAllOpenPages(e).decoder
  {
    var pages := seq(|order|, i requires 0 <= i < |order| => e.openPages[order[i]]);
    if HasOpenHandle(e) {
      var k :| k in e.openPages && !e.openPages[k].closed;
      var i :| 0 <= i < |order| && order[i] == k;
      assert pages[i] == e.openPages[k];
      assert e.decoder.current == Some(k);
      forall j | 0 <= j < |pages| && j != i ensures pages[j].closed {
        assert pages[j] == e.openPages[order[j]];
        assert order[j] != k;
      }
      CloseEachOneOpen(e.decoder, pages, i);
    } else {
      forall j | 0 <= j < |pages| ensures pages[j].closed {
        assert order[j] in e.openPages;
        HandleClosed(e, order[j]);
        assert pages[j] == e.openPages[order[j]];
      }
      CloseEachAllClosed(e.decoder, pages);
    }
  }

  lemma HandleClosed(e: Engine, k: int)
    requires !HasOpenHandle(e) && k in e.openPages
    ensures e.openPages[k].closed
  {
  }

  lemma {:induction false} CloseEachAllClosed(d: Session, pages: seq<Page>)
    requires Decoder.Valid(d)
    requires forall i :: 0 <= i < |pages| ==> pages[i].closed
    ensures CloseEach(d, pages) == d
    decreases |pages|
  {
    if |pages| > 0 {
      CloseEachAllClosed(d, pages[1..]);
    }
  }

  lemma {:induction false} CloseEachOneOpen(d: Session, pages: seq<Page>, i: nat)
    requires Decoder.Valid(d) && i < |pages| && !pages[i].closed
    requires forall j :: 0 <= j < |pages| && j != i ==> pages[j].closed
    ensures CloseEach(d, pages) == d.(current := None)
    decreases |pages|
  {
    if i == 0 {
      CloseEachAllClosed(d.(current := None), pages[1..]);
    } else {
      CloseEachOneOpen(d, pages[1..], i - 1);
    }
  }

  /** `openPageSafely`: close everything first, then open the page and
      remember its handle. */
  function OpenPageSafely(e: Engine, pageNo: int): (r: Step<()>)
    requires Consistent(e)
    ensures Consistent(r.engine)
    ensures r.out.Ok? ==> r.engine.openPages == map[pageNo := Page(pageNo, false)]
                          && r.engine.decoder.current == Some(pageNo)
    ensures r.out.Err? ==> r.engine.openPages == map[]
    ensures r.out.Ok? <==> !e.decoder.closed && 0 <= pageNo < |e.decoder.pages|
                           && (e.decoder.current == None || HasOpenHandle(e))
    ensures r.engine.decoder.pages == e.decoder.pages && r.engine.decoder.closed == e.decoder.closed
    ensures r.engine.dims == e.dims && r.engine.cache == e.cache && r.engine.quality == e.quality
  {
    var cleared := CloseAllOpenPages(e);
    match Decoder.OpenPage(cleared.decoder, pageNo)
    case Err(x) => Step(cleared, Err(x))
    case Ok(decoder) => Step(cleared.(decoder := decoder, openPages := map[pageNo := Page(pageNo, false)]), Ok(()))
  }

  /** Kotlin's `Int.MAX_VALUE` and `Int.MIN_VALUE`. */
  const IntMax: int := 0x7FFF_FFFF
  const IntMin: int := -0x8000_0000

  /** A `Float` value as IEEE 754 arithmetic sees it, without its rounding:
      a finite value, an infinity, or NaN. */
  datatype Float = Finite(value: real) | PositiveInfinity | NegativeInfinity | NaN

  /** Truncation toward zero of a real. */
  function TruncToInt(x: real): (n: int)
    ensures x >= 0.0 ==> n as real <= x < n as real + 1.0
    ensures x < 0.0 ==> n as real - 1.0 < x <= n as real
  {
    if x >= 0.0 then x.Floor else -((-x).Floor)
  }

  /** Kotlin's `Float.toInt()`: NaN gives 0, values beyond the `Int` range
      (infinities included) saturate, others are truncated toward zero. */
  function FloatToInt(x: Float): (n: int)
    ensures IntMin <= n <= IntMax
    ensures x.NaN? ==> n == 0
    ensures x.PositiveInfinity? || (x.Finite? && x.value >= IntMax as real) ==> n == IntMax
    ensures x.NegativeInfinity? || (x.Finite? && x.value <= IntMin as real) ==> n == IntMin
    ensures x.Finite? && 0.0 <= x.value < IntMax as real ==> n as real <= x.value < n as real + 1.0
    ensures x.Finite? && IntMin as real < x.value < 0.0 ==> n as real - 1.0 < x.value <= n as real
  {
    match x
    case NaN => 0
    case PositiveInfinity => IntMax
    case NegativeInfinity => IntMin
    case Finite(v) =>
      var t := TruncToInt(v);
      if t > IntMax then IntMax else if t < IntMin then IntMin else t
  }

  /** `pageSize.width.toFloat() / pageSize.height`: a zero height gives
      positive infinity, or NaN when the width is zero too. */
  function AspectRatio(size: Size): (a: Float)
    ensures a.NaN? <==> size.width == 0 && size.height == 0
    ensures a.PositiveInfinity? <==> size.width > 0 && size.height == 0
    ensures a.Finite? ==> a.value >= 0.0 && (a.value == 0.0 <==> size.width == 0)
    ensures a.Finite? ==> a.value * size.height as real == size.width as real
  {
    if size.height > 0 then Finite(size.width as real / size.height as real)
    else if size.width > 0 then PositiveInfinity
    else NaN
  }

  /** `screenWidthInPixels / aspectRatio`: a finite width over an infinity is
      zero, over zero (which is +0 here) an infinity of the width's sign, and
      zero over zero or anything over NaN is NaN. */
  function ScaledHeight(screenWidth: int, a: Float): (q: Float)
    ensures a.NaN? || (a == Finite(0.0) && screenWidth == 0) <==> q.NaN?
    ensures (a.PositiveInfinity? || a.NegativeInfinity?) ==> q == Finite(0.0)
    ensures a.Finite? && a.value != 0.0 ==> q.Finite? && q.value * a.value == screenWidth as real
    ensures a == Finite(0.0) && screenWidth > 0 ==> q.PositiveInfinity?
    ensures a == Finite(0.0) && screenWidth < 0 ==> q.NegativeInfinity?
  {
    match a
    case NaN => NaN
    case PositiveInfinity => Finite(0.0)
    case NegativeInfinity => Finite(0.0)
    case Finite(v) =>
      if v != 0.0 then Finite(screenWidth as real / v)
      else if screenWidth > 0 then PositiveInfinity
      else if screenWidth < 0 then NegativeInfinity
      else NaN
  }

  /** The height `renderPage` asks `createBitmap` for: the float quotient
      converted to `Int`, at least one pixel. */
  function PageHeight(screenWidth: int, size: Size): (h: int)
    ensures 1 <= h <= IntMax
  {
    var t := FloatToInt(ScaledHeight(screenWidth, AspectRatio(size)));
    if t >= 1 then t else 1
  }

  /** `(screenWidthInPixels / (width / height)).toInt()` on a page with both
      sides positive, before saturation: the height that keeps the page's
      aspect ratio at the requested width. */
  function TargetHeight(screenWidth: int, size: Size): int
    requires size.width > 0 && size.height > 0
  {
    TruncToInt(screenWidth as real / (size.width as real / size.height as real))
  }

  /** The target height is the floor of `screenWidth * height / width`: the
      largest height whose aspect ratio does not exceed the page's. */
  lemma TargetHeightIsFloor(screenWidth: int, size: Size)
    requires size.width > 0 && size.height > 0
    ensures var h := TargetHeight(screenWidth, size);
            screenWidth >= 0 ==> h >= 0 && h * size.width <= screenWidth * size.height < (h + 1) * size.width
  {
    var aspectRatio := size.width as real / size.height as real;
    TargetHeightBounds(screenWidth, size, aspectRatio, TargetHeight(screenWidth, size));
  }

  lemma TargetHeightBounds(screenWidth: int, size: Size, aspectRatio: real, h: int)
    requires size.width > 0 && size.height > 0
    requires aspectRatio == size.width as real / size.height as real
    requires h == TruncToInt(screenWidth as real / aspectRatio)
    ensures screenWidth >= 0 ==> h >= 0 && h * size.width <= screenWidth * size.height < (h + 1) * size.width
  {
    if screenWidth >= 0 {
      var w := size.width as real;
      var x := screenWidth as real / aspectRatio;
      DivideByRatio(screenWidth as real, w, size.height as real);
      NonNegativeQuotient(screenWidth as real, aspectRatio);
      Bracket(h as real, x, w, screenWidth as real * size.height as real);
      CastProduct(screenWidth, size.height);
      CastProduct(h, size.width);
      CastProduct(h + 1, size.width);
    }
  }

  lemma NonNegativeQuotient(a: real, b: real)
    requires a >= 0.0 && b > 0.0
    ensures a / b >= 0.0
  {
  }

  lemma DivideByRatio(s: real, w: real, h: real)
    requires w > 0.0 && h > 0.0
    ensures (s / (w / h)) * w == s * h
  {
    var q := s / (w / h);
    assert q * (w / h) == s;
    assert (w / h) * h == w;
    calc {
      q * w;
      q * ((w / h) * h);
      (q * (w / h)) * h;
      s * h;
    }
  }

  lemma CastProduct(a: int, b: int)
    ensures (a * b) as real == a as real * b as real
  {
  }

  /** A value between `lo` and `lo + 1`, scaled by a positive `w`. */
  lemma Bracket(lo: real, x: real, w: real, a: real)
    requires lo <= x < lo + 1.0 && w > 0.0 && x * w == a
    ensures lo * w <= a < (lo + 1.0) * w
  {
    var hi := lo + 1.0;
    ScaleLe(lo, x, w);
    ScaleLt(x, hi, w);
    assert a < hi * w;
  }

  lemma ScaleLe(a: real, b: real, c: real)
    requires a <= b && c > 0.0
    ensures a * c <= b * c
  {
  }

  lemma ScaleLt(a: real, b: real, c: real)
    requires a < b && c > 0.0
    ensures a * c < b * c
  {
  }

  /** On a page with both sides positive, the bitmap height is the integer
      quotient `screenWidth * height / width`, raised to one pixel and capped
      at `Int.MAX_VALUE`. */
  lemma PageHeightIsScaledFloor(screenWidth: int, size: Size)
    requires size.width > 0 && size.height > 0 && screenWidth >= 0
    ensures var f := screenWidth * size.height / size.width;
            PageHeight(screenWidth, size) == if f < 1 then 1 else if f > IntMax then IntMax else f
  {
    var f := screenWidth * size.height / size.width;
    var h := TargetHeight(screenWidth, size);
    TargetHeightIsFloor(screenWidth, size);
    FloorDivUnique(screenWidth * size.height, size.width, h);
    assert h == f;
    var a := size.width as real / size.height as real;
    assert AspectRatio(size) == Finite(a);
    assert ScaledHeight(screenWidth, AspectRatio(size)) == Finite(screenWidth as real / a);
  }

  lemma FloorDivUnique(x: int, w: int, q: int)
    requires w > 0 && q * w <= x < (q + 1) * w
    ensures x / w == q
  {
    var d := x / w;
    assert d * w <= x < (d + 1) * w;
    if d < q {
      MulMono(d + 1, q, w);
    } else if d > q {
      MulMono(q + 1, d, w);
    }
  }

  lemma MulMono(a: int, b: int, w: int)
    requires a <= b && w > 0
    ensures a * w <= b * w
  {
  }

  /** Pages with a zero side: zero by zero and any width by zero give a
      one-pixel-high bitmap, while a zero-width page of positive height asks
      for `Int.MAX_VALUE` rows, which no positive width can allocate. */
  lemma ZeroSidedPages(screenWidth: int, size: Size)
    ensures size.height == 0 ==> PageHeight(screenWidth, size) == 1
    ensures size.width == 0 && size.height > 0 && screenWidth > 0 ==>
              PageHeight(screenWidth, size) == IntMax && !Allocatable(screenWidth, PageHeight(screenWidth, size))
  {
    if size.width == 0 && size.height > 0 && screenWidth > 0 {
      assert AspectRatio(size) == Finite(0.0);
      assert screenWidth * IntMax * BytesPerPixel >= IntMax * BytesPerPixel;
    }
  }

  /** The bitmap `renderPage` allocates for a page: the requested width, the
      page height above, the given contents. */
  function PageBitmap(screenWidth: int, size: Size, pixels: Pixels): (b: Bitmap)
    requires screenWidth > 0
    ensures b.width == screenWidth && b.height == PageHeight(screenWidth, size) && b.pixels == pixels
  {
    Bitmap(screenWidth, PageHeight(screenWidth, size), pixels)
  }

  /** What a painted page leaves behind in the cache: it is in memory exactly
      when it fits the budget; the call returns it exactly when the first disk
      write threw nothing, and then the directory is kept and holds the page's
      JPEG unless `compress` failed; otherwise the cache directory is gone. */
  predicate Stored(before: CacheManager.Cache, after: CacheManager.Cache, pageNo: int, b: Bitmap, quality: int, faults: DiskFaults, returned: bool) {
    && after.memory.maxSize == before.memory.maxSize
    && (pageNo in after.memory.entries <==> SizeOf(b) <= before.memory.maxSize)
    && (pageNo in after.memory.entries ==> after.memory.entries[pageNo] == b)
    && (returned <==> before.disk.present && 0 <= quality <= 100 && !faults.first.Throws?)
    && (after.disk.present <==> returned)
    && (returned ==> (CacheManager.DecodeBitmapFromDiskCache(after.disk, pageNo) == Some(CacheManager.JpegRendition(b, quality)) <==> faults.first.Healthy?))
  }

  /** The body of `openPageSafely(pageNo).use { ... }`: rasterize into the
      white bitmap, cache the result; any exception yields null; the page is
      closed on the way out either way. */
  function RasterizeOpenPage(e: Engine, pageNo: int, blank: Bitmap, raster: Raster, faults: DiskFaults): (r: Step<Option<Bitmap>>)
    requires Consistent(e) && CacheManager.Valid(e.cache)
    requires e.openPages == map[pageNo := Page(pageNo, false)]
    requires forall k :: k in e.dims ==> 0 <= k < |e.decoder.pages| && e.dims[k] == e.decoder.pages[k]
    ensures Quiescent(r.engine)
    ensures r.out.Ok? && r.engine.decoder == e.decoder.(current := None)
    ensures r.engine.openPages == map[pageNo := Page(pageNo, true)]
    ensures r.engine.dims == e.dims && r.engine.quality == e.quality && CacheManager.Valid(r.engine.cache)
    ensures raster.RenderThrew? ==> r.out == Ok(None) && r.engine.cache == e.cache
    ensures r.out.value.Some? ==> raster.Painted? && r.out.value.value == blank.(pixels := raster.pixels)
    ensures r.engine.cache.memory.maxSize == e.cache.memory.maxSize
    ensures raster.Painted? ==> Stored(e.cache, r.engine.cache, pageNo, blank.(pixels := raster.pixels), e.quality, faults, r.out.value.Some?)
    ensures r.engine.cache.disk.present ==> e.cache.disk.present
  {
    var attempt := RenderAndStore(e.cache, e.quality, pageNo, blank, raster, faults);
    var (decoder, _) := Decoder.ClosePage(e.decoder, e.openPages[pageNo]);
    var after := e.(decoder := decoder, openPages := map[pageNo := Page(pageNo, true)], cache := attempt.0);
    ClosedPageIsQuiescent(e, pageNo, after);
    Step(after, Ok(attempt.1))
  }

  /** Closing the only open handle, with a well-formed cache, leaves the
      engine between operations. */
  lemma ClosedPageIsQuiescent(e: Engine, pageNo: int, after: Engine)
    requires Decoder.Valid(e.decoder)
    requires after.decoder == e.decoder.(current := None)
    requires after.openPages == map[pageNo := Page(pageNo, true)]
    requires after.dims == e.dims
    requires forall k :: k in e.dims ==> 0 <= k < |e.decoder.pages| && e.dims[k] == e.decoder.pages[k]
    requires CacheManager.Valid(after.cache)
    ensures Quiescent(after)
  {
    assert after.openPages.Keys == {pageNo};
  }

  /** The `try` block: rasterize, then cache; an exception from either gives
      null. The cache keeps whatever the failed store already changed. */
  function RenderAndStore(c: CacheManager.Cache, quality: int, pageNo: int, blank: Bitmap, raster: Raster, faults: DiskFaults): (r: (CacheManager.Cache, Option<Bitmap>))
    requires CacheManager.Valid(c)
    ensures CacheManager.Valid(r.0) && r.0.memory.maxSize == c.memory.maxSize
    ensures raster.RenderThrew? ==> r == (c, None)
    ensures r.1.Some? ==> raster.Painted? && r.1.value == blank.(pixels := raster.pixels)
    ensures raster.Painted? ==> Stored(c, r.0, pageNo, blank.(pixels := raster.pixels), quality, faults, r.1.Some?)
    ensures r.0.disk.present ==> c.disk.present
  {
    match raster
    case RenderThrew => (c, None)
    case Painted(pixels) =>
      var bitmap := blank.(pixels := pixels);
      var stored := AddBitmapToMemoryCacheAsWritten(c, pageNo, bitmap, quality, faults);
      (stored.cache, if stored.out.Ok? then Some(bitmap) else None)
  }

  /** The cache-miss half of `renderPage`. */
  function RenderMiss(e: Engine, pageNo: int, screenWidth: int, raster: Raster, faults: DiskFaults): (r: Step<Option<Bitmap>>)
    requires Quiescent(e)
    ensures Quiescent(r.engine)
    ensures r.out.Err? <==> e.decoder.closed || !(0 <= pageNo < |e.decoder.pages|)
                            || !Allocatable(screenWidth, PageHeight(screenWidth, e.decoder.pages[pageNo]))
    ensures r.out.Err? ==> r.out.error != PageAlreadyOpen && r.engine.cache == e.cache
    ensures r.engine.cache.disk.present ==> e.cache.disk.present
    ensures r.out.Ok? ==> r.engine.openPages == map[pageNo := Page(pageNo, true)] && pageNo in r.engine.dims
    ensures r.out.Ok? && r.out.value.Some? ==>
              && raster.Painted?
              && r.out.value.value == PageBitmap(screenWidth, e.decoder.pages[pageNo], raster.pixels)
    ensures raster.RenderThrew? && r.out.Ok? ==> r.out.value == None && r.engine.cache == e.cache
    ensures r.out.Ok? && raster.Painted? ==>
              Stored(e.cache, r.engine.cache, pageNo, PageBitmap(screenWidth, e.decoder.pages[pageNo], raster.pixels), e.quality, faults, r.out.value.Some?)
    ensures r.engine.decoder.pages == e.decoder.pages && r.engine.decoder.closed == e.decoder.closed
    ensures r.engine.quality == e.quality && r.engine.cache.memory.maxSize == e.cache.memory.maxSize
  {
    var measured := GetPageDimensions(e, pageNo);
    match measured.out
    case Err(x) => Step(measured.engine, Err(x))
    case Ok(size) => RenderMeasured(measured.engine, pageNo, screenWidth, raster, faults)
  }

  /** `renderPage` once the page's size is known: allocate the white bitmap
      (which throws for a non-positive width or a buffer beyond
      `MaxByteCount`), open the page and rasterize into it. */
  function RenderMeasured(e: Engine, pageNo: int, screenWidth: int, raster: Raster, faults: DiskFaults): (r: Step<Option<Bitmap>>)
    requires Quiescent(e) && 0 <= pageNo < |e.decoder.pages|
    ensures Quiescent(r.engine)
    ensures r.out.Err? <==> e.decoder.closed || !Allocatable(screenWidth, PageHeight(screenWidth, e.decoder.pages[pageNo]))
    ensures screenWidth <= 0 ==> r == Step(e, Err(InvalidBitmapSize))
    ensures screenWidth > 0 && !Allocatable(screenWidth, PageHeight(screenWidth, e.decoder.pages[pageNo])) ==> r == Step(e, Err(BitmapTooLarge))
    ensures r.out.Err? ==> r.out.error != PageAlreadyOpen && r.engine.cache == e.cache
    ensures r.engine.cache.disk.present ==> e.cache.disk.present
    ensures r.out.Ok? ==> r.engine.openPages == map[pageNo := Page(pageNo, true)] && r.engine.dims == e.dims
    ensures r.out.Ok? && r.out.value.Some? ==>
              && raster.Painted?
              && r.out.value.value == PageBitmap(screenWidth, e.decoder.pages[pageNo], raster.pixels)
    ensures raster.RenderThrew? && r.out.Ok? ==> r.out.value == None && r.engine.cache == e.cache
    ensures r.out.Ok? && raster.Painted? ==>
              Stored(e.cache, r.engine.cache, pageNo, PageBitmap(screenWidth, e.decoder.pages[pageNo], raster.pixels), e.quality, faults, r.out.value.Some?)
    ensures r.engine.decoder.pages == e.decoder.pages && r.engine.decoder.closed == e.decoder.closed
    ensures r.engine.quality == e.quality && r.engine.cache.memory.maxSize == e.cache.memory.maxSize
  {
    if screenWidth <= 0 then Step(e, Err(InvalidBitmapSize))
    else if !Allocatable(screenWidth, PageHeight(screenWidth, e.decoder.pages[pageNo])) then Step(e, Err(BitmapTooLarge))
    else
      var blank := PageBitmap(screenWidth, e.decoder.pages[pageNo], White);
      var started := OpenPageSafely(e, pageNo);
      if started.out.Err? then Step(started.engine, Err(started.out.error))
      else
        var r := RasterizeOpenPage(started.engine, pageNo, blank, raster, faults);
        assert raster.Painted? ==> blank.(pixels := raster.pixels) == PageBitmap(screenWidth, e.decoder.pages[pageNo], raster.pixels);
        r
  }

  /** Neither tier holds the page, on a session that can still render it. */
  predicate Misses(e: Engine, pageNo: int)
    requires CacheManager.Valid(e.cache)
  {
    && !e.decoder.closed
    && pageNo < |e.decoder.pages|
    && pageNo !in e.cache.memory.entries
    && CacheManager.DecodeBitmapFromDiskCache(e.cache.disk, pageNo).None?
  }

  /** `renderPage(pageNo, screenWidthInPixels)`. There is no lower bound
      check: a negative page misses the cache and the decoder rejects it. */
  function RenderPage(e: Engine, pageNo: int, screenWidth: int, raster: Raster, faults: DiskFaults): (r: Step<Option<Bitmap>>)
    requires Quiescent(e)
    ensures Quiescent(r.engine)
    ensures e.decoder.closed ==> r == Step(e, Err(RendererClosed))
    ensures !e.decoder.closed && pageNo >= |e.decoder.pages| ==> r == Step(e, Ok(None))
    ensures !e.decoder.closed && pageNo < |e.decoder.pages| && CacheManager.GetBitmapFromCache(e.cache, pageNo).0.Some? ==>
              && r.out == Ok(CacheManager.GetBitmapFromCache(e.cache, pageNo).0)
              && r.engine.decoder == e.decoder && r.engine.openPages == e.openPages && r.engine.dims == e.dims
    ensures Misses(e, pageNo) ==> (r.out.Err? <==> pageNo < 0 || !Allocatable(screenWidth, PageHeight(screenWidth, e.decoder.pages[pageNo])))
    ensures Misses(e, pageNo) && r.out.Ok? && r.out.value.Some? ==>
              raster.Painted? && r.out.value.value == PageBitmap(screenWidth, e.decoder.pages[pageNo], raster.pixels)
    ensures Misses(e, pageNo) && r.out.Ok? && raster.Painted? ==>
              Stored(e.cache, r.engine.cache, pageNo, PageBitmap(screenWidth, e.decoder.pages[pageNo], raster.pixels), e.quality, faults, r.out.value.Some?)
    ensures Misses(e, pageNo) && raster.RenderThrew? ==> r.engine.cache == e.cache && (r.out.Ok? ==> r.out.value.None?)
    ensures r.out.Err? ==> r.out.error != PageAlreadyOpen
    ensures r.engine.decoder.pages == e.decoder.pages && r.engine.decoder.closed == e.decoder.closed
    ensures r.engine.quality == e.quality && r.engine.cache.memory.maxSize == e.cache.memory.maxSize
    ensures r.engine.cache.disk.present ==> e.cache.disk.present
  {
    match GetPageCount(e)
    case Err(x) => Step(e, Err(x))
    case Ok(count) =>
      if pageNo >= count then Step(e, Ok(None))
      else
        var (hit, cache) := CacheManager.GetBitmapFromCache(e.cache, pageNo);
        var e1 := e.(cache := cache);
        if hit.Some? then Step(e1, Ok(hit))
        else RenderMiss(e1, pageNo, screenWidth, raster, faults)
  }

  /** `closePdfRender`: close all pages, close the session, clear both tiers.
      A second call throws from the closed session before clearing anything. */
  function ClosePdfRender(e: Engine): (r: Step<()>)
    requires Quiescent(e)
    ensures Quiescent(r.engine) && r.engine.openPages == map[]
    ensures r.out.Ok? <==> !e.decoder.closed
    ensures r.out.Ok? ==> r.engine.decoder.closed && r.engine.cache.memory.entries == map[] && !r.engine.cache.disk.present
    ensures r.out.Err? ==> r.out.error == RendererClosed && r.engine.cache == e.cache
  {
    var cleared := CloseAllOpenPages(e);
    match Decoder.Close(cleared.decoder)
    case Err(x) => Step(cleared, Err(x))
    case Ok(decoder) => Step(cleared.(decoder := decoder, cache := CacheManager.ClearCache(cleared.cache)), Ok(()))
  }

  /** A painted page that fits the memory budget is served from memory by the
      next `renderPage`, at whatever width and whatever the decoder would do,
      without opening a page. This holds even when the first call returned
      null because both disk writes failed: the memory insert happened first. */
  lemma RenderedPageIsServedFromMemory(e: Engine, pageNo: int, screenWidth: int, pixels: Pixels, faults: DiskFaults,
                                       laterWidth: int, laterRaster: Raster, laterFaults: DiskFaults)
    requires Quiescent(e) && Misses(e, pageNo) && 0 <= pageNo
    requires Allocatable(screenWidth, PageHeight(screenWidth, e.decoder.pages[pageNo]))
    requires SizeOf(PageBitmap(screenWidth, e.decoder.pages[pageNo], pixels)) <= e.cache.memory.maxSize
    ensures var first := RenderPage(e, pageNo, screenWidth, Painted(pixels), faults);
            var second := RenderPage(first.engine, pageNo, laterWidth, laterRaster, laterFaults);
            && first.out.Ok?
            && second.out == Ok(Some(PageBitmap(screenWidth, e.decoder.pages[pageNo], pixels)))
            && second.engine.decoder == first.engine.decoder
            && second.engine.openPages == first.engine.openPages
  {
    var first := RenderPage(e, pageNo, screenWidth, Painted(pixels), faults);
    assert Stored(e.cache, first.engine.cache, pageNo, PageBitmap(screenWidth, e.decoder.pages[pageNo], pixels), e.quality, faults, first.out.value.Some?);
  }

  /** After `closePdfRender` every entry point throws: rendering, counting
      pages and closing again. */
  lemma UseAfterCloseThrows(e: Engine, pageNo: int, screenWidth: int, raster: Raster, faults: DiskFaults)
    requires Quiescent(e)
    ensures var closed := ClosePdfRender(e);
            && closed.out.Ok? == !e.decoder.closed
            && RenderPage(closed.engine, pageNo, screenWidth, raster, faults).out == Err(RendererClosed)
            && GetPageCount(closed.engine).Err?
            && ClosePdfRender(closed.engine).out == Err(RendererClosed)
  {
  }

  /** One `renderPage` call: the page, the width, what the rasterizer does and
      which disk writes fail. */
  datatype Request = Request(pageNo: int, screenWidth: int, raster: Raster, faults: DiskFaults)

  /** What one call returned, and whether neither tier held the page when
      it was made. */
  datatype Served = Served(missed: bool, out: Result<Option<Bitmap>>)

  /** A sequence of `renderPage` calls on one engine. */
  function RenderAll(e: Engine, requests: seq<Request>): (r: (Engine, seq<Served>))
    requires Quiescent(e)
    ensures Quiescent(r.0) && |r.1| == |requests|
    ensures r.0.decoder.pages == e.decoder.pages && r.0.decoder.closed == e.decoder.closed
    ensures r.0.cache.disk.present ==> e.cache.disk.present
    decreases |requests|
  {
    if |requests| == 0 then (e, [])
    else
      var q := requests[0];
      var step := RenderPage(e, q.pageNo, q.screenWidth, q.raster, q.faults);
      var rest := RenderAll(step.engine, requests[1..]);
      (rest.0, [Served(Misses(e, q.pageNo), step.out)] + rest.1)
  }

  /** No call that missed both tiers returned a bitmap. */
  predicate NoNewPages(served: seq<Served>) {
    forall i :: 0 <= i < |served| && served[i].missed && served[i].out.Ok? ==> served[i].out.value == None
  }

  /** Without the cache directory a miss never yields a bitmap, painted or
      not, and no call brings the directory back. */
  lemma RenderWithoutDirectory(e: Engine, q: Request)
    requires Quiescent(e) && !e.cache.disk.present
    ensures var r := RenderPage(e, q.pageNo, q.screenWidth, q.raster, q.faults);
            !r.engine.cache.disk.present && (Misses(e, q.pageNo) && r.out.Ok? ==> r.out.value == None)
  {
    var r := RenderPage(e, q.pageNo, q.screenWidth, q.raster, q.faults);
    if Misses(e, q.pageNo) && r.out.Ok? && q.raster.Painted? {
      assert Stored(e.cache, r.engine.cache, q.pageNo, PageBitmap(q.screenWidth, e.decoder.pages[q.pageNo], q.raster.pixels), e.quality, q.faults, r.out.value.Some?);
    }
  }

  lemma NoNewPagesCons(head: Served, rest: seq<Served>)
    requires head.missed && head.out.Ok? ==> head.out.value == None
    requires NoNewPages(rest)
    ensures NoNewPages([head] + rest)
  {
    var all := [head] + rest;
    forall i | 0 <= i < |all| && all[i].missed && all[i].out.Ok?
      ensures all[i].out.value == None
    {
      if i > 0 {
        assert all[i] == rest[i - 1];
      }
    }
  }

  /** Once the cache directory is gone, every later miss returns null (or
      throws), whatever the disk does: only pages already in the memory tier
      are ever served again, until the renderer is closed. */
  lemma {:induction false} LostDirectoryServesNoNewPages(e: Engine, requests: seq<Request>)
    requires Quiescent(e) && !e.cache.disk.present
    ensures var r := RenderAll(e, requests);
            !r.0.cache.disk.present && NoNewPages(r.1)
    decreases |requests|
  {
    if |requests| > 0 {
      var q := requests[0];
      var step := RenderPage(e, q.pageNo, q.screenWidth, q.raster, q.faults);
      RenderWithoutDirectory(e, q);
      LostDirectoryServesNoNewPages(step.engine, requests[1..]);
      NoNewPagesCons(Served(Misses(e, q.pageNo), step.out), RenderAll(step.engine, requests[1..]).1);
    }
  }

  /** As written, one disk write that throws on a miss is permanent: that call
      returns null, the directory is deleted, and every later miss returns
      null too, however healthy the disk is afterwards. */
  lemma OneFailedWriteIsPermanent(e: Engine, pageNo: int, screenWidth: int, pixels: Pixels, retry: CacheManager.WriteFault, later: seq<Request>)
    requires Quiescent(e) && Misses(e, pageNo) && 0 <= pageNo && e.cache.disk.present
    requires Allocatable(screenWidth, PageHeight(screenWidth, e.decoder.pages[pageNo]))
    ensures var first := RenderPage(e, pageNo, screenWidth, Painted(pixels), DiskFaults(CacheManager.Throws, retry));
            var rest := RenderAll(first.engine, later);
            first.out == Ok(None) && !first.engine.cache.disk.present && NoNewPages(rest.1)
  {
    var first := RenderPage(e, pageNo, screenWidth, Painted(pixels), DiskFaults(CacheManager.Throws, retry));
    assert Stored(e.cache, first.engine.cache, pageNo, PageBitmap(screenWidth, e.decoder.pages[pageNo], pixels), e.quality, DiskFaults(CacheManager.Throws, retry), first.out.value.Some?);
    LostDirectoryServesNoNewPages(first.engine, later);
  }
}
