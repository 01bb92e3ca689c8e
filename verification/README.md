# Kodex core, modelled in Dafny

Kodex is an Android library that shows a PDF document as a vertically
scrolling list of page bitmaps, with pinch zoom and double-tap zoom. This
project models its core and proves properties about the model:

- **the page renderer engine** (`KodexPdfRenderer`): page count, the
  `renderPage` pipeline, the write-once page-size memo, the "close every open
  page first" discipline, the retry of a failed cache write, and teardown.
  Module `Renderer`. The platform's PDF decoder session is module `Decoder`.
- **the two-tier bitmap cache** (`CacheManager`): an LRU memory tier bounded
  by a budget in KiB, and a disk tier holding one JPEG file per page, named by
  the page number. Modules `CacheManager`, `Lru`, `Bitmaps` and `FileNames`.
- **the viewport arithmetic of the `Kodex` composable**: the pinch handler's
  scale, offset and scroll targets, the double-tap toggle, the vertical
  overflow padding (module `Viewport`), and the touch-slop loop of
  `detectTransformGesturesWithoutConsume` (module `TouchSlop`).
- **input resolution** (`Context.asFile`): the dispatch on the input's kind
  and on the URI scheme, and the bundled-asset path. Module `InputResolution`.

Every operation is a pure function over immutable datatypes. An exception
that escapes an operation is an `Err` outcome carrying the state reached when
it was thrown (`Results.Result`, `Renderer.Step`, `CacheManager.Effect`).
Whatever the code cannot see is a parameter of the function:

- what the rasterizer does (`Raster`);
- whether a disk write goes through, fails silently in `compress`, or throws (`CacheManager.WriteFault`, `DiskFaults`);
- the heap limit (`maxMemory`);
- the directory left by an earlier session;
- `Uri.parse`;
- the outcome of every copy step in `asFile` (`Io`);
- the touch slop;
- the value of the bundled-asset marker.

The decoder session follows the platform's run-time checks, in this order:

1. every call on a closed session throws;
2. opening a page while another is open throws;
3. an index outside the document throws;
4. closing a page twice throws;
5. closing the session with a page open throws.

`android.graphics.pdf.PdfRenderer` and `android.util.LruCache` are Android
platform classes. The model follows their documented behaviour:

- `LruCache` keeps keys in access order.
- `put` and `get` move a key to the youngest end.
- `trimToSize` evicts the eldest keys while the total exceeds the budget, so it can evict the entry just put.
- `evictAll` trims to -1.
- The constructor refuses a budget that is not positive.

`Bitmap.createBitmap` throws `IllegalArgumentException` for a side that is
not positive, and `OutOfMemoryError` when the pixel buffer's byte size does
not fit a signed 32-bit integer (`Bitmaps.Allocatable`).

Some consequences of the code, each stated by a member of the model:

- A disk hit is returned but not put into the memory tier
  (`CacheManager.GetBitmapFromCache` leaves the cache unchanged on a memory
  miss).
- When the first disk write throws, `addBitmapToMemoryCache` deletes the cache
  directory, so its retry throws as well and `renderPage` returns null. The
  bitmap it inserted into the memory tier stays there, and the next call
  serves it (`Renderer.RenderedPageIsServedFromMemory`). Nothing in the
  renderer creates the directory again before teardown, so from then on
  every page that misses the memory tier comes back null
  (`Renderer.LostDirectoryServesNoNewPages`). Only another renderer's
  constructor, which shares the directory, would re-create it.
- The result of `mkdirs` is ignored: when the constructor cannot create the
  cache directory, the renderer works without a disk tier and every page
  that misses the memory tier comes back null
  (`Renderer.OpenWithoutDirectoryServesNoNewPages`).
- `Bitmap.compress` reports a failed compression by returning false, and
  `addBitmapToCache` ignores that result. The call completes, `renderPage`
  returns the page, nothing is wiped or retried, and the page's file stays
  on disk unreadable (`Renderer.CompressFailureSkipsRetryAsWritten`).
- The horizontal pinch adjustment multiplies the centroid's distance from
  the centre by the target scale, so the content under the fingers drifts
  sideways on an off-centre pinch (`Viewport.PinchXDrift`).
- The vertical pinch adjustment is computed as if the list were translated
  like the horizontal layer. But the list is only padded, scaled about the
  view's middle and scrolled in its own unscaled pixels
  (`Viewport.ListDrawn`), so the content under the fingers drifts
  vertically too (`Viewport.PinchYListDrift`). The double tap's scroll, by
  contrast, does bring the tapped point to the middle
  (`Viewport.DoubleTapCentresTappedPoint`).
- A page with a zero side does not divide by zero: `Float` arithmetic gives
  an infinity or NaN. A zero height gives a one-pixel-high bitmap; a zero
  width with a positive height asks for `Int.MAX_VALUE` rows, and
  `createBitmap` throws (`Renderer.ZeroSidedPages`).
- `renderPage` has no lower bound check: a negative page number misses both
  tiers, and opening it throws from the decoder (`Renderer.RenderPage`).
- `closePdfRender` is not idempotent: a second call throws from the closed
  session (`Renderer.UseAfterCloseThrows`).

## Model

Source paths are relative to the repository root.

| member | source | states |
|---|---|---|
| Bitmaps.SizeOf | kodex/src/main/java/fr/openium/kodex/util/CacheManager.kt:24 | an entry's cost is its byte count in whole KiB, rounded down: `kib * 1024 <= bytes < (kib + 1) * 1024` |
| FileNames.DecimalRoundTrip | kodex/src/main/java/fr/openium/kodex/util/CacheManager.kt:40 | reading back the decimal name of a non-negative page number gives the number |
| FileNames.IntToStringRoundTrip | kodex/src/main/java/fr/openium/kodex/util/CacheManager.kt:51 | `pageNo.toString()`, sign included, parses back to `pageNo` |
| FileNames.FileNameInjective | kodex/src/main/java/fr/openium/kodex/util/CacheManager.kt:40 | two pages share a disk file name only if they are the same page, so memory and disk tiers share one key |
| Lru.Create | kodex/src/main/java/fr/openium/kodex/util/CacheManager.kt:23 | the memory tier exists exactly when its budget is positive, and starts empty |
| Lru.Get | kodex/src/main/java/fr/openium/kodex/util/CacheManager.kt:37 | a hit returns the stored bitmap and makes the key the youngest; a miss changes nothing; entries are never changed by a read |
| Lru.EvictCount | kodex/src/main/java/fr/openium/kodex/util/CacheManager.kt:49 | the trim evicts the fewest eldest keys that bring the total within budget: what remains fits, and keeping one more key would not |
| Lru.TrimToSize | kodex/src/main/java/fr/openium/kodex/util/CacheManager.kt:49 | trimming keeps a suffix of the access order with unchanged entries, within budget unless empty, evicting no more than needed |
| Lru.Put | kodex/src/main/java/fr/openium/kodex/util/CacheManager.kt:49 | after a put the resident cost stays within the budget; the new key stays exactly when it fits on its own, as the youngest; survivors keep their bitmaps |
| Lru.PutKeepsNewest | kodex/src/main/java/fr/openium/kodex/util/CacheManager.kt:49 | the youngest key survives a trim exactly when its own cost fits the budget, and then it is still the youngest |
| Lru.EvictAll | kodex/src/main/java/fr/openium/kodex/util/CacheManager.kt:58 | `evictAll` empties the memory tier and keeps its budget |
| Lru.PutThenGet | kodex/src/main/java/fr/openium/kodex/util/CacheManager.kt:36-49 | a get right after a put of the same page returns the bitmap exactly when it fits the budget |
| Lru.TouchedEntrySurvivesPut | kodex/src/main/java/fr/openium/kodex/util/CacheManager.kt:36-49 | an entry read just before a put of another page is evicted only if every other entry goes too |
| Lru.EvictionIsEldestFirst | kodex/src/main/java/fr/openium/kodex/util/CacheManager.kt:49 | once a key is evicted, every key older than it is evicted as well |
| CacheManager.ToInt32 | kodex/src/main/java/fr/openium/kodex/util/CacheManager.kt:21 | `Long.toInt()` keeps the low 32 bits: the result is a 32-bit value congruent to the input, and equals it when it fits |
| CacheManager.DivTrunc | kodex/src/main/java/fr/openium/kodex/util/CacheManager.kt:22 | Kotlin's integer division truncates toward zero: the remainder lies in [0, b) for a non-negative dividend and in (-b, 0] for a non-positive one |
| CacheManager.DivTruncIsOdd | kodex/src/main/java/fr/openium/kodex/util/CacheManager.kt:22 | dividing a negated dividend gives the negated quotient, unlike a floor division |
| CacheManager.MemoryBudgetIsOneEighth | kodex/src/main/java/fr/openium/kodex/util/CacheManager.kt:21-22 | below 2 TiB of heap the budget is `maxMemory / 1024 / 8` KiB, positive from 8 KiB on |
| CacheManager.UnboundedHeapHasNoBudget | kodex/src/main/java/fr/openium/kodex/util/CacheManager.kt:21-23 | a heap limit of `Long.MAX_VALUE` wraps to -1 KiB, the budget becomes 0 and creating the memory tier throws |
| CacheManager.CreateMemoryCache | kodex/src/main/java/fr/openium/kodex/util/CacheManager.kt:20-26 | the memory tier is an empty LRU with the one-eighth budget, and creating it fails exactly when that budget is not positive |
| CacheManager.NewCacheManager | kodex/src/main/java/fr/openium/kodex/util/CacheManager.kt:10-18 | construction fails exactly when the budget is not positive; afterwards the directory exists exactly when it already did or `mkdirs` succeeded, and an existing one is kept as it was |
| CacheManager.InitCache | kodex/src/main/java/fr/openium/kodex/util/CacheManager.kt:28-34 | `initCache` leaves the directory empty, existing exactly when `mkdirs` succeeds, and the memory tier untouched |
| CacheManager.DecodeFile | kodex/src/main/java/fr/openium/kodex/util/CacheManager.kt:42 | decoding yields null exactly for a file that cannot be read |
| CacheManager.EncodeDecodeRoundTrip | kodex/src/main/java/fr/openium/kodex/util/CacheManager.kt:39-55 | a written page decodes to a bitmap of the same size whose pixels are the JPEG rendition at the write's quality |
| CacheManager.DecodeBitmapFromDiskCache | kodex/src/main/java/fr/openium/kodex/util/CacheManager.kt:39-46 | a page without a file yields null; otherwise the decoding of the file named after the page |
| CacheManager.GetBitmapFromCache | kodex/src/main/java/fr/openium/kodex/util/CacheManager.kt:36-37 | the memory tier answers first and refreshes the page's recency; only on a memory miss is the disk read, and the disk hit is not put into memory |
| CacheManager.WriteFile | kodex/src/main/java/fr/openium/kodex/util/CacheManager.kt:51-54 | the write throws exactly when the directory is missing, the quality is outside 0..100 or the stream throws; a `compress` that returns false throws nothing; the page's file holds its JPEG only when the write went through, and is unreadable after any failure with the directory present; no directory means nothing is written |
| CacheManager.AddBitmapToCache | kodex/src/main/java/fr/openium/kodex/util/CacheManager.kt:48-55 | the memory insert stands whatever the disk write does; the call completes even when `compress` fails; the page reads back from disk as its JPEG rendition exactly when the write went through, otherwise not at all; no other page's entry or file changes |
| CacheManager.OtherPagesUntouched | kodex/src/main/java/fr/openium/kodex/util/CacheManager.kt:51 | writing one page's file never changes what another page reads back from disk |
| CacheManager.ClearCache | kodex/src/main/java/fr/openium/kodex/util/CacheManager.kt:57-60 | `clearCache` empties both tiers: no page can be found afterwards |
| CacheManager.ClearDirectoryCache | kodex/src/main/java/fr/openium/kodex/util/CacheManager.kt:62-64 | the directory is removed, and not re-created, while the memory tier is left as it was |
| CacheManager.AddThenGet | kodex/src/main/java/fr/openium/kodex/util/CacheManager.kt:36-55 | reading a page right after storing it gives the bitmap if it fits in memory, else its JPEG rendition if the disk write went through, else nothing, whether the write threw or `compress` failed |
| Decoder.Open | kodex/src/main/java/fr/openium/kodex/KodexPdfRenderer.kt:21 | a session opens exactly on a readable document, with no page open |
| Decoder.PageCount | kodex/src/main/java/fr/openium/kodex/KodexPdfRenderer.kt:47 | the page count is the document's length, and it throws on a closed session |
| Decoder.OpenPage | kodex/src/main/java/fr/openium/kodex/KodexPdfRenderer.kt:109 | opening succeeds exactly on an open session with no page open and an index in range, and each refusal throws its own error |
| Decoder.ClosePage | kodex/src/main/java/fr/openium/kodex/KodexPdfRenderer.kt:119 | closing an open handle releases the session's page; closing it again throws and changes nothing |
| Decoder.Close | kodex/src/main/java/fr/openium/kodex/KodexPdfRenderer.kt:131 | the session closes exactly when it is open with no page open |
| Renderer.Open | kodex/src/main/java/fr/openium/kodex/KodexPdfRenderer.kt:15-28 | construction fails on an unreadable document or a zero budget; otherwise the engine starts between operations, with no handles, no memoised sizes and an empty cache directory that exists exactly when `mkdirs` succeeded |
| Renderer.OpenWithoutDirectoryServesNoNewPages | kodex/src/main/java/fr/openium/kodex/util/CacheManager.kt:28-34 | when the constructor cannot create the directory, no later call that misses both tiers returns a bitmap |
| Renderer.GetPageCount | kodex/src/main/java/fr/openium/kodex/KodexPdfRenderer.kt:45-48 | the page count is the document's, while the renderer is open |
| Renderer.AddBitmapToMemoryCacheAsWritten | kodex/src/main/java/fr/openium/kodex/KodexPdfRenderer.kt:34-41 | the page is in memory exactly when it fits, and other entries are only ever evicted; the store completes exactly when the directory exists, the quality is valid and the first write does not throw, and then the directory is kept, the page reads back from disk as its JPEG exactly when `compress` did not fail, and no other page's read changes; a throw ends with `CacheDirMissing` and no directory, whatever the retry would have done |
| Renderer.CompressFailureSkipsRetryAsWritten | kodex/src/main/java/fr/openium/kodex/KodexPdfRenderer.kt:34-41 | a `compress` that returns false on the first write completes the store with no wipe and no retry, keeps the directory, and leaves the page's file there unreadable; no other page changes |
| Renderer.RetryAfterWipeFailsAsWritten | kodex/src/main/java/fr/openium/kodex/KodexPdfRenderer.kt:34-41 | a first write that throws and a healthy retry still end with no directory and nothing on disk |
| Renderer.AddBitmapToMemoryCache | kodex/src/main/java/fr/openium/kodex/KodexPdfRenderer.kt:34-41 | corrected store, with the directory re-created by the wipe: it completes exactly when the quality is valid and the first write or the single retry does not throw, and the page then reads back from disk exactly when the write that completed went through; the memory entry stands either way; after a wipe the disk holds at most this page |
| Renderer.RetryAfterWipeSucceeds | kodex/src/main/java/fr/openium/kodex/KodexPdfRenderer.kt:34-41 | with the corrected wipe, a first write that throws and a healthy retry leave exactly this page on disk, readable |
| Renderer.WriteIntoEmptyDirectory | kodex/src/main/java/fr/openium/kodex/util/CacheManager.kt:48-55 | a healthy write into an empty directory leaves exactly that page's file |
| Renderer.GetPageDimensions | kodex/src/main/java/fr/openium/kodex/KodexPdfRenderer.kt:92-104 | a memoised size is returned without touching the decoder; otherwise the page is opened, its true size recorded and returned, and the page closed; existing memo entries never change |
| Renderer.DimensionMemoWriteOnce | kodex/src/main/java/fr/openium/kodex/KodexPdfRenderer.kt:92-104 | a second lookup of the same page returns the same size and leaves the state exactly as the first left it |
| Renderer.CloseEach | kodex/src/main/java/fr/openium/kodex/KodexPdfRenderer.kt:117-123 | closing handles one by one, ignoring already-closed ones, never changes the document or the session's closed flag |
| Renderer.CloseAllOpenPages | kodex/src/main/java/fr/openium/kodex/KodexPdfRenderer.kt:115-126 | the handle map ends empty even when some handles were already closed, and the decoder's page is released exactly when a handle was open |
| Renderer.CloseAllIsSequentialClose | kodex/src/main/java/fr/openium/kodex/KodexPdfRenderer.kt:115-126 | in whatever order the map yields its handles, closing them one at a time gives the decoder state `CloseAllOpenPages` gives |
| Renderer.CloseEachAllClosed | kodex/src/main/java/fr/openium/kodex/KodexPdfRenderer.kt:117-123 | closing only closed handles leaves the decoder as it was |
| Renderer.CloseEachOneOpen | kodex/src/main/java/fr/openium/kodex/KodexPdfRenderer.kt:117-123 | closing a list with exactly one open handle releases the decoder's page |
| Renderer.OpenPageSafely | kodex/src/main/java/fr/openium/kodex/KodexPdfRenderer.kt:106-113 | after opening, the handle map holds exactly the page, open and current; it fails exactly on a closed session, an index out of range, or a stray open page with no handle; on failure the map is empty |
| Renderer.TruncToInt | kodex/src/main/java/fr/openium/kodex/KodexPdfRenderer.kt:67 | truncation toward zero: the result is within one of the input, on the zero side |
| Renderer.FloatToInt | kodex/src/main/java/fr/openium/kodex/KodexPdfRenderer.kt:67 | `Float.toInt()`: NaN gives 0, infinities and values beyond the `Int` range saturate at `Int.MAX_VALUE` or `Int.MIN_VALUE`, others truncate toward zero |
| Renderer.AspectRatio | kodex/src/main/java/fr/openium/kodex/KodexPdfRenderer.kt:66 | the ratio is NaN exactly for a 0x0 page, positive infinity exactly for a zero height under a positive width, and otherwise a finite non-negative value that times the height gives the width |
| Renderer.ScaledHeight | kodex/src/main/java/fr/openium/kodex/KodexPdfRenderer.kt:67 | the width over the ratio is NaN exactly when the ratio is NaN or both are zero, zero over an infinity, an infinity of the width's sign over a zero ratio, and otherwise the value that times the ratio gives the width |
| Renderer.PageHeight | kodex/src/main/java/fr/openium/kodex/KodexPdfRenderer.kt:66-69 | the requested height is between 1 and `Int.MAX_VALUE` for every page and width |
| Renderer.TargetHeightIsFloor | kodex/src/main/java/fr/openium/kodex/KodexPdfRenderer.kt:65-67 | the computed height is the largest `h` with `h * width <= screenWidth * height`, which keeps the page's aspect ratio |
| Renderer.PageHeightIsScaledFloor | kodex/src/main/java/fr/openium/kodex/KodexPdfRenderer.kt:65-69 | on a page with both sides positive, the requested height is the integer quotient `screenWidth * height / width`, raised to 1 and capped at `Int.MAX_VALUE` |
| Renderer.ZeroSidedPages | kodex/src/main/java/fr/openium/kodex/KodexPdfRenderer.kt:66-69 | a page of zero height gets a one-pixel-high bitmap; a zero-width page of positive height asks for `Int.MAX_VALUE` rows, which no positive width can allocate |
| Renderer.RasterizeOpenPage | kodex/src/main/java/fr/openium/kodex/KodexPdfRenderer.kt:71-82 | the page is closed on the way out whatever happens; a rasterizer exception returns null with the cache unchanged; a painted page is returned exactly when the first disk write went through, and is otherwise left without a cache directory; the directory is never created |
| Renderer.ClosedPageIsQuiescent | kodex/src/main/java/fr/openium/kodex/KodexPdfRenderer.kt:71 | once `use` closes the only handle, no page is open and at most one closed handle is remembered |
| Renderer.RenderAndStore | kodex/src/main/java/fr/openium/kodex/KodexPdfRenderer.kt:72-81 | a rasterizer exception skips the cache; otherwise the painted bitmap is in memory exactly when it fits, is returned exactly when the first disk write went through (then the disk holds its JPEG), and otherwise the directory is gone |
| Renderer.RenderMeasured | kodex/src/main/java/fr/openium/kodex/KodexPdfRenderer.kt:65-82 | the call throws exactly on a closed session or a bitmap that cannot be allocated: `IllegalArgumentException` for a width that is not positive and `OutOfMemoryError` for a buffer beyond 2 GiB, both before the page is opened and with the state unchanged; a returned bitmap is the painted page at the requested width and page height |
| Renderer.RenderMiss | kodex/src/main/java/fr/openium/kodex/KodexPdfRenderer.kt:61-84 | on a miss the call throws exactly for a closed session, a page outside the document, or a bitmap that cannot be allocated, and never because a page was left open; a returned bitmap is the painted page at the computed size; the directory is never created |
| Renderer.RenderPage | kodex/src/main/java/fr/openium/kodex/KodexPdfRenderer.kt:50-85 | a page at or past the count gives null with no state change; a cache hit is returned without opening a page or touching the memo; a miss throws exactly for a negative page or an unallocatable bitmap, and otherwise renders and stores the page as above; the engine always ends between operations and never creates the directory |
| Renderer.ClosePdfRender | kodex/src/main/java/fr/openium/kodex/KodexPdfRenderer.kt:128-134 | teardown closes every handle and the session and empties both tiers; on a closed renderer it throws and changes no cache |
| Renderer.RenderedPageIsServedFromMemory | kodex/src/main/java/fr/openium/kodex/KodexPdfRenderer.kt:50-85 | a painted page that fits the budget, at an allocatable width, is served by the next call from memory, at any width and whatever the rasterizer would do, without opening a page, even when the first call returned null |
| Renderer.UseAfterCloseThrows | kodex/src/main/java/fr/openium/kodex/KodexPdfRenderer.kt:128-134 | after teardown, rendering, counting and closing again all throw |
| Renderer.RenderAll | kodex/src/main/java/fr/openium/kodex/KodexPdfRenderer.kt:50-85 | a sequence of `renderPage` calls leaves the engine between operations, the document and its closed flag as they were, and never creates the cache directory |
| Renderer.RenderWithoutDirectory | kodex/src/main/java/fr/openium/kodex/KodexPdfRenderer.kt:34-41 | without the cache directory, a call that misses both tiers never returns a bitmap, and no call brings the directory back |
| Renderer.LostDirectoryServesNoNewPages | kodex/src/main/java/fr/openium/kodex/KodexPdfRenderer.kt:34-41 | once the cache directory is gone, every later call that misses both tiers returns null or throws, whatever the rasterizer and the disk do |
| Renderer.OneFailedWriteIsPermanent | kodex/src/main/java/fr/openium/kodex/KodexPdfRenderer.kt:34-41 | one failed first write on a miss makes that call return null and deletes the directory, and every later miss returns null too, however healthy the disk is afterwards |
| Viewport.Clamp | kodex/src/main/java/fr/openium/kodex/ui/Kodex.kt:126 | `coerceIn` returns a value inside the range, the input itself when it already is |
| Viewport.ClampIsNearest | kodex/src/main/java/fr/openium/kodex/ui/Kodex.kt:126 | the clamped value is the point of the range nearest to the input |
| Viewport.MaxOffsetNonNegative | kodex/src/main/java/fr/openium/kodex/ui/Kodex.kt:118-119 | at any scale of at least 1 the offset bound is non-negative, so the clamp range is never empty; it is 0 at scale 1 |
| Viewport.VerticalOverflowBounds | kodex/src/main/java/fr/openium/kodex/ui/Kodex.kt:265-266 | the padding is 0 at scale 1, non-negative, grows with the scale and stays below half the height |
| Viewport.OverflowClosedForm | kodex/src/main/java/fr/openium/kodex/ui/Kodex.kt:265-266 | the padding equals `h / 2 * (1 - 1 / scale)` |
| Viewport.InitialIsConsistent | kodex/src/main/java/fr/openium/kodex/ui/Kodex.kt:81-83 | the initial scale 1, offset 0 and padding 0 satisfy the bounds |
| Viewport.PinchScale | kodex/src/main/java/fr/openium/kodex/ui/Kodex.kt:121 | the new scale is in [1, 3], and is `scale * zoom` whenever that is |
| Viewport.ListUnder | kodex/src/main/java/fr/openium/kodex/ui/Kodex.kt:239-248 | the point of the list's content found at a height is drawn back at that height by the padded, scaled, scrolled list |
| Viewport.ListDrawnClosedForm | kodex/src/main/java/fr/openium/kodex/ui/Kodex.kt:239-248 | with the padding of `computeVerticalOverflow`, the padding cancels the layer's pivot: the list draws a point at the scale times its distance below the scrolled top |
| Viewport.ListPinch | kodex/src/main/java/fr/openium/kodex/ui/Kodex.kt:239-248 | a change of scale with a scroll by `d` draws the point that was at height `cy` at `target * (cy / scale - d)` |
| Viewport.FocalScroll | kodex/src/main/java/fr/openium/kodex/ui/Kodex.kt:150-156 | corrected scroll for a pinch frame: after the scale change, the point under the centroid is drawn at the centroid again; no scroll without a change of scale |
| Viewport.FocalScrollKeepsFocalPoint | kodex/src/main/java/fr/openium/kodex/ui/Kodex.kt:150-156 | a scroll keeps the point under the centroid exactly when it is `FocalScroll`, for any height and scroll position |
| Viewport.Under | kodex/src/main/java/fr/openium/kodex/ui/Kodex.kt:244-248 | the content point found at a screen position is drawn back at that position by the scaled, translated layer |
| Viewport.UnderDrawn | kodex/src/main/java/fr/openium/kodex/ui/Kodex.kt:244-248 | each content point is drawn at one place only: finding the point at where it is drawn gives it back |
| Viewport.PinchXWithoutZoom | kodex/src/main/java/fr/openium/kodex/ui/Kodex.kt:121-126 | without a change of scale, the horizontal target is the offset moved by the pan |
| Viewport.PinchXAboutCentre | kodex/src/main/java/fr/openium/kodex/ui/Kodex.kt:121-126 | about the view's centre, the horizontal target scales the offset by the scale change and adds the pan |
| Viewport.PinchXDrift | kodex/src/main/java/fr/openium/kodex/ui/Kodex.kt:121-126 | as written, the content point that was under the centroid is drawn off it (beyond the pan) by the centroid's distance from the centre times `(1 - target / scale) * (target - 1)` |
| Viewport.FocalPinchX | kodex/src/main/java/fr/openium/kodex/ui/Kodex.kt:121-126 | corrected horizontal target: the content point under the centroid stays under it, moved by the pan |
| Viewport.PinchDriftsAsWritten | kodex/src/main/java/fr/openium/kodex/ui/Kodex.kt:121-126 | a pinch from 2x to 3x, 25 pixels right of the centre of a 100-pixel view, draws the point under the fingers at the centre (offset -37.5), where -12.5 keeps it and is within bounds |
| Viewport.PinchYWithoutZoom | kodex/src/main/java/fr/openium/kodex/ui/Kodex.kt:121-130 | without a change of scale, the vertical target is the offset moved by the pan |
| Viewport.PinchYAboutCentre | kodex/src/main/java/fr/openium/kodex/ui/Kodex.kt:121-130 | about the view's centre, the vertical target scales the offset by the scale change and adds the pan |
| Viewport.PinchY | kodex/src/main/java/fr/openium/kodex/ui/Kodex.kt:128-130 | the vertical target stays within the bound of the frame's starting scale, and is the unclamped focal target whenever that is within it |
| Viewport.GestureFrameAsWritten | kodex/src/main/java/fr/openium/kodex/ui/Kodex.kt:116-164 | as written, the scale stays in [1, 3]; both offsets are within the bound of the starting scale; the padding matches the new scale; the list scrolls by minus the vertical offset's change exactly when the scale changed |
| Viewport.GestureOverrunsBoundAsWritten | kodex/src/main/java/fr/openium/kodex/ui/Kodex.kt:118-126 | a zoom-out frame from 3x to 1x leaves the horizontal offset at 100/3 where the new bound is 0 |
| Viewport.PinchYListDrift | kodex/src/main/java/fr/openium/kodex/ui/Kodex.kt:128-157 | as written, the content point that was under the centroid is drawn at `target * (cy / scale - d)` after the frame's scroll `d`, which is at the centroid exactly when `d` is `FocalScroll` |
| Viewport.PinchYDriftsAsWritten | kodex/src/main/java/fr/openium/kodex/ui/Kodex.kt:128-157 | a pinch from 2x to 3x at the bottom edge of a 100-pixel view scrolls by 25, drawing the point from the fingers at 100 at 75; keeping it needs 50/3 |
| Viewport.GestureFrame | kodex/src/main/java/fr/openium/kodex/ui/Kodex.kt:116-164 | the corrected frame uses the focal horizontal target, whenever it is within the new scale's bound, and keeps the offset within that bound; it scrolls by `FocalScroll` on the same frames as written; its view differs from the frame as written only in the horizontal offset |
| Viewport.GestureFrameKeepsFocalPoint | kodex/src/main/java/fr/openium/kodex/ui/Kodex.kt:116-164 | the corrected frame keeps the content point under the centroid under it vertically, at any scroll position, and horizontally, moved by the pan, whenever the bound allows |
| Viewport.StillFrameIsIdle | kodex/src/main/java/fr/openium/kodex/ui/Kodex.kt:116-164 | a frame with no zoom and no pan, from a state within bounds, changes nothing and does not scroll |
| Viewport.DoubleTapScale | kodex/src/main/java/fr/openium/kodex/ui/Kodex.kt:174 | the tap's target is 1 or 2, within [1, 3], and it is 1 exactly when the view was zoomed in |
| Viewport.DoubleTapAsWritten | kodex/src/main/java/fr/openium/kodex/ui/Kodex.kt:171-187 | zooming out resets the offset to 0 and scrolls back by minus the remembered scroll; zooming in sets the offset to minus twice the tap's distance from the centre and the scroll to the tap's vertical distance from the centre plus the new padding; the padding matches the new scale; the list scrolls by the new target |
| Viewport.DoubleTapCentresTappedPoint | kodex/src/main/java/fr/openium/kodex/ui/Kodex.kt:174-182 | zooming in from the unzoomed view draws the tapped content point at the view's horizontal centre and, through the list's scroll, at its vertical middle (half a pixel higher on an odd height) |
| Viewport.DoubleTapOverrunsBoundAsWritten | kodex/src/main/java/fr/openium/kodex/ui/Kodex.kt:178-182 | a tap at the right edge of a 100-pixel view zooms to 2x with offset -100 where the bound is 50 |
| Viewport.DoubleTap | kodex/src/main/java/fr/openium/kodex/ui/Kodex.kt:171-187 | the corrected double tap keeps the offset within the new scale's bound, and equals the tap as written whenever that one is within it |
| Viewport.DoubleTapTwiceRestores | kodex/src/main/java/fr/openium/kodex/ui/Kodex.kt:171-187 | two double taps from scale 1 come back to scale 1 with offset and padding 0, and their scrolls cancel |
| Viewport.Handle | kodex/src/main/java/fr/openium/kodex/ui/Kodex.kt:113-233 | with the corrected handlers, a pinch frame or a double tap keeps the scale in [1, 3] and the content's edge out of view |
| Viewport.Replay | kodex/src/main/java/fr/openium/kodex/ui/Kodex.kt:109-234 | with the corrected handlers, after any sequence of pinch frames and double taps the scale is in [1, 3], and the bounds hold |
| Viewport.HandleAsWritten | kodex/src/main/java/fr/openium/kodex/ui/Kodex.kt:113-233 | as written, a pinch frame or a double tap keeps the scale in [1, 3] and the padding matching it |
| Viewport.ReplayAsWritten | kodex/src/main/java/fr/openium/kodex/ui/Kodex.kt:109-234 | as written, after any sequence of pinch frames and double taps the scale is in [1, 3], and after at least one the padding matches the scale |
| Viewport.HandlersAgreeOffOffsetX | kodex/src/main/java/fr/openium/kodex/ui/Kodex.kt:113-233 | from views that differ at most in the horizontal offset, the handlers as written and as corrected give views that differ only there, scroll on the same frames, and scroll by the same amount on a double tap |
| Viewport.CorrectedReplayOnlyMovesOffsetX | kodex/src/main/java/fr/openium/kodex/ui/Kodex.kt:109-234 | over any sequence of inputs, the corrected replay differs from the replay as written only in the horizontal offset |
| TouchSlop.Step | kodex/src/main/java/fr/openium/kodex/ui/Kodex.kt:283-317 | before the slop, zoom multiplies and rotation and pan add up; past it nothing accumulates; a callback fires exactly past the slop on a frame that changes rotation, zoom or pan, carrying that frame's changes |
| TouchSlop.StepCrossesSlop | kodex/src/main/java/fr/openium/kodex/ui/Kodex.kt:288-304 | an event crosses the slop exactly when the accumulated zoom, rotation or pan motion exceeds the slop |
| TouchSlop.PastSlopIsSticky | kodex/src/main/java/fr/openium/kodex/ui/Kodex.kt:288-305 | once past the slop, the flag stays set and the accumulators stay frozen for the rest of the gesture |
| TouchSlop.ZoomBeforeSlop | kodex/src/main/java/fr/openium/kodex/ui/Kodex.kt:289 | until the slop is crossed, the accumulated zoom is the product of the zoom changes |
| TouchSlop.RotationBeforeSlop | kodex/src/main/java/fr/openium/kodex/ui/Kodex.kt:290 | until the slop is crossed, the accumulated rotation is the sum of the rotation changes |
| TouchSlop.PanBeforeSlop | kodex/src/main/java/fr/openium/kodex/ui/Kodex.kt:291 | until the slop is crossed, the accumulated pan is the sum of the pan changes and nothing is locked |
| TouchSlop.Run | kodex/src/main/java/fr/openium/kodex/ui/Kodex.kt:282-318 | the gesture consumes events up to and including the first with no pointer pressed, and notifies at most once per event |
| TouchSlop.NoLockNeverLocks | kodex/src/main/java/fr/openium/kodex/ui/Kodex.kt:270-303 | with `panZoomLock = false` the detector never locks, so rotation is never zeroed |
| TouchSlop.WithinSlopIsSilent | kodex/src/main/java/fr/openium/kodex/ui/Kodex.kt:307-317 | a gesture that never leaves the slop notifies nothing |
| TouchSlop.RunSilentPrefix | kodex/src/main/java/fr/openium/kodex/ui/Kodex.kt:282-318 | from any state, events that keep the gesture within the slop notify nothing |
| TouchSlop.Drive | kodex/src/main/java/fr/openium/kodex/ui/Kodex.kt:115-164 | feeding a gesture's notices to the corrected pinch handler keeps the scale in range and the bounds |
| InputResolution.Join | kodex/src/main/java/fr/openium/kodex/ext/AnyExt.kt:36 | joining one segment gives that segment |
| InputResolution.JoinSplitRoundTrip | kodex/src/main/java/fr/openium/kodex/ext/AnyExt.kt:36 | joining slash-free segments with "/" and splitting on "/" gives the segments back |
| InputResolution.AssetPathRoundTrip | kodex/src/main/java/fr/openium/kodex/ext/AnyExt.kt:33-36 | the asset path names exactly the segments after the marker |
| InputResolution.CopyContent | kodex/src/main/java/fr/openium/kodex/ext/AnyExt.kt:16-30 | a content URI gives a fresh temporary file, empty when the resolver has no stream; any exception deletes the file and propagates; no file is left behind unless returned |
| InputResolution.CopyAsset | kodex/src/main/java/fr/openium/kodex/ext/AnyExt.kt:34-51 | a bundled asset is copied into a fresh temporary file; any exception deletes it and propagates |
| InputResolution.ResolveUri | kodex/src/main/java/fr/openium/kodex/ext/AnyExt.kt:14-63 | content URIs are copied; a file URI under the marker copies the asset at the joined path; any other file URI gives its path, or null without one; any other scheme gives `File(uri.toString())`; only the copies throw |
| InputResolution.AsFile | kodex/src/main/java/fr/openium/kodex/ext/AnyExt.kt:10-72 | a `File` is returned unchanged, null and unsupported inputs give null, URIs and strings go through the scheme dispatch, and no call leaves a stray temporary file |
| InputResolution.StringResolvesAsParsedUri | kodex/src/main/java/fr/openium/kodex/ext/AnyExt.kt:65-69 | a string resolves exactly as the URI it parses to |
| InputResolution.OnlyCopiesMakeTempFiles | kodex/src/main/java/fr/openium/kodex/ext/AnyExt.kt:10-72 | a temporary file or an exception comes only from a content URI or a file URI under the asset marker |

## Left out

- Rasterization, bitmap pixel data, JPEG compression and `BitmapFactory` decoding are platform code. A bitmap is its width, its height and an opaque description of its pixels, and rendering succeeds or throws as a parameter says.
- `synchronized`, `ConcurrentHashMap`, coroutines, `Dispatchers.IO`, and the launching and joining of animation jobs are concurrency plumbing. Every operation is one sequential transition.
- Animation timing and easing, `snapTo` and `animateTo`, and the mechanics of `LazyColumn` scrolling are UI runtime. The handlers' target values are modelled. A handler's result is the state once its animations finish.
- IEEE single-precision rounding is not modelled: gesture and aspect-ratio arithmetic is over reals, with the infinities and NaN a zero page side produces kept (`Renderer.Float`). `PI.toFloat()` is written out exactly.
- `createBitmap` is taken to succeed whenever the buffer fits the 2 GiB limit: running out of heap below that limit is not modelled.
- CacheManager.WriteFile: a failing `FileOutputStream` constructor creates no file, while the model leaves an unreadable one; both read back as no bitmap, so no read can tell them apart. A `compress` that returns false may leave a truncated JPEG that still decodes to part of the page; the model reads every such file back as nothing.
- Creating, copying and deleting temporary files, `openInputStream` and `assets.open` are I/O. Each is reduced to whether it throws, and to how many temporary files remain.
- `Uri.parse` is a library call, so it is a parameter.
- The bundled-asset marker `SCHEME_ASSETS` is declared outside the modelled files, so its value is a parameter.
- `Log.e` calls have no effect on state.
- The `Kodex` composable's layout, `DisposableEffect` loading, `onPageChanged` and `KodexPage` are Compose UI. The pointer-input scope's size is an input.
- `getBitmapFromMemoryCache` and `withPdfPage` are one-line delegations. They are modelled inside `Renderer.RenderPage` and `Renderer.GetPageDimensions`.
- When creating the memory tier throws in the constructor, the already-open `PdfRenderer` is not closed. `Renderer.Open` returns only the error and does not model the leaked session.
- Viewport.PinchX and Viewport.PinchYTarget carry no contract of their own. Their values are stated by `Viewport.PinchXWithoutZoom`, `Viewport.PinchXAboutCentre`, `Viewport.PinchXDrift`, `Viewport.PinchYWithoutZoom`, `Viewport.PinchYAboutCentre` and `Viewport.PinchYListDrift`.
- Viewport.ListDrawn takes the list to fill the view's height, with no `contentPadding`, and places the layer's pivot at the exact middle of the padded list. The list's own scrolling is left out: the vertical drag it performs on the same unconsumed pointer events, and the clamping of `scrollBy` at either end of the content.
- Viewport.GestureFrame keeps `offsetY` clamped with the starting scale's bound, as written (Kodex.kt:119,130). That variable only sizes the scroll as written, and the list's own scroll range, which is left out, bounds what can be shown. The corrected frame no longer scrolls by it.
- TouchSlop.BeyondSlop carries no contract of its own. What it computes is stated through `TouchSlop.StepCrossesSlop`.
- Viewport.Drawn measures positions from `size.width / 2` in integer division, as the handlers do. The layer's pivot is the exact half, half a pixel to the right on an odd width.
- The model has one renderer per process. `CACHE_PATH` is one directory for all renderers, and files are named by page number only. A second live renderer's constructor would wipe and re-create the first one's directory. It could also write another document's page where the first reads it, and its teardown would delete the first one's disk tier.
- Renderer.AddBitmapToMemoryCache: the corrected wipe's `mkdirs` is taken to succeed, because that definition states what the retry was meant to achieve.
- `deleteRecursively` is taken to succeed: a directory that cannot be deleted is not modelled.
- TouchSlop.Run does not state the notices it returns in closed form. `TouchSlop.Step` states when one event notifies, and `TouchSlop.WithinSlopIsSilent` states the silent case.

## Findings

| source | as written | input that shows it | evidently intended | confidence | as-written member | corrected member |
|---|---|---|---|---|---|---|
| kodex/src/main/java/fr/openium/kodex/KodexPdfRenderer.kt:34-41 | after a failed write, `clearDirectoryCache` deletes the cache directory and does not create it again, so the single retry cannot open its file and throws too; `renderPage` returns null, and every later miss does too until teardown (`Renderer.OneFailedWriteIsPermanent`) | a cache whose directory exists, a first write whose stream throws (`FileNotFoundException` or `IOException`), and a healthy file system on the retry | the wipe re-creates the directory, as `initCache` does, so the retry can store the page | medium, not executed | Renderer.RetryAfterWipeFailsAsWritten | Renderer.RetryAfterWipeSucceeds |
| kodex/src/main/java/fr/openium/kodex/ui/Kodex.kt:178-182 | the zoom-in offset `-(tap.x - width / 2) * 2` is not clamped | width 100, scale 1, double tap at x = 100: offset -100 at scale 2, where the bound is 50 | the offset is clamped to the bound at the new scale, as the pinch handler clamps its offset | high, not executed | Viewport.DoubleTapOverrunsBoundAsWritten | Viewport.DoubleTap |
| kodex/src/main/java/fr/openium/kodex/ui/Kodex.kt:118-126 | the horizontal offset is clamped with the bound of the scale the frame started from, not the scale it ends at | size 100x100, scale 3, offset 100, zoom 1/3 about (50, 50), no pan: scale 1 and offset 100/3, where the bound is 0 | the clamp uses the bound of the new scale | medium, not executed (the next frame clamps again) | Viewport.GestureOverrunsBoundAsWritten | Viewport.GestureFrame |
| kodex/src/main/java/fr/openium/kodex/ui/Kodex.kt:124-126 | the centroid's horizontal distance from the centre is multiplied by the target scale before the focal adjustment, so an off-centre pinch moves the content under the fingers | size 100x100, scale 2, offset 0, zoom 1.5 about (75, 50), no pan: offset -37.5, which draws the content point that was under the fingers at x = 50 | the content point under the fingers stays there, the focal point a pinch zooms about (offset -12.5, within the bound at 3x) | medium, not executed | Viewport.PinchDriftsAsWritten | Viewport.FocalPinchX |
| kodex/src/main/java/fr/openium/kodex/ui/Kodex.kt:128-157 | the list scrolls by the change of a vertical offset computed with the translation formula, while the list is padded, scaled about the view's middle and scrolled in unscaled pixels, so the content under the fingers drifts vertically | size 100x100, scale 2, `offsetY` 0, zoom 1.5 about (50, 100), no pan: the list scrolls by 25, and the content point drawn at 100 is drawn at 75 afterwards | the content point under the fingers stays there: a scroll of `cy / scale - cy / target`, 50/3 here | medium, not executed (the reading of the list's layout is the model's) | Viewport.PinchYDriftsAsWritten | Viewport.FocalScroll |
