/** The two-tier bitmap cache (`CacheManager`): an LRU memory tier bounded by
    a KiB budget, and a disk tier holding one JPEG file per page, named by the
    page number, inside the directory `kodex_cache_dir`. */
module CacheManager {
  import opened Results
  import opened Bitmaps
  import FileNames
  import Lru

  /** The memory tier gets one eighth of the heap the process may use. */
  const MemoryFraction: int := 8

  /** A file of the disk tier. A write that fails after `FileOutputStream`
      created the file leaves it empty or truncated, which
      `BitmapFactory.decodeFile` cannot decode. */
  datatype DiskFile = JpegFile(width: nat, height: nat, quality: int, pixels: Pixels) | Unreadable

  /** The cache directory: whether it exists, and its files by name. */
  datatype Disk = Disk(present: bool, files: map<string, DiskFile>)

  datatype Cache = Cache(memory: Lru.Lru, disk: Disk)

  /** What the file system does with one write of the disk tier: the JPEG
      goes through; `Bitmap.compress` reports a failure (a full disk, for
      instance) by returning false, which the write ignores; or opening or
      writing the stream throws (`FileNotFoundException`, `IOException`). */
  datatype WriteFault = Healthy | CompressFails | Throws

  /** The outcome of an operation that may throw after changing the cache. */
  datatype Effect = Effect(cache: Cache, out: Result<()>)

  predicate DiskValid(d: Disk) {
    !d.present ==> d.files == map[]
  }

  predicate Valid(c: Cache) {
    Lru.Valid(c.memory) && DiskValid(c.disk)
  }

  /** Kotlin's `Long.toInt()`: the low 32 bits read as two's complement. */
  function ToInt32(x: int): (r: int)
    ensures -0x8000_0000 <= r < 0x8000_0000
    ensures (x - r) % 0x1_0000_0000 == 0
    ensures -0x8000_0000 <= x < 0x8000_0000 ==> r == x
  {
    var m := x % 0x1_0000_0000;
    if m >= 0x8000_0000 then m - 0x1_0000_0000 else m
  }

  /** Kotlin's `Int / Int`, which truncates toward zero: the quotient has
      the dividend's sign and leaves a remainder of that sign smaller than
      the divisor. */
  function DivTrunc(a: int, b: int): (q: int)
    requires b > 0
    ensures a >= 0 ==> q >= 0 && 0 <= a - q * b < b
    ensures a <= 0 ==> q <= 0 && -b < a - q * b <= 0
  {
    if a >= 0 then a / b else -((-a) / b)
  }

  /** Truncating division is odd in the dividend: negating it negates the
      quotient, which Euclidean division does not do. */
  lemma DivTruncIsOdd(a: int, b: int)
    requires b > 0
    ensures DivTrunc(-a, b) == -DivTrunc(a, b)
  {
  }

  /** `(maxMemory / 1024).toInt() / 8`: the budget in KiB for a heap limit of
      `maxMemory` bytes. */
  function MemoryBudget(maxMemory: nat): int {
    DivTrunc(ToInt32(maxMemory / 1024), MemoryFraction)
  }

  /** For every heap limit below 2 TiB the budget is one eighth of the limit
      in KiB, and it is positive from 8 KiB on. */
  lemma MemoryBudgetIsOneEighth(maxMemory: nat)
    requires maxMemory < 0x8000_0000 * 1024
    ensures MemoryBudget(maxMemory) == maxMemory / 1024 / 8
    ensures maxMemory >= 8 * 1024 ==> MemoryBudget(maxMemory) > 0
  {
  }

  /** A JVM without a heap limit reports `Long.MAX_VALUE`; the conversion to
      Int then wraps to -1 and the budget becomes 0, which `LruCache` refuses. */
  lemma UnboundedHeapHasNoBudget()
    ensures MemoryBudget(0x7FFF_FFFF_FFFF_FFFF) == 0
    ensures CreateMemoryCache(0x7FFF_FFFF_FFFF_FFFF) == Err(CacheBudgetNotPositive)
  {
    assert 0x7FFF_FFFF_FFFF_FFFF / 1024 == 0x1F_FFFF_FFFF_FFFF;
    assert ToInt32(0x1F_FFFF_FFFF_FFFF) == -1;
  }

  /** `createMemoryCache`: an empty LRU whose budget is `MemoryBudget`. */
  function CreateMemoryCache(maxMemory: nat): (r: Result<Lru.Lru>)
    ensures r.Ok? <==> MemoryBudget(maxMemory) > 0
    ensures r.Ok? ==> Lru.Valid(r.value) && r.value.order == [] && r.value.maxSize == MemoryBudget(maxMemory)
    ensures r.Err? ==> r.error == CacheBudgetNotPositive
  {
    Lru.Create(MemoryBudget(maxMemory))
  }

  /** The constructor: build the memory tier, then create the directory if it
      is missing (files of an earlier session are kept until `InitCache`).
      `mkdirs` says whether creating the directory succeeds; the source
      ignores the result, so a failure leaves the cache without one. */
  function NewCacheManager(maxMemory: nat, disk: Disk, mkdirs: bool): (r: Result<Cache>)
    requires DiskValid(disk)
    ensures r.Ok? <==> MemoryBudget(maxMemory) > 0
    ensures r.Ok? ==> Valid(r.value) && r.value.memory.order == []
    ensures r.Ok? ==> (r.value.disk.present <==> disk.present || mkdirs)
    ensures r.Ok? && disk.present ==> r.value.disk == disk
  {
    match CreateMemoryCache(maxMemory)
    case Err(e) => Err(e)
    case Ok(memory) => Ok(Cache(memory, if disk.present then disk else Disk(mkdirs, map[])))
  }

  /** `initCache`: delete the directory recursively and create it again;
      `mkdirs` says whether the creation succeeds, which the source does not
      check. */
  function InitCache(c: Cache, mkdirs: bool): (r: Cache)
    requires Valid(c)
    ensures Valid(r) && r.memory == c.memory
    ensures r.disk.files == map[] && (r.disk.present <==> mkdirs)
  {
    c.(disk := Disk(mkdirs, map[]))
  }

  /** The name of the file caching page `pageNo`. */
  function FileFor(pageNo: int): string {
    FileNames.IntToString(pageNo)
  }

  /** What reading back a JPEG of `b` at `quality` yields: same dimensions,
      lossy pixels. */
  function JpegRendition(b: Bitmap, quality: int): Bitmap {
    Bitmap(b.width, b.height, Jpeg(b.pixels, quality))
  }

  /** `Bitmap.compress(JPEG, quality, ...)` as stored on disk. */
  function Encode(b: Bitmap, quality: int): DiskFile {
    JpegFile(b.width, b.height, quality, b.pixels)
  }

  /** `BitmapFactory.decodeFile`: null for a file it cannot read. */
  function DecodeFile(f: DiskFile): (r: Option<Bitmap>)
    ensures f.Unreadable? <==> r.None?
  {
    match f
    case Unreadable => None
    case JpegFile(w, h, q, px) => Some(Bitmap(w, h, Jpeg(px, q)))
  }

  /** Decoding what `Encode` wrote gives a bitmap of the same dimensions whose
      pixels are the JPEG rendition of the original's at that quality. */
  lemma EncodeDecodeRoundTrip(b: Bitmap, quality: int)
    ensures DecodeFile(Encode(b, quality)) == Some(JpegRendition(b, quality))
  {
  }

  /** `decodeBitmapFromDiskCache`: null when the page has no file. */
  function DecodeBitmapFromDiskCache(d: Disk, pageNo: int): (r: Option<Bitmap>)
    ensures FileFor(pageNo) !in d.files ==> r.None?
    ensures FileFor(pageNo) in d.files ==> r == DecodeFile(d.files[FileFor(pageNo)])
  {
    var name := FileFor(pageNo);
    if name in d.files then DecodeFile(d.files[name]) else None
  }

  /** `getBitmapFromCache`: the memory tier first (a hit refreshes recency and
      the disk is not consulted), then the disk tier. A disk hit is returned
      without being put into the memory tier. */
  function GetBitmapFromCache(c: Cache, pageNo: int): (r: (Option<Bitmap>, Cache))
    requires Valid(c)
    ensures Valid(r.1) && r.1.disk == c.disk && r.1.memory.entries == c.memory.entries
    ensures pageNo in c.memory.entries ==> r.0 == Some(c.memory.entries[pageNo])
    ensures pageNo in c.memory.entries ==> r.1.memory.order[|r.1.memory.order| - 1] == pageNo
    ensures pageNo !in c.memory.entries ==> r.1 == c && r.0 == DecodeBitmapFromDiskCache(c.disk, pageNo)
  {
    var (hit, memory) := Lru.Get(c.memory, pageNo);
    if hit.Some? then (hit, c.(memory := memory))
    else (DecodeBitmapFromDiskCache(c.disk, pageNo), c)
  }

  /** Opening `FileOutputStream` and compressing into it. The stream creates
      the file first, so a later failure leaves an unreadable file behind,
      whether `compress` throws or returns false; only a throw reaches the
      caller. */
  function WriteFile(d: Disk, pageNo: int, b: Bitmap, quality: int, fault: WriteFault): (r: (Disk, Result<()>))
    requires DiskValid(d)
    ensures DiskValid(r.0) && r.0.present == d.present
    ensures r.1.Ok? <==> d.present && 0 <= quality <= 100 && !fault.Throws?
    ensures !d.present ==> r == (d, Err(CacheDirMissing))
    ensures d.present ==> r.0.files == d.files[FileFor(pageNo) := if r.1.Ok? && fault.Healthy? then Encode(b, quality) else Unreadable]
  {
    if !d.present then (d, Err(CacheDirMissing))
    else if !(0 <= quality <= 100) then (d.(files := d.files[FileFor(pageNo) := Unreadable]), Err(BadQuality))
    else if fault.Throws? then (d.(files := d.files[FileFor(pageNo) := Unreadable]), Err(DiskWriteFailed))
    else if fault.CompressFails? then (d.(files := d.files[FileFor(pageNo) := Unreadable]), Ok(()))
    else (d.(files := d.files[FileFor(pageNo) := Encode(b, quality)]), Ok(()))
  }

  /** `addBitmapToCache`: the memory insert happens before the disk write, so
      it stands even when the write throws. A `compress` that returns false
      goes unnoticed: the call completes and the page does not read back. */
  function AddBitmapToCache(c: Cache, pageNo: int, b: Bitmap, quality: int, fault: WriteFault): (r: Effect)
    requires Valid(c)
    ensures Valid(r.cache) && r.cache.memory.maxSize == c.memory.maxSize
    ensures pageNo in r.cache.memory.entries <==> SizeOf(b) <= c.memory.maxSize
    ensures pageNo in r.cache.memory.entries ==> r.cache.memory.entries[pageNo] == b
    ensures forall q :: q in r.cache.memory.entries && q != pageNo ==> q in c.memory.entries && r.cache.memory.entries[q] == c.memory.entries[q]
    ensures r.out.Ok? <==> c.disk.present && 0 <= quality <= 100 && !fault.Throws?
    ensures r.out.Ok? && fault.Healthy? ==> DecodeBitmapFromDiskCache(r.cache.disk, pageNo) == Some(JpegRendition(b, quality))
    ensures !(r.out.Ok? && fault.Healthy?) ==> DecodeBitmapFromDiskCache(r.cache.disk, pageNo).None?
    ensures forall q :: q != pageNo ==> DecodeBitmapFromDiskCache(r.cache.disk, q) == DecodeBitmapFromDiskCache(c.disk, q)
  {
    var memory := Lru.Put(c.memory, pageNo, b);
    var (disk, out) := WriteFile(c.disk, pageNo, b, quality, fault);
    OtherPagesUntouched(c.disk, disk, pageNo);
    Effect(Cache(memory, disk), out)
  }

  /** Writing page `p`'s file does not change what any other page reads back,
      since distinct pages have distinct file names. */
  lemma OtherPagesUntouched(before: Disk, after: Disk, p: int)
    requires DiskValid(before) && DiskValid(after)
    requires before.present ==> FileFor(p) in after.files && after.files == before.files[FileFor(p) := after.files[FileFor(p)]]
    requires !before.present ==> after == before
    ensures forall q :: q != p ==> DecodeBitmapFromDiskCache(after, q) == DecodeBitmapFromDiskCache(before, q)
  {
    forall q | q != p
      ensures DecodeBitmapFromDiskCache(after, q) == DecodeBitmapFromDiskCache(before, q)
    {
      FileNames.FileNameInjective(p, q);
    }
  }

  /** `clearCache`: evict the whole memory tier and delete the directory. */
  function ClearCache(c: Cache): (r: Cache)
    requires Valid(c)
    ensures Valid(r) && r.memory.entries == map[] && r.memory.maxSize == c.memory.maxSize
    ensures !r.disk.present
    ensures forall p :: GetBitmapFromCache(r, p).0.None?
  {
    Cache(Lru.EvictAll(c.memory), Disk(false, map[]))
  }

  /** `clearDirectoryCache`: delete the directory (it is not created again);
      the memory tier is left as it is. */
  function ClearDirectoryCache(c: Cache): (r: Cache)
    requires Valid(c)
    ensures Valid(r) && r.memory == c.memory && !r.disk.present
    ensures forall p :: DecodeBitmapFromDiskCache(r.disk, p).None?
  {
    c.(disk := Disk(false, map[]))
  }

  /** Put then get of the same page: the memory tier returns the very bitmap
      when it fits the budget; otherwise the disk tier returns its JPEG
      rendition if the write went through, and nothing if it threw or
      `compress` failed. */
  lemma AddThenGet(c: Cache, pageNo: int, b: Bitmap, quality: int, fault: WriteFault)
    requires Valid(c)
    ensures var e := AddBitmapToCache(c, pageNo, b, quality, fault);
            GetBitmapFromCache(e.cache, pageNo).0 ==
              if SizeOf(b) <= c.memory.maxSize then Some(b)
              else if e.out.Ok? && fault.Healthy? then Some(JpegRendition(b, quality))
              else None
  {
  }
}
