/** Outcome types shared by the cache, decoder and renderer modules.
    The Kotlin code signals failure either by returning null or by throwing;
    `Option` models the nullable returns and `Result` the exceptions. */
module Results {

  datatype Option<+T> = None | Some(value: T)

  /** The exceptions the modelled core can raise or catch. */
  datatype Failure =
    | InvalidDocument          // PdfRenderer(fd) rejects the byte source
    | RendererClosed           // decoder used after close (IllegalStateException)
    | PageAlreadyOpen          // decoder asked to open a second page (IllegalStateException)
    | PageNotInDocument        // page index outside [0, pageCount) (IllegalArgumentException)
    | PageAlreadyClosed        // Page.close on a closed page (IllegalStateException)
    | InvalidBitmapSize        // Bitmap.createBitmap with a non-positive dimension
    | BitmapTooLarge           // Bitmap.createBitmap whose byte size does not fit an Int (OutOfMemoryError)
    | CacheBudgetNotPositive   // LruCache constructed with maxSize <= 0
    | CacheDirMissing          // FileOutputStream in a directory that does not exist
    | BadQuality               // Bitmap.compress with a quality outside 0..100
    | DiskWriteFailed          // any other I/O failure while writing the JPEG
    | CopyFailed               // copying a content or asset stream threw

  datatype Result<+T> = Ok(value: T) | Err(error: Failure)
}
