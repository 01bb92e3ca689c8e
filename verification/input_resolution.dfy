/** How the viewer turns the `data` it is given into a readable file
    (`Context.asFile`): a dispatch on the input's kind and, for URIs, on the
    scheme. Content and bundled-asset URIs are copied into a fresh temporary
    file; the copying is abstracted to whether each step of it throws. URI
    parsing is a parameter, and so is the first path segment that marks a
    bundled asset. */
module InputResolution {
  import opened Results

  const SchemeContent: string := "content"
  const SchemeFile: string := "file"
  const Slash: char := '/'

  /** The parts of `android.net.Uri` the dispatch reads; `text` is its
      `toString()`. */
  datatype Uri = Uri(scheme: Option<string>, pathSegments: seq<string>, path: Option<string>, text: string)

  /** The `data` argument, by runtime type. */
  datatype Input = FileInput(path: string) | UriInput(uri: Uri) | StringInput(text: string) | OtherInput | NullInput

  /** What was copied into a temporary file. */
  datatype Source = ContentOf(uri: Uri) | NothingCopied | AssetAt(path: string)

  /** The file handed back: an existing path, or a temporary file created
      with the given name prefix and filled from `source`. */
  datatype FileRef = AtPath(path: string) | TempFile(prefix: string, source: Source)

  /** `openInputStream` either throws, returns null, or returns a stream
      whose copy may throw. */
  datatype Stream = OpenThrows | NullStream | Opened(copyThrows: bool)

  /** The outcome of every I/O step the dispatch may take. */
  datatype Io = Io(createTempThrows: bool, content: Stream, assetThrows: bool)

  /** The call's result and how many temporary files it leaves on disk. */
  datatype Resolved = Resolved(out: Result<Option<FileRef>>, tempFilesLeft: nat)

  /** A call leaves a temporary file behind exactly when it returns one. */
  predicate NoLeak(r: Resolved) {
    r.tempFilesLeft == (if r.out.Ok? && r.out.value.Some? && r.out.value.value.TempFile? then 1 else 0)
  }

  /** `joinToString("/")`. */
  function Join(segments: seq<string>): (s: string)
    ensures |segments| == 1 ==> s == segments[0]
    decreases |segments|
  {
    if |segments| == 0 then ""
    else if |segments| == 1 then segments[0]
    else segments[0] + [Slash] + Join(segments[1..])
  }

  /** Splitting on '/', keeping empty pieces: the partner of `Join`. */
  function Split(s: string): (pieces: seq<string>)
    ensures |pieces| >= 1
    decreases |s|
  {
    if |s| == 0 then [""]
    else
      var rest := Split(s[1..]);
      if s[0] == Slash then [""] + rest
      else [[s[0]] + rest[0]] + rest[1..]
  }

  predicate SlashFree(segment: string) {
    forall i :: 0 <= i < |segment| ==> segment[i] != Slash
  }

  /** A segment without slashes splits to itself, with `tail` after it. */
  lemma {:induction false} SplitSegment(segment: string, tail: string)
    requires SlashFree(segment)
    ensures Split(segment + [Slash] + tail) == [segment] + Split(tail)
    ensures Split(segment) == [segment]
    decreases |segment|
  {
    if |segment| == 0 {
      assert segment + [Slash] + tail == [Slash] + tail;
      assert ([Slash] + tail)[1..] == tail;
    } else {
      var rest := segment[1..];
      SplitSegment(rest, tail);
      assert (segment + [Slash] + tail)[1..] == rest + [Slash] + tail;
      assert segment == [segment[0]] + rest;
    }
  }

  /** Joining slash-free segments and splitting the result gives the
      segments back. */
  lemma {:induction false} JoinSplitRoundTrip(segments: seq<string>)
    requires |segments| >= 1
    requires forall i :: 0 <= i < |segments| ==> SlashFree(segments[i])
    ensures Split(Join(segments)) == segments
    decreases |segments|
  {
    if |segments| == 1 {
      SplitSegment(segments[0], "");
    } else {
      JoinSplitRoundTrip(segments[1..]);
      SplitSegment(segments[0], Join(segments[1..]));
      assert segments == [segments[0]] + segments[1..];
    }
  }

  /** The asset path of a `file:///<marker>/...` URI: the segments after the
      marker, joined by '/'. */
  function AssetPath(u: Uri): string
    requires |u.pathSegments| >= 1
  {
    Join(u.pathSegments[1..])
  }

  /** The asset path names exactly the segments after the marker: splitting
      it on '/' gives them back. */
  lemma AssetPathRoundTrip(u: Uri)
    requires |u.pathSegments| >= 2
    requires forall i :: 1 <= i < |u.pathSegments| ==> SlashFree(u.pathSegments[i])
    ensures Split(AssetPath(u)) == u.pathSegments[1..]
  {
    JoinSplitRoundTrip(u.pathSegments[1..]);
  }

  /** The `content` branch: a temporary file, filled from the resolver's
      stream when there is one; any exception deletes it and propagates. */
  function CopyContent(u: Uri, io: Io): (r: Resolved)
    ensures NoLeak(r)
    ensures r.out.Ok? <==> !io.createTempThrows && (io.content.NullStream? || io.content == Opened(false))
    ensures r.out.Ok? ==> r.out.value == Some(TempFile("tmp_content", if io.content.NullStream? then NothingCopied else ContentOf(u)))
    ensures r.out.Err? ==> r.out.error == CopyFailed
  {
    if io.createTempThrows then Resolved(Err(CopyFailed), 0)
    else
      match io.content
      case OpenThrows => Resolved(Err(CopyFailed), 0)
      case NullStream => Resolved(Ok(Some(TempFile("tmp_content", NothingCopied))), 1)
      case Opened(copyThrows) =>
        if copyThrows then Resolved(Err(CopyFailed), 0)
        else Resolved(Ok(Some(TempFile("tmp_content", ContentOf(u)))), 1)
  }

  /** The bundled-asset branch: the same copy, from the asset manager. */
  function CopyAsset(path: string, io: Io): (r: Resolved)
    ensures NoLeak(r)
    ensures r.out.Ok? <==> !io.createTempThrows && !io.assetThrows
    ensures r.out.Ok? ==> r.out.value == Some(TempFile("tmp_asset", AssetAt(path)))
    ensures r.out.Err? ==> r.out.error == CopyFailed
  {
    if io.createTempThrows || io.assetThrows then Resolved(Err(CopyFailed), 0)
    else Resolved(Ok(Some(TempFile("tmp_asset", AssetAt(path)))), 1)
  }

  /** The `is Uri` branch. */
  function ResolveUri(u: Uri, marker: string, io: Io): (r: Resolved)
    ensures NoLeak(r)
    ensures r.out.Err? ==> r.out.error == CopyFailed && (u.scheme == Some(SchemeContent) || u.scheme == Some(SchemeFile))
    ensures u.scheme != Some(SchemeContent) && u.scheme != Some(SchemeFile) ==> r == Resolved(Ok(Some(AtPath(u.text))), 0)
    ensures u.scheme == Some(SchemeFile) && (|u.pathSegments| == 0 || u.pathSegments[0] != marker) ==>
              r.out == Ok(if u.path.Some? then Some(AtPath(u.path.value)) else None)
    ensures u.scheme == Some(SchemeFile) && |u.pathSegments| >= 1 && u.pathSegments[0] == marker ==>
              r == CopyAsset(AssetPath(u), io)
    ensures u.scheme == Some(SchemeContent) ==> r == CopyContent(u, io)
  {
    if u.scheme == Some(SchemeContent) then CopyContent(u, io)
    else if u.scheme == Some(SchemeFile) then
      if |u.pathSegments| >= 1 && u.pathSegments[0] == marker then CopyAsset(AssetPath(u), io)
      else Resolved(Ok(if u.path.Some? then Some(AtPath(u.path.value)) else None), 0)
    else Resolved(Ok(Some(AtPath(u.text))), 0)
  }

  /** `Context.asFile(data)`. */
  function AsFile(data: Input, marker: string, parse: string -> Uri, io: Io): (r: Resolved)
    ensures NoLeak(r)
    ensures data.FileInput? ==> r == Resolved(Ok(Some(AtPath(data.path))), 0)
    ensures data.OtherInput? || data.NullInput? ==> r == Resolved(Ok(None), 0)
    ensures data.UriInput? ==> r == ResolveUri(data.uri, marker, io)
    ensures data.StringInput? ==> r == ResolveUri(parse(data.text), marker, io)
    ensures r.out.Err? ==> r.out.error == CopyFailed && (data.UriInput? || data.StringInput?)
  {
    match data
    case FileInput(path) => Resolved(Ok(Some(AtPath(path))), 0)
    case UriInput(u) => ResolveUri(u, marker, io)
    case StringInput(text) => ResolveUri(parse(text), marker, io)
    case OtherInput => Resolved(Ok(None), 0)
    case NullInput => Resolved(Ok(None), 0)
  }

  /** A string resolves exactly as the URI it parses to. */
  lemma StringResolvesAsParsedUri(text: string, marker: string, parse: string -> Uri, io: Io)
    ensures AsFile(StringInput(text), marker, parse, io) == AsFile(UriInput(parse(text)), marker, parse, io)
  {
  }

  /** A temporary file is only ever returned for a content or asset URI,
      and no I/O outcome makes any other input throw. */
  lemma OnlyCopiesMakeTempFiles(data: Input, marker: string, parse: string -> Uri, io: Io)
    ensures var r := AsFile(data, marker, parse, io);
            var u := if data.UriInput? then data.uri else if data.StringInput? then parse(data.text) else Uri(None, [], None, "");
            (r.out.Err? || (r.out.Ok? && r.out.value.Some? && r.out.value.value.TempFile?)) ==>
              && (data.UriInput? || data.StringInput?)
              && (u.scheme == Some(SchemeContent) || (u.scheme == Some(SchemeFile) && |u.pathSegments| >= 1 && u.pathSegments[0] == marker))
  {
  }
}
