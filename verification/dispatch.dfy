/** The public operations of `src/lib.rs`. Each one picks a backend by a
    fixed order of tries: if the string is a URL (`Url::parse`, outside this
    model, given as `parseUrl`) whose serialisation is a `GcsFile` address,
    the GCS operation runs; a URL that is not such an address goes to the
    web branch; a string that is not a URL goes to the local file system.
    All three cargo features (`gcs`, `web`, `fs`) are taken as enabled. */
module Dispatch {
  import opened Wrappers
  import opened Text
  import opened Octets
  import opened Codec
  import opened CloudStorage
  import opened Backoff
  import opened GcsPath
  import opened GcsStore

  /** `FileUtilWebError`, left uninterpreted. */
  datatype WebError = WebError(description: string)

  /** `FileUtilFsError`. */
  datatype FsError = FsIOError(description: string) | FsCompressionError(compressionError: CompressionError)

  /** `FileUtilError`: the error of whichever backend ran. */
  datatype FileUtilError =
    | GcsFailure(gcsError: GcsError)
    | WebFailure(webError: WebError)
    | FsFailure(fsError: FsError)

  /** The `unimplemented!` and `unwrap` panics the operations can reach. */
  datatype Panic =
    | ListUrlUnimplemented
    | WriteUrlUnimplemented
    | DeleteUrlUnimplemented
    | LocalDeleteUnimplemented
    | InvalidUtf8

  /** What calling an operation that may panic does. */
  datatype Outcome<T> = Returns(result: Result<T, FileUtilError>) | Panics(reason: Panic)

  /** `url_exists_with_retry` and `download_from_url_with_retry` of the web
      module, as functions of the URL's serialisation. */
  datatype WebBackend = WebBackend(
    urlExists: string -> Result<bool, WebError>,
    download: (string, Option<Compression>) -> Result<Option<Bytes>, WebError>)

  /** The `std::fs` calls a `FileAccessor` makes, as functions of the path. */
  datatype LocalBackend = LocalBackend(
    pathExists: string -> bool,
    read: string -> Result<Bytes, FsError>,
    write: (string, Bytes) -> Result<(), FsError>,
    readDirectory: string -> Result<seq<string>, FsError>)

  /** Everything an operation depends on besides its arguments. */
  datatype Env = Env(
    parseUrl: string -> Option<string>,
    gcs: Schedule<Backend>,
    web: WebBackend,
    local: LocalBackend,
    codec: GzipCodec,
    utf8: Bytes -> Option<string>)

  /** The branch an operation takes. */
  datatype Route = ToGcs(file: GcsFile) | ToWeb(url: string) | ToLocal

  /** The order of tries shared by every operation: GCS strictly before web,
      web strictly before the local file system. */
  function Select(env: Env, s: string): (r: Route)
    ensures r.ToLocal? <==> env.parseUrl(s).None?
    ensures r.ToGcs? <==> env.parseUrl(s).Some? && ParseFile(env.parseUrl(s).value).Ok?
    ensures r.ToGcs? ==> r.file == ParseFile(env.parseUrl(s).value).value && Canonical(r.file)
    ensures r.ToGcs? && '\n' !in env.parseUrl(s).value ==> Render(r.file) == env.parseUrl(s).value
    ensures r.ToWeb? ==> r.url == env.parseUrl(s).value && ParseFile(r.url).Err?
  {
    match env.parseUrl(s)
    case None => ToLocal
    case Some(u) =>
      match NewFile(env.parseUrl, s)
      case Ok(f) => ToGcs(f)
      case Err(_) => ToWeb(u)
  }

  // ---------------------------------------------------------------------------
  // Error conversions (`?` through `From`)
  // ---------------------------------------------------------------------------

  function FromGcs<T>(r: Result<T, GcsError>): (o: Result<T, FileUtilError>)
    ensures o.Ok? <==> r.Ok?
    ensures o.Ok? ==> o.value == r.value
    ensures o.Err? ==> o.error == GcsFailure(r.error)
  {
    match r
    case Ok(v) => Ok(v)
    case Err(e) => Err(GcsFailure(e))
  }

  function FromWeb<T>(r: Result<T, WebError>): (o: Result<T, FileUtilError>)
    ensures o.Ok? <==> r.Ok?
    ensures o.Ok? ==> o.value == r.value
    ensures o.Err? ==> o.error == WebFailure(r.error)
  {
    match r
    case Ok(v) => Ok(v)
    case Err(e) => Err(WebFailure(e))
  }

  function FromFs<T>(r: Result<T, FsError>): (o: Result<T, FileUtilError>)
    ensures o.Ok? <==> r.Ok?
    ensures o.Ok? ==> o.value == r.value
    ensures o.Err? ==> o.error == FsFailure(r.error)
  {
    match r
    case Ok(v) => Ok(v)
    case Err(e) => Err(FsFailure(e))
  }

  // ---------------------------------------------------------------------------
  // The local file accessor
  // ---------------------------------------------------------------------------

  /** `FileAccessor::read`: the bytes of an existing file, `None` for a
      missing one. */
  function LocalRead(local: LocalBackend, path: string): (r: Result<Option<Bytes>, FsError>)
    ensures !local.pathExists(path) ==> r == Ok(None)
    ensures local.pathExists(path) ==> (r.Ok? <==> local.read(path).Ok?)
    ensures local.pathExists(path) && r.Ok? ==> r.value == Some(local.read(path).value)
    ensures local.pathExists(path) && r.Err? ==> r.error == local.read(path).error
  {
    if local.pathExists(path) then
      match local.read(path)
      case Ok(body) => Ok(Some(body))
      case Err(e) => Err(e)
    else
      Ok(None)
  }

  /** `FileAccessor::write`: encode with `compress_opt`, then write. */
  function LocalWrite(local: LocalBackend, codec: GzipCodec, path: string, body: Bytes,
                      compression: Option<Compression>): (r: Result<(), FsError>)
    ensures CompressOpt(codec, body, compression).Err? ==>
              r == Err(FsCompressionError(CompressOpt(codec, body, compression).error))
    ensures CompressOpt(codec, body, compression).Ok? ==>
              r == local.write(path, CompressOpt(codec, body, compression).value)
  {
    match CompressOpt(codec, body, compression)
    case Err(e) => Err(FsCompressionError(e))
    case Ok(encoded) => local.write(path, encoded)
  }

  // ---------------------------------------------------------------------------
  // The public operations
  // ---------------------------------------------------------------------------

  /** `list_files`. */
  function ListFiles(env: Env, s: string): (r: Outcome<seq<string>>)
    ensures Select(env, s).ToGcs? ==> r == Returns(FromGcs(ListObjectsWithRetry(Select(env, s).file, env.gcs)))
    ensures Select(env, s).ToWeb? ==> r == Panics(ListUrlUnimplemented)
    ensures Select(env, s).ToLocal? ==> r == Returns(FromFs(env.local.readDirectory(s)))
  {
    match Select(env, s)
    case ToGcs(f) => Returns(FromGcs(ListObjectsWithRetry(f, env.gcs)))
    case ToWeb(_) => Panics(ListUrlUnimplemented)
    case ToLocal => Returns(FromFs(env.local.readDirectory(s)))
  }

  /** `get_file_contents`. */
  function GetFileContents(env: Env, s: string, decompression: Option<Compression>)
    : (r: Result<Option<Bytes>, FileUtilError>)
    ensures Select(env, s).ToGcs? ==>
              r == FromGcs(DownloadWithRetry(Select(env, s).file, env.gcs, env.codec, decompression))
    ensures Select(env, s).ToWeb? ==> r == FromWeb(env.web.download(Select(env, s).url, decompression))
    ensures Select(env, s).ToLocal? ==> r == FromFs(LocalRead(env.local, s))
    ensures r.Err? ==>
              (r.error.GcsFailure? <==> Select(env, s).ToGcs?) &&
              (r.error.WebFailure? <==> Select(env, s).ToWeb?) &&
              (r.error.FsFailure? <==> Select(env, s).ToLocal?)
  {
    match Select(env, s)
    case ToGcs(f) => FromGcs(DownloadWithRetry(f, env.gcs, env.codec, decompression))
    case ToWeb(u) => FromWeb(env.web.download(u, decompression))
    case ToLocal => FromFs(LocalRead(env.local, s))
  }

  /** `get_file_contents_str`: the bytes read by `get_file_contents`,
      decoded as UTF-8; invalid UTF-8 panics. */
  function GetFileContentsStr(env: Env, s: string, decompression: Option<Compression>)
    : (r: Outcome<Option<string>>)
    ensures GetFileContents(env, s, decompression).Err? ==>
              r == Returns(Err(GetFileContents(env, s, decompression).error))
    ensures GetFileContents(env, s, decompression) == Ok(None) ==> r == Returns(Ok(None))
    ensures r.Panics? <==>
              GetFileContents(env, s, decompression).Ok? && GetFileContents(env, s, decompression).value.Some? &&
              env.utf8(GetFileContents(env, s, decompression).value.value).None?
    ensures r.Panics? ==> r.reason == InvalidUtf8
    ensures GetFileContents(env, s, decompression).Ok? && GetFileContents(env, s, decompression).value.Some? &&
            env.utf8(GetFileContents(env, s, decompression).value.value).Some? ==>
              r == Returns(Ok(env.utf8(GetFileContents(env, s, decompression).value.value)))
    ensures r.Returns? && r.result.Ok? && r.result.value.Some? ==>
              GetFileContents(env, s, decompression).Ok? && GetFileContents(env, s, decompression).value.Some? &&
              env.utf8(GetFileContents(env, s, decompression).value.value) == r.result.value
  {
    match GetFileContents(env, s, decompression)
    case Err(e) => Returns(Err(e))
    case Ok(None) => Returns(Ok(None))
    case Ok(Some(bytes)) =>
      match env.utf8(bytes)
      case None => Panics(InvalidUtf8)
      case Some(text) => Returns(Ok(Some(text)))
  }

  /** `is_exists`. */
  function IsExists(env: Env, s: string): (r: Result<bool, FileUtilError>)
    ensures Select(env, s).ToGcs? ==> r == FromGcs(IsExistsWithRetry(Select(env, s).file, env.gcs))
    ensures Select(env, s).ToWeb? ==> r == FromWeb(env.web.urlExists(Select(env, s).url))
    ensures Select(env, s).ToLocal? ==> r == Ok(env.local.pathExists(s))
  {
    match Select(env, s)
    case ToGcs(f) => FromGcs(IsExistsWithRetry(f, env.gcs))
    case ToWeb(u) => FromWeb(env.web.urlExists(u))
    case ToLocal => Ok(env.local.pathExists(s))
  }

  /** `write_contents`. */
  function WriteContents(env: Env, s: string, body: Bytes, mime: MimeType, compression: Option<Compression>)
    : (r: Outcome<()>)
    ensures Select(env, s).ToGcs? ==>
              r == Returns(FromGcs(WriteWithRetry(Select(env, s).file, body, mime, env.gcs, env.codec, compression)))
    ensures Select(env, s).ToWeb? ==> r == Panics(WriteUrlUnimplemented)
    ensures Select(env, s).ToLocal? ==> r == Returns(FromFs(LocalWrite(env.local, env.codec, s, body, compression)))
  {
    match Select(env, s)
    case ToGcs(f) => Returns(FromGcs(WriteWithRetry(f, body, mime, env.gcs, env.codec, compression)))
    case ToWeb(_) => Panics(WriteUrlUnimplemented)
    case ToLocal => Returns(FromFs(LocalWrite(env.local, env.codec, s, body, compression)))
  }

  /** `delete_contents`. */
  function DeleteContents(env: Env, s: string): (r: Outcome<()>)
    ensures Select(env, s).ToGcs? ==> r == Returns(FromGcs(DeleteWithRetry(Select(env, s).file, env.gcs)))
    ensures Select(env, s).ToWeb? ==> r == Panics(DeleteUrlUnimplemented)
    ensures Select(env, s).ToLocal? ==> r == Panics(LocalDeleteUnimplemented)
    ensures r.Returns? <==> Select(env, s).ToGcs?
  {
    match Select(env, s)
    case ToGcs(f) => Returns(FromGcs(DeleteWithRetry(f, env.gcs)))
    case ToWeb(_) => Panics(DeleteUrlUnimplemented)
    case ToLocal => Panics(LocalDeleteUnimplemented)
  }

  // ---------------------------------------------------------------------------
  // Properties of the selection
  // ---------------------------------------------------------------------------

  /** A URL whose serialisation is a well-formed `gs://b/n` goes to GCS, with
      the address the parser gives. */
  lemma WellFormedGoesToGcs(env: Env, s: string, b: string, n: string)
    requires b != [] && '/' !in b
    requires n != [] && n[0] != '/' && '\n' !in n
    requires env.parseUrl(s) == Some(Scheme + b + "/" + n)
    ensures ParseFile(Scheme + b + "/" + n).Ok?
    ensures Select(env, s) == ToGcs(ParseFile(Scheme + b + "/" + n).value)
    ensures Select(env, s).file.bucket == b
    ensures ListingPrefix(Select(env, s).file) == n
  {
    ListingPrefixOfWellFormed(b, n);
    RouteOfAddress(env, s, Scheme + b + "/" + n);
  }

  /** A URL whose serialisation parses as an address goes to GCS. */
  lemma RouteOfAddress(env: Env, s: string, u: string)
    requires env.parseUrl(s) == Some(u) && ParseFile(u).Ok?
    ensures Select(env, s) == ToGcs(ParseFile(u).value)
  {
  }

  /** A bare bucket address `gs://b` is a URL but not a `GcsFile`: reading
      and existence go to the web backend, and listing, writing and deleting
      panic. Its being a valid `GcsBucket` address plays no part. */
  lemma BareBucketGoesToWeb(env: Env, s: string, b: string)
    requires b != [] && '/' !in b
    requires env.parseUrl(s) == Some(Scheme + b)
    ensures ParseBucket(Scheme + b) == Ok(GcsBucket(b))
    ensures Select(env, s) == ToWeb(Scheme + b)
    ensures GetFileContents(env, s, None) == FromWeb(env.web.download(Scheme + b, None))
    ensures IsExists(env, s) == FromWeb(env.web.urlExists(Scheme + b))
    ensures ListFiles(env, s) == Panics(ListUrlUnimplemented)
    ensures DeleteContents(env, s) == Panics(DeleteUrlUnimplemented)
  {
    ParseRejectsBareBucket(b);
    ParseBucketAccepts(b, []);
    assert Scheme + b + [] == Scheme + b;
  }

  /** A URL of another scheme goes to the web backend. */
  lemma OtherSchemeGoesToWeb(env: Env, s: string)
    requires env.parseUrl(s).Some? && !StartsWith(env.parseUrl(s).value, Scheme)
    ensures Select(env, s) == ToWeb(env.parseUrl(s).value)
  {
  }

  /** A string that is not a URL goes to the local file system, whatever the
      GCS and web backends would answer; deleting it panics. */
  lemma NonUrlGoesToLocal(env: Env, s: string, gcs: Schedule<Backend>, web: WebBackend,
                          body: Bytes, mime: MimeType, c: Option<Compression>)
    requires env.parseUrl(s).None?
    ensures Select(env, s) == ToLocal
    ensures ListFiles(env, s) == ListFiles(env.(gcs := gcs, web := web), s)
    ensures WriteContents(env, s, body, mime, c) == WriteContents(env.(gcs := gcs, web := web), s, body, mime, c)
    ensures GetFileContents(env, s, None) == GetFileContents(env.(gcs := gcs, web := web), s, None)
    ensures IsExists(env, s) == Ok(env.local.pathExists(s))
    ensures DeleteContents(env, s) == Panics(LocalDeleteUnimplemented)
  {
  }

  /** On the GCS route the web and local backends are never consulted: the
      result is the same whatever they are. */
  lemma GcsRouteIgnoresOtherBackends(env: Env, s: string, web: WebBackend, local: LocalBackend,
                                     d: Option<Compression>)
    requires Select(env, s).ToGcs?
    ensures ListFiles(env, s) == ListFiles(env.(web := web, local := local), s)
    ensures GetFileContents(env, s, d) == GetFileContents(env.(web := web, local := local), s, d)
    ensures GetFileContentsStr(env, s, d) == GetFileContentsStr(env.(web := web, local := local), s, d)
    ensures IsExists(env, s) == IsExists(env.(web := web, local := local), s)
    ensures DeleteContents(env, s) == DeleteContents(env.(web := web, local := local), s)
  {
  }

  /** The same for writing: on the GCS route the body goes to GCS whatever
      the web and local backends are. */
  lemma GcsWriteIgnoresOtherBackends(env: Env, s: string, web: WebBackend, local: LocalBackend,
                                     body: Bytes, mime: MimeType, c: Option<Compression>)
    requires Select(env, s).ToGcs?
    ensures WriteContents(env, s, body, mime, c) == WriteContents(env.(web := web, local := local), s, body, mime, c)
  {
  }

  /** On the web route the GCS backend and the local file system are never
      consulted. */
  lemma WebRouteIgnoresOtherBackends(env: Env, s: string, gcs: Schedule<Backend>, local: LocalBackend,
                                     d: Option<Compression>)
    requires Select(env, s).ToWeb?
    ensures ListFiles(env, s) == ListFiles(env.(gcs := gcs, local := local), s)
    ensures GetFileContents(env, s, d) == GetFileContents(env.(gcs := gcs, local := local), s, d)
    ensures GetFileContentsStr(env, s, d) == GetFileContentsStr(env.(gcs := gcs, local := local), s, d)
    ensures DeleteContents(env, s) == DeleteContents(env.(gcs := gcs, local := local), s)
    ensures IsExists(env, s) == IsExists(env.(gcs := gcs, local := local), s)
  {
  }

  /** A directory address `gs://b/d/` reaches GCS; reading, existence and
      writing refuse it whatever the schedule, while deleting it removes the
      object `d`. */
  lemma DirectoryAddressOperations(env: Env, s: string, b: string, d: string, body: Bytes, mime: MimeType)
    requires b != [] && '/' !in b
    requires d != [] && d[0] != '/' && '\n' !in d && !EndsWith(d, "/")
    requires env.parseUrl(s) == Some(Scheme + b + "/" + d + "/")
    ensures Select(env, s) == ToGcs(GcsFile(b, d, true))
    ensures GetFileContents(env, s, None) == Err(GcsFailure(InvalidBucketPath(TrailingSlashMessage(d))))
    ensures IsExists(env, s) == Err(GcsFailure(InvalidBucketPath(TrailingSlashMessage(d))))
    ensures WriteContents(env, s, body, mime, None) == Returns(Err(GcsFailure(InvalidBucketPath(TrailingSlashMessage(d)))))
    ensures DeleteContents(env, s).Returns?
    ensures DeleteContents(env, s).result.Ok? <==>
              exists j :: 0 <= j < |env.gcs.States()| && env.gcs.States()[j].delete(b, d).Ok?
    ensures env.gcs.retries == [] ==>
            DeleteContents(env, s) ==
              Returns(if env.gcs.first.delete(b, d).Ok? then Ok(())
                      else Err(GcsFailure(StorageAccess(env.gcs.first.delete(b, d).error))))
  {
    DeleteOfDirectoryAddress(b, d, env.gcs.first, env.gcs);
    if env.gcs.retries == [] {
      assert env.gcs == Schedule(env.gcs.first, []);
    }
  }
}
