/** The storage-facing functions of `src/gcs/mod.rs`: the single-call
    helpers (`object_exists`, `find_object`, `list_objects`,
    `download_object`, `create_object`, `delete_object`), the
    exists-then-fetch `download`, and the `*_with_retry` operations of a
    `GcsFile`, each over an abstract backend and retry schedule. */
module GcsStore {
  import opened Wrappers
  import opened Text
  import opened Octets
  import opened Codec
  import opened CloudStorage
  import opened Backoff
  import opened GcsPath

  /** The message of the exact-object guards. */
  function TrailingSlashMessage(name: string): string {
    "object path must not be ends with `/` : " + name
  }

  /** The message of the guard in `find_object`. */
  function FindTrailingSlashMessage(name: string): string {
    "path must not be ends with `/` : " + name
  }

  // ---------------------------------------------------------------------------
  // Single backend calls
  // ---------------------------------------------------------------------------

  /** `object_exists`: a name ending in '/' is refused before the backend is
      asked; otherwise a successful read means present, a Google error
      carrying `NotFound` means absent, and every other failure is an error. */
  function ObjectExists(be: Backend, bucket: string, name: string): (r: Result<bool, GcsError>)
    ensures EndsWith(name, "/") ==> r == Err(InvalidBucketPath(TrailingSlashMessage(name)))
    ensures r == Ok(true) <==> !EndsWith(name, "/") && be.read(bucket, name).Ok?
    ensures r == Ok(false) <==>
              !EndsWith(name, "/") && be.read(bucket, name).Err? && HasReason(be.read(bucket, name).error, NotFound)
    ensures r.Err? && !EndsWith(name, "/") ==> r == Err(StorageAccess(be.read(bucket, name).error))
  {
    if EndsWith(name, "/") then
      Err(InvalidBucketPath(TrailingSlashMessage(name)))
    else
      match be.read(bucket, name)
      case Ok(_) => Ok(true)
      case Err(e) =>
        match e
        case Google(reasons) =>
          if HasReason(e, NotFound) then Ok(false) else Err(StorageAccess(Google(reasons)))
        case _ => Err(StorageAccess(e))
  }

  /** `list_prefix_request`: a listing filtered by `prefix` and nothing else. */
  function PrefixRequest(prefix: string): (q: ListRequest)
    ensures q.prefix == Some(prefix)
    ensures q.delimiter.None? && q.endOffset.None? && q.includeTrailingDelimiter.None?
    ensures q.maxResults.None? && q.pageToken.None? && q.projection.None?
    ensures q.startOffset.None? && q.versions.None?
  {
    ListRequest(None, None, None, None, None, Some(prefix), None, None, None)
  }

  /** The items of all pages, page after page. */
  function Flatten(pages: seq<ObjectList>): seq<StoredObject> {
    if pages == [] then [] else pages[0].items + Flatten(pages[1..])
  }

  /** Adding a page at the end adds its items at the end. */
  lemma {:induction false} FlattenSnoc(pages: seq<ObjectList>, page: ObjectList)
    ensures Flatten(pages + [page]) == Flatten(pages) + page.items
  {
    if pages == [] {
      assert pages + [page] == [page];
    } else {
      assert (pages + [page])[1..] == pages[1..] + [page];
      FlattenSnoc(pages[1..], page);
    }
  }

  /** An object is in the flattened listing exactly when some page holds it. */
  lemma {:induction false} FlattenContains(pages: seq<ObjectList>, o: StoredObject)
    ensures o in Flatten(pages) <==> exists k :: 0 <= k < |pages| && o in pages[k].items
  {
    if pages != [] {
      FlattenContains(pages[1..], o);
      if o in Flatten(pages[1..]) {
        var k :| 0 <= k < |pages[1..]| && o in pages[1..][k].items;
        assert o in pages[k + 1].items;
      }
      if exists k :: 0 <= k < |pages| && o in pages[k].items {
        var k :| 0 <= k < |pages| && o in pages[k].items;
        if k > 0 {
          assert o in pages[1..][k - 1].items;
        }
      }
    }
  }

  /** The loop of `list_objects`: append every page's items to an
      initially empty vector. */
  method CollectItems(pages: seq<ObjectList>) returns (result: seq<StoredObject>)
    ensures result == Flatten(pages)
  {
    result := [];
    var i := 0;
    while i < |pages|
      invariant 0 <= i <= |pages|
      invariant result == Flatten(pages[..i])
    {
      assert pages[..i + 1] == pages[..i] + [pages[i]];
      FlattenSnoc(pages[..i], pages[i]);
      result := result + pages[i].items;
      i := i + 1;
    }
    assert pages[..i] == pages;
  }

  /** `list_objects`: one prefix listing, all pages concatenated in order, or
      the listing's error with no partial result. */
  function ListObjects(be: Backend, bucket: string, prefix: string): (r: Result<seq<StoredObject>, GcsError>)
    ensures r.Ok? <==> be.list(bucket, PrefixRequest(prefix)).Ok?
    ensures r.Ok? ==> r.value == Flatten(be.list(bucket, PrefixRequest(prefix)).value)
    ensures r.Err? ==> r.error == StorageAccess(be.list(bucket, PrefixRequest(prefix)).error)
  {
    match be.list(bucket, PrefixRequest(prefix))
    case Ok(pages) => Ok(Flatten(pages))
    case Err(e) => Err(StorageAccess(e))
  }

  /** Reference definition of a first match: the earliest item named `name`. */
  function FirstNamed(items: seq<StoredObject>, name: string): (r: Option<StoredObject>)
    ensures r.None? <==> forall i :: 0 <= i < |items| ==> items[i].name != name
    ensures r.Some? ==> r.value.name == name && r.value in items
    ensures r.Some? ==> exists k :: 0 <= k < |items| && items[k] == r.value &&
                                    forall j :: 0 <= j < k ==> items[j].name != name
  {
    if items == [] then None
    else if items[0].name == name then Some(items[0])
    else
      var r := FirstNamed(items[1..], name);
      assert r.Some? ==> exists k :: 0 <= k < |items| && items[k] == r.value &&
                                    forall j :: 0 <= j < k ==> items[j].name != name by {
        if r.Some? {
          var k :| 0 <= k < |items[1..]| && items[1..][k] == r.value &&
                   forall j :: 0 <= j < k ==> items[1..][j].name != name;
          assert items[k + 1] == r.value;
          assert forall j :: 0 <= j < k + 1 ==> items[j].name != name by {
            forall j | 0 <= j < k + 1
              ensures items[j].name != name
            {
              if j > 0 {
                assert items[j] == items[1..][j - 1];
              }
            }
          }
        }
      }
      r
  }

  /** Searching `a + b` finds the first match of `a`, or else that of `b`. */
  lemma {:induction false} FirstNamedConcat(a: seq<StoredObject>, b: seq<StoredObject>, name: string)
    ensures FirstNamed(a + b, name) == if FirstNamed(a, name).Some? then FirstNamed(a, name) else FirstNamed(b, name)
  {
    if a == [] {
      assert a + b == b;
    } else {
      assert (a + b)[0] == a[0];
      assert (a + b)[1..] == a[1..] + b;
      FirstNamedConcat(a[1..], b, name);
    }
  }

  /** The page loop of `find_object`: look through each page in turn and
      stop at the first page holding a match. It finds what a search of the
      flattened listing finds. */
  function FindInPages(pages: seq<ObjectList>, name: string): (r: Option<StoredObject>)
    ensures r == FirstNamed(Flatten(pages), name)
  {
    if pages == [] then None
    else
      FirstNamedConcat(pages[0].items, Flatten(pages[1..]), name);
      var found := FirstNamed(pages[0].items, name);
      if found.Some? then found else FindInPages(pages[1..], name)
  }

  /** `find_object`: refuse a name ending in '/', then list with the name as
      prefix and return the first listed object whose name is exactly
      `name`. */
  function FindObject(be: Backend, bucket: string, name: string): (r: Result<Option<StoredObject>, GcsError>)
    ensures EndsWith(name, "/") ==> r == Err(InvalidBucketPath(FindTrailingSlashMessage(name)))
    ensures !EndsWith(name, "/") ==>
              (r.Ok? <==> be.list(bucket, PrefixRequest(name)).Ok?)
    ensures !EndsWith(name, "/") && r.Ok? ==>
              r.value == FirstNamed(Flatten(be.list(bucket, PrefixRequest(name)).value), name)
    ensures !EndsWith(name, "/") && r.Err? ==>
              r.error == StorageAccess(be.list(bucket, PrefixRequest(name)).error)
  {
    if EndsWith(name, "/") then
      Err(InvalidBucketPath(FindTrailingSlashMessage(name)))
    else
      match be.list(bucket, PrefixRequest(name))
      case Ok(pages) => Ok(FindInPages(pages, name))
      case Err(e) => Err(StorageAccess(e))
  }

  /** `download_object`: refuse a name ending in '/', else fetch the bytes. */
  function DownloadObject(be: Backend, bucket: string, name: string): (r: Result<Bytes, GcsError>)
    ensures EndsWith(name, "/") ==> r == Err(InvalidBucketPath(TrailingSlashMessage(name)))
    ensures !EndsWith(name, "/") ==> (r.Ok? <==> be.download(bucket, name).Ok?)
    ensures !EndsWith(name, "/") && r.Ok? ==> r.value == be.download(bucket, name).value
    ensures !EndsWith(name, "/") && r.Err? ==> r.error == StorageAccess(be.download(bucket, name).error)
  {
    if EndsWith(name, "/") then
      Err(InvalidBucketPath(TrailingSlashMessage(name)))
    else
      match be.download(bucket, name)
      case Ok(body) => Ok(body)
      case Err(e) => Err(StorageAccess(e))
  }

  /** `create_object`: no guard; the body and content type go to the backend
      untouched. */
  function CreateObject(be: Backend, bucket: string, path: string, body: Bytes, mime: MimeType)
    : (r: Result<StoredObject, GcsError>)
    ensures r.Ok? <==> be.create(bucket, body, path, mime).Ok?
    ensures r.Ok? ==> r.value == be.create(bucket, body, path, mime).value
    ensures r.Err? ==> r.error == StorageAccess(be.create(bucket, body, path, mime).error)
  {
    match be.create(bucket, body, path, mime)
    case Ok(o) => Ok(o)
    case Err(e) => Err(StorageAccess(e))
  }

  /** `delete_object`: refuse a path ending in '/', else delete it. */
  function DeleteObject(be: Backend, bucket: string, path: string): (r: Result<(), GcsError>)
    ensures EndsWith(path, "/") ==> r == Err(InvalidBucketPath(TrailingSlashMessage(path)))
    ensures !EndsWith(path, "/") ==> (r.Ok? <==> be.delete(bucket, path).Ok?)
    ensures !EndsWith(path, "/") && r.Err? ==> r.error == StorageAccess(be.delete(bucket, path).error)
  {
    if EndsWith(path, "/") then
      Err(InvalidBucketPath(TrailingSlashMessage(path)))
    else
      match be.delete(bucket, path)
      case Ok(_) => Ok(())
      case Err(e) => Err(StorageAccess(e))
  }

  /** `GcsFile::download`: fetch only when the existence check answers
      `Ok(true)`; any other answer, errors included, gives `Ok(None)`. The
      only error that escapes is a failure of the fetch itself. */
  function Download(be: Backend, bucket: string, name: string): (r: Result<Option<Bytes>, GcsError>)
    ensures ObjectExists(be, bucket, name) != Ok(true) ==> r == Ok(None)
    ensures r.Ok? && r.value.Some? <==>
              ObjectExists(be, bucket, name) == Ok(true) && be.download(bucket, name).Ok?
    ensures r.Ok? && r.value.Some? ==> r.value.value == be.download(bucket, name).value
    ensures r.Err? ==> ObjectExists(be, bucket, name) == Ok(true) &&
                       r.error == StorageAccess(be.download(bucket, name).error)
    ensures ObjectExists(be, bucket, name) == Ok(true) && be.download(bucket, name).Err? ==>
              r == Err(StorageAccess(be.download(bucket, name).error))
  {
    if ObjectExists(be, bucket, name) == Ok(true) then
      match DownloadObject(be, bucket, name)
      case Ok(body) => Ok(Some(body))
      case Err(e) => Err(e)
    else
      Ok(None)
  }

  /** A read that fails for any reason other than `NotFound` is not an error
      of `download`: it reads as an absent object. */
  lemma DownloadSwallowsReadErrors(be: Backend, bucket: string, name: string)
    requires !EndsWith(name, "/")
    requires be.read(bucket, name).Err? && !HasReason(be.read(bucket, name).error, NotFound)
    ensures ObjectExists(be, bucket, name) == Err(StorageAccess(be.read(bucket, name).error))
    ensures Download(be, bucket, name) == Ok(None)
  {
  }

  // ---------------------------------------------------------------------------
  // Retry closures: every failure is Transient, none is Permanent
  // ---------------------------------------------------------------------------

  /** The prefix `list_objects_with_retry` lists: the name as written, with
      its trailing '/' put back. */
  function ListingPrefix(f: GcsFile): (p: string)
    ensures EndsWith(p, "/") <==> f.trailingSlash || EndsWith(f.name, "/")
    ensures f.trailingSlash ==> p == f.name + "/"
    ensures !f.trailingSlash ==> p == f.name
  {
    WithTrailingSlash(f.name, f.trailingSlash)
  }

  /** How a listed object is shown: its name is split into a name without
      one trailing '/' and a flag, and the resulting `GcsFile` is rendered.
      The split and the re-append cancel out. */
  function ListedAddress(o: StoredObject): (a: string)
    ensures a == Scheme + o.bucket + "/" + o.name
  {
    var (name, slash) := StripTrailingSlash(o.name);
    Render(GcsFile(o.bucket, name, slash))
  }

  /** One attempt of `list_objects_with_retry`. */
  function ListAttempt(f: GcsFile, be: Backend): (r: Attempt<seq<string>, GcsError>)
    ensures !r.Permanent?
    ensures r.Done? <==> be.list(f.bucket, PrefixRequest(ListingPrefix(f))).Ok?
    ensures r.Done? ==>
              var items := Flatten(be.list(f.bucket, PrefixRequest(ListingPrefix(f))).value);
              |r.value| == |items| &&
              forall i :: 0 <= i < |items| ==> r.value[i] == Scheme + items[i].bucket + "/" + items[i].name
    ensures r.Transient? ==> r.error == StorageAccess(be.list(f.bucket, PrefixRequest(ListingPrefix(f))).error)
  {
    match ListObjects(be, f.bucket, ListingPrefix(f))
    case Ok(objects) => Done(seq(|objects|, i requires 0 <= i < |objects| => ListedAddress(objects[i])))
    case Err(e) => Transient(e)
  }

  /** One attempt of `is_exists_with_retry`. */
  function ExistsAttempt(f: GcsFile, be: Backend): (r: Attempt<bool, GcsError>)
    ensures !r.Permanent?
    ensures r.Done? <==> ObjectExists(be, f.bucket, f.name).Ok?
    ensures r.Done? ==> r.value == ObjectExists(be, f.bucket, f.name).value
    ensures r.Transient? ==> r.error == ObjectExists(be, f.bucket, f.name).error
  {
    match ObjectExists(be, f.bucket, f.name)
    case Ok(v) => Done(v)
    case Err(e) => Transient(e)
  }

  /** One attempt of `download_with_retry`. */
  function DownloadAttempt(f: GcsFile, be: Backend): (r: Attempt<Option<Bytes>, GcsError>)
    ensures !r.Permanent?
    ensures r.Done? <==> Download(be, f.bucket, f.name).Ok?
    ensures r.Done? ==> r.value == Download(be, f.bucket, f.name).value
    ensures r.Transient? ==> r.error == Download(be, f.bucket, f.name).error
  {
    match Download(be, f.bucket, f.name)
    case Ok(v) => Done(v)
    case Err(e) => Transient(e)
  }

  /** One attempt of `write_with_retry`, with the already encoded body. */
  function WriteAttempt(f: GcsFile, body: Bytes, mime: MimeType, be: Backend): (r: Attempt<(), GcsError>)
    ensures !r.Permanent?
    ensures r.Done? <==> be.create(f.bucket, body, f.name, mime).Ok?
    ensures r.Transient? ==> r.error == StorageAccess(be.create(f.bucket, body, f.name, mime).error)
  {
    match CreateObject(be, f.bucket, f.name, body, mime)
    case Ok(_) => Done(())
    case Err(e) => Transient(e)
  }

  /** One attempt of `delete_with_retry`. */
  function DeleteAttempt(f: GcsFile, be: Backend): (r: Attempt<(), GcsError>)
    ensures !r.Permanent?
    ensures r.Done? <==> DeleteObject(be, f.bucket, f.name).Ok?
    ensures r.Transient? ==> r.error == DeleteObject(be, f.bucket, f.name).error
  {
    match DeleteObject(be, f.bucket, f.name)
    case Ok(_) => Done(())
    case Err(e) => Transient(e)
  }

  // ---------------------------------------------------------------------------
  // The `*_with_retry` operations of a GcsFile
  // ---------------------------------------------------------------------------

  /** `list_objects_with_retry`: no guard; the listing of the first attempt
      that succeeds, or the error of the last attempt. */
  function ListObjectsWithRetry(f: GcsFile, schedule: Schedule<Backend>): (r: Result<seq<string>, GcsError>)
    ensures r.Ok? <==> exists j :: 0 <= j < |schedule.States()| && ListAttempt(f, schedule.States()[j]).Done?
    ensures r.Ok? ==> exists j :: 0 <= j < |schedule.States()| && ListAttempt(f, schedule.States()[j]) == Done(r.value) &&
                                  forall i :: 0 <= i < j ==> ListAttempt(f, schedule.States()[i]).Transient?
    ensures r.Err? ==> r.error == StorageAccess(schedule.Last().list(f.bucket, PrefixRequest(ListingPrefix(f))).error)
  {
    var op := (be: Backend) => ListAttempt(f, be);
    RetryWithoutPermanent(op, schedule);
    Retry(op, schedule).result
  }

  /** `is_exists_with_retry`: a directory address is refused before any
      backend call; otherwise the answer of the first attempt whose
      existence check succeeds, or the last attempt's error. */
  function IsExistsWithRetry(f: GcsFile, schedule: Schedule<Backend>): (r: Result<bool, GcsError>)
    ensures f.trailingSlash ==> r == Err(InvalidBucketPath(TrailingSlashMessage(f.name)))
    ensures !f.trailingSlash ==>
              (r.Ok? <==> exists j :: 0 <= j < |schedule.States()| &&
                                     ObjectExists(schedule.States()[j], f.bucket, f.name).Ok?)
    ensures !f.trailingSlash && r.Ok? ==>
              exists j :: 0 <= j < |schedule.States()| &&
                          ObjectExists(schedule.States()[j], f.bucket, f.name) == Ok(r.value) &&
                          forall i :: 0 <= i < j ==> ObjectExists(schedule.States()[i], f.bucket, f.name).Err?
    ensures !f.trailingSlash && r.Err? ==> r == ObjectExists(schedule.Last(), f.bucket, f.name)
  {
    if f.trailingSlash then
      Err(InvalidBucketPath(TrailingSlashMessage(f.name)))
    else
      var op := (be: Backend) => ExistsAttempt(f, be);
      RetryWithoutPermanent(op, schedule);
      Retry(op, schedule).result
  }

  /** `download_with_retry`: a directory address is refused before any
      backend call; otherwise the retried `download`, then `decompress_opt`
      on what it returned. */
  function DownloadWithRetry(f: GcsFile, schedule: Schedule<Backend>, codec: GzipCodec,
                             decompression: Option<Compression>): (r: Result<Option<Bytes>, GcsError>)
    ensures f.trailingSlash ==> r == Err(InvalidBucketPath(TrailingSlashMessage(f.name)))
    ensures !f.trailingSlash && r.Ok? ==>
              exists j :: 0 <= j < |schedule.States()| &&
                          Download(schedule.States()[j], f.bucket, f.name).Ok? &&
                          DecompressOpt(codec, Download(schedule.States()[j], f.bucket, f.name).value, decompression)
                            == Ok(r.value) &&
                          forall i :: 0 <= i < j ==> Download(schedule.States()[i], f.bucket, f.name).Err?
    ensures !f.trailingSlash && (forall j :: 0 <= j < |schedule.States()| ==>
                                   Download(schedule.States()[j], f.bucket, f.name).Err?) ==>
              r == Err(Download(schedule.Last(), f.bucket, f.name).error)
    ensures !f.trailingSlash && (exists j :: 0 <= j < |schedule.States()| &&
                                   Download(schedule.States()[j], f.bucket, f.name).Ok?) ==>
              exists j :: 0 <= j < |schedule.States()| &&
                          Download(schedule.States()[j], f.bucket, f.name).Ok? &&
                          (forall i :: 0 <= i < j ==> Download(schedule.States()[i], f.bucket, f.name).Err?) &&
                          var decoded := DecompressOpt(codec, Download(schedule.States()[j], f.bucket, f.name).value,
                                                       decompression);
                          (decoded.Ok? ==> r == Ok(decoded.value)) &&
                          (decoded.Err? ==> r == Err(CompressionFailed(decoded.error)))
  {
    if f.trailingSlash then
      Err(InvalidBucketPath(TrailingSlashMessage(f.name)))
    else
      var op := (be: Backend) => DownloadAttempt(f, be);
      RetryWithoutPermanent(op, schedule);
      match Retry(op, schedule).result
      case Err(e) => Err(e)
      case Ok(contents) =>
        match DecompressOpt(codec, contents, decompression)
        case Ok(v) => Ok(v)
        case Err(e) => Err(CompressionFailed(e))
  }

  /** `write_with_retry`: a directory address is refused before any backend
      call; the body is encoded with `compress_opt` once, before the first
      attempt, and that encoded body is what every attempt stores. */
  function WriteWithRetry(f: GcsFile, body: Bytes, mime: MimeType, schedule: Schedule<Backend>,
                          codec: GzipCodec, compression: Option<Compression>): (r: Result<(), GcsError>)
    ensures f.trailingSlash ==> r == Err(InvalidBucketPath(TrailingSlashMessage(f.name)))
    ensures !f.trailingSlash && CompressOpt(codec, body, compression).Err? ==>
              r == Err(CompressionFailed(CompressOpt(codec, body, compression).error))
    ensures !f.trailingSlash && CompressOpt(codec, body, compression).Ok? ==>
              (r.Ok? <==> exists j :: 0 <= j < |schedule.States()| &&
                                     schedule.States()[j].create(f.bucket, CompressOpt(codec, body, compression).value,
                                                                 f.name, mime).Ok?)
    ensures !f.trailingSlash && CompressOpt(codec, body, compression).Ok? && r.Err? ==>
              r.error == StorageAccess(schedule.Last().create(f.bucket, CompressOpt(codec, body, compression).value,
                                                              f.name, mime).error)
  {
    if f.trailingSlash then
      Err(InvalidBucketPath(TrailingSlashMessage(f.name)))
    else
      match CompressOpt(codec, body, compression)
      case Err(e) => Err(CompressionFailed(e))
      case Ok(encoded) =>
        var op := (be: Backend) => WriteAttempt(f, encoded, mime, be);
        RetryWithoutPermanent(op, schedule);
        Retry(op, schedule).result
  }

  /** `delete_with_retry`: unlike the other operations it does not look at
      `trailingSlash`; only the name guard of `delete_object` applies, and
      its refusal is retried like any other failure. */
  function DeleteWithRetry(f: GcsFile, schedule: Schedule<Backend>): (r: Result<(), GcsError>)
    ensures EndsWith(f.name, "/") ==> r == Err(InvalidBucketPath(TrailingSlashMessage(f.name)))
    ensures r.Ok? <==> !EndsWith(f.name, "/") &&
                       exists j :: 0 <= j < |schedule.States()| && schedule.States()[j].delete(f.bucket, f.name).Ok?
    ensures !EndsWith(f.name, "/") && r.Err? ==>
              r.error == StorageAccess(schedule.Last().delete(f.bucket, f.name).error)
  {
    var op := (be: Backend) => DeleteAttempt(f, be);
    RetryWithoutPermanent(op, schedule);
    Retry(op, schedule).result
  }

  // ---------------------------------------------------------------------------
  // Facts connecting the address parser with the storage calls
  // ---------------------------------------------------------------------------

  /** The prefix listed for a parsed `gs://b/n` is `n` exactly as written,
      trailing '/' included. */
  lemma ListingPrefixOfWellFormed(b: string, n: string)
    requires b != [] && '/' !in b
    requires n != [] && n[0] != '/' && '\n' !in n
    ensures ParseFile(Scheme + b + "/" + n).Ok?
    ensures ParseFile(Scheme + b + "/" + n).value.bucket == b
    ensures ListingPrefix(ParseFile(Scheme + b + "/" + n).value) == n
  {
    ParseWellFormed(b, n);
    if EndsWith(n, "/") {
      assert n == n[..|n| - 1] + "/";
    }
  }

  /** A directory address `gs://b/d/` is not refused by `delete_with_retry`:
      whatever the schedule, it deletes the object `d` itself, succeeding iff
      some attempt deletes `d`; with one attempt, exactly that delete. */
  lemma DeleteOfDirectoryAddress(b: string, d: string, be: Backend, schedule: Schedule<Backend>)
    requires b != [] && '/' !in b
    requires d != [] && d[0] != '/' && '\n' !in d && !EndsWith(d, "/")
    ensures ParseFile(Scheme + b + "/" + d + "/") == Ok(GcsFile(b, d, true))
    ensures DeleteWithRetry(GcsFile(b, d, true), schedule).Ok? <==>
              exists j :: 0 <= j < |schedule.States()| && schedule.States()[j].delete(b, d).Ok?
    ensures DeleteWithRetry(GcsFile(b, d, true), schedule).Err? ==>
              DeleteWithRetry(GcsFile(b, d, true), schedule).error == StorageAccess(schedule.Last().delete(b, d).error)
    ensures DeleteWithRetry(GcsFile(b, d, true), Schedule(be, [])) ==
              if be.delete(b, d).Ok? then Ok(()) else Err(StorageAccess(be.delete(b, d).error))
  {
    FileAndDirectoryAgree(b, d);
    assert Schedule(be, []).States() == [be];
  }

  /** Every other exact-object operation refuses the same address whatever
      the backend holds. */
  lemma DirectoryAddressRefused(f: GcsFile, schedule: Schedule<Backend>, codec: GzipCodec,
                                body: Bytes, mime: MimeType, c: Option<Compression>)
    requires f.trailingSlash
    ensures IsExistsWithRetry(f, schedule).Err?
    ensures DownloadWithRetry(f, schedule, codec, c).Err?
    ensures WriteWithRetry(f, body, mime, schedule, codec, c).Err?
    ensures ListObjectsWithRetry(f, schedule).Ok? <==>
              exists j :: 0 <= j < |schedule.States()| &&
                          schedule.States()[j].list(f.bucket, PrefixRequest(f.name + "/")).Ok?
  {
  }

  /** A listed object whose name could have come from an address parses
      back, from its rendered form, to that bucket and name. */
  lemma ListedAddressParses(o: StoredObject)
    requires o.bucket != [] && '/' !in o.bucket
    requires o.name != [] && o.name[0] != '/' && '\n' !in o.name
    ensures ParseFile(ListedAddress(o)).Ok?
    ensures ParseFile(ListedAddress(o)).value.bucket == o.bucket
    ensures ListingPrefix(ParseFile(ListedAddress(o)).value) == o.name
  {
    ListingPrefixOfWellFormed(o.bucket, o.name);
  }
}
