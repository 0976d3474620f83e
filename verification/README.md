# A verified model of the file-util core: `gs://` addresses, optional codecs, backend dispatch

This project models, in Dafny, the core of a small Rust library that reads, writes, lists, checks and
deletes files. A file may live in Google Cloud Storage (GCS), at a web URL, or on the local disk. The model covers three parts:

- **Addresses** (`gcs_path.dfy`, module `GcsPath`). `GcsFile` and `GcsBucket` are parsed from the serialised
  form of a URL. Parsing uses the regular expression `gs://(?P<bucket>[^/]*)/?(?P<name>.*)`, which the model
  reproduces exactly:
  - the search is unanchored and finds the leftmost `gs://`;
  - the bucket is the longest run without `/`;
  - then comes one optional `/`;
  - the name is the longest run without a newline.

  `GcsFile` has a `Display` rendering, modelled as `Render`.
- **Storage calls** (`gcs_store.dfy`, module `GcsStore`):
  - the single calls `object_exists`, `find_object`, `list_objects`, `download_object`, `create_object` and `delete_object`;
  - the exists-then-fetch `download`;
  - the `*_with_retry` operations of a `GcsFile`.

  The storage service is a `Backend` record of total functions (`cloud_storage.dfy`).
  The retry loop (`backoff.dfy`) runs an attempt once per backend state in a `Schedule`.
  It stops at a success or a permanent error; after a transient error it moves to the next state.
- **Codecs** (`codec.dfy`, module `Codec`): `Compression::compress` and `decompress`, `decompress_opt`, `compress_opt` and `Compression::from_extention`.
  Byte strings are `Octets.Bytes` (`octets.dfy`).
  The gzip functions are uninterpreted and fallible.
- **Dispatch** (`dispatch.dfy`, module `Dispatch`): the six public operations of `src/lib.rs`. Each picks
  its backend in a fixed order:
  1. a URL whose serialisation parses as a `GcsFile` goes to GCS;
  2. any other URL goes to the web;
  3. anything else goes to the local file system.

  URL parsing is an abstract function `parseUrl` that yields the URL's serialisation. Panics
  (`unimplemented!`, `unwrap`) are an explicit `Panics` outcome.

### Asymmetries in the code

- A directory address is treated differently by delete than by the other single-object operations.
  - `is_exists_with_retry`, `download_with_retry` and `write_with_retry` refuse an address whose `trailing_slash`
    flag is set before any backend call (src/gcs/mod.rs:189-194, 226-231, 259-264).
  - `delete_with_retry` has no such check (src/gcs/mod.rs:280-288).
  - `delete_object` only refuses a *name* ending in `/`, and the parser has already removed that `/`.
  - So `gs://b/d/` deletes the object `d` (`GcsStore.DeleteOfDirectoryAddress`, `Dispatch.DirectoryAddressOperations`),
    while reading, checking or writing it fails (`GcsStore.DirectoryAddressRefused`).

  The model follows the code.
- The round trip `Render(parse(u)) == u` holds only when `u` has no newline, because the regex's `.` stops at `\n`.

## Model

| member | source | states |
|---|---|---|
| Text.StripTrailingSlash | src/gcs/mod.rs:152-156 | splitting off one trailing `/` into a flag and re-appending it gives back the original name; the flag is set exactly when the name ends in `/` |
| Codec.Compress | src/compression/mod.rs:19-23 | gzip compression is exactly the gzip codec's compression of the bytes, its result or error passed on unchanged |
| Codec.Decompress | src/compression/mod.rs:25-29 | gzip decompression is exactly the gzip codec's decompression of the bytes, its result or error passed on unchanged |
| Codec.DecompressOpt | src/compression/mod.rs:46-58 | absent data stays absent for every codec choice; no codec returns the data unchanged; with a codec, the result is the decoder's output, its error propagated, never swallowed |
| Codec.CompressOpt | src/compression/mod.rs:60-67 | no codec returns the bytes unchanged; a chosen codec is applied unconditionally and its result or error is returned as is |
| Codec.OptRoundTrip | src/compression/mod.rs:46-67 | if the gzip codec round-trips, decompressing with the same choice restores the original bytes |
| Codec.Extension | src/compression/mod.rs:32-35 | the extension is the text after the last `.` of the file name, has no `.`, and is absent when the only dot is leading |
| Codec.ExtensionOfJoin | src/compression/mod.rs:32-35 | a path `dir/stem.ext` with a non-empty stem has extension `ext` |
| Codec.FromExtension | src/compression/mod.rs:31-43 | gzip is selected exactly when the extension is `gz` or `gzip` |
| Codec.FromExtensionOfJoin | src/compression/mod.rs:36-41 | for `stem.ext`, gzip exactly when `ext` is `gz` or `gzip`, compared case-sensitively; any other extension gives none |
| Codec.GzExample | src/compression/mod.rs:39 | `gs://mybucket/data/file.gz` selects gzip |
| Codec.GzipExample | src/compression/mod.rs:39 | `archive.tar.gzip` selects gzip |
| Codec.UpperCaseExample | src/compression/mod.rs:38-40 | `file.GZ` selects nothing: matching is case-sensitive |
| Codec.LeadingDotExample | src/compression/mod.rs:37 | `.gz` has no extension, so it selects nothing |
| GcsPath.SchemeIndexFrom | src/gcs/mod.rs:43 | the regex search finds the leftmost occurrence of `gs://` |
| GcsPath.SplitAfterScheme | src/gcs/mod.rs:43 | the bucket group is the longest `/`-free prefix, followed by the end or a `/`; the name group follows that `/` and runs to the end or a newline |
| GcsPath.Captures | src/gcs/mod.rs:103 | a match's bucket group has no `/` and its name group no newline |
| GcsPath.ParseFile | src/gcs/mod.rs:170-186 | a string without the `gs://` prefix is refused with the "not a valid gs address" message; every accepted address is canonical: bucket non-empty without `/`, name non-empty, no leading `/`, no newline |
| GcsPath.FileFromCaptures | src/gcs/mod.rs:102-123 | the captures are refused exactly when the bucket is empty, the name is empty, or the name starts with `/`; otherwise the bucket is kept, and name plus flag re-append to the captured name |
| GcsPath.ParseWellFormed | src/gcs/mod.rs:102-123 | `gs://b/n` with a valid `b` and `n` parses to bucket `b`; the name is `n` minus exactly one trailing `/`, whose presence sets `trailingSlash` |
| GcsPath.FileAndDirectoryAgree | src/gcs/mod.rs:114-119 | `gs://b/n` and `gs://b/n/` give the same bucket and name and differ only in the flag |
| GcsPath.ParseRejectsBareBucket | src/gcs/mod.rs:111 | `gs://b` with no object name is refused as an invalid GCS URL |
| GcsPath.ParseRejectsEmptyBucket | src/gcs/mod.rs:111 | `gs:///n` is refused: empty bucket |
| GcsPath.ParseRejectsDoubleSlash | src/gcs/mod.rs:111 | `gs://b//n` is refused: the name starts with `/` |
| GcsPath.SplitRecomposes | src/gcs/mod.rs:43 | without a newline, the text after `gs://` is exactly bucket, `/`, name whenever the name is non-empty |
| GcsPath.Render | src/gcs/mod.rs:291-296 | the rendering starts with `gs://`, the bucket and one `/`; it is one character longer for a directory address; it ends in `/` iff the flag is set, the name is empty or the name ends in `/` |
| GcsPath.RenderAfterParse | src/gcs/mod.rs:291-296 | rendering a parsed address reproduces the input string, `gs://b/n` and `gs://b/n/` alike, when it has no newline |
| GcsPath.ParseAfterRender | src/gcs/mod.rs:291-296 | parsing the rendering of a canonical address gives that address back |
| GcsPath.ParseBucket | src/gcs/mod.rs:74-86 | a string without `gs://` is refused; an accepted bucket is non-empty and has no `/` |
| GcsPath.BucketFromCaptures | src/gcs/mod.rs:52-72 | accepted exactly when the bucket group is non-empty, and then it is that group |
| GcsPath.BucketHasNoTrailingSlash | src/gcs/mod.rs:60-64 | the trailing-`/` strip on the bucket never applies, as the bucket group holds no `/` |
| GcsPath.ParseBucketAccepts | src/gcs/mod.rs:52-86 | `gs://b` and `gs://b/anything` parse to bucket `b` |
| GcsPath.ParseBucketRejectsEmpty | src/gcs/mod.rs:65-66 | `gs://` and `gs:///...` are refused: empty bucket |
| GcsPath.FileAddressIsBucketAddress | src/gcs/mod.rs:52-123 | every address accepted as a file is accepted as a bucket address of the same bucket |
| GcsPath.NewFile | src/gcs/mod.rs:125-128 | a string the URL parser rejects fails with a URL-parse error; otherwise the result is exactly the address parse of the URL's serialisation, so an accepted file is canonical and renders back to it |
| GcsPath.NewFileAccepts | src/gcs/mod.rs:125-128 | every URL serialising to a well-formed `gs://b/n` is accepted, with bucket `b` and name `n` less at most one trailing `/` |
| GcsPath.NewBucket | src/gcs/mod.rs:88-91 | a string the URL parser rejects fails with a URL-parse error; otherwise the result is exactly the bucket parse of the URL's serialisation, so an accepted bucket is non-empty without `/` |
| GcsPath.NewBucketAccepts | src/gcs/mod.rs:88-91 | every URL serialising to `gs://b` or `gs://b/...` with a valid `b` is accepted as bucket `b` |
| Backoff.RetryFrom | src/gcs/mod.rs:196-210 | attempts run in order; all but the last were transient; the result is the last attempt's value or error; a final transient means the states ran out |
| Backoff.Retry | src/gcs/mod.rs:196-210 | the same, from the first state of the schedule |
| Backoff.RetrySucceedsAfterTransients | src/gcs/mod.rs:196-210 | `k` transient failures then a success return that value after exactly `k + 1` attempts |
| Backoff.RetryExhausted | src/gcs/mod.rs:196-210 | when every attempt fails transiently, all states are tried and the last error is returned |
| Backoff.RetryPermanentIsFinal | src/gcs/mod.rs:196-210 | after `k` transient failures, a permanent failure returns its error after exactly `k + 1` attempts, whatever later states hold |
| Backoff.RetryWithoutPermanent | src/gcs/mod.rs:196-210 | with no permanent failures, the retry succeeds iff some attempt succeeds, with the value of the first attempt that succeeds (every earlier one was transient); otherwise it returns the last attempt's error |
| GcsStore.ObjectExists | src/gcs/mod.rs:298-324 | a name ending in `/` is refused before the backend is asked; `true` iff the read succeeds; `false` iff it fails with a Google `NotFound`; any other failure is a storage error |
| GcsStore.PrefixRequest | src/gcs/mod.rs:326-372 | the listing request sets the prefix and leaves every other field unset |
| GcsStore.FlattenSnoc | src/gcs/mod.rs:407-411 | appending a page appends its items at the end |
| GcsStore.FlattenContains | src/gcs/mod.rs:403-411 | an object is listed iff some page holds it: nothing lost, nothing invented |
| GcsStore.CollectItems | src/gcs/mod.rs:407-411 | the append loop yields the pages' items concatenated in order |
| GcsStore.ListObjects | src/gcs/mod.rs:399-412 | success iff the listing succeeds, with the items of all pages in order; a failed listing gives its error and no partial result |
| GcsStore.FirstNamed | src/gcs/mod.rs:388-391 | the match has the queried name and no earlier item does; none iff no item has that name |
| GcsStore.FirstNamedConcat | src/gcs/mod.rs:387-396 | searching two runs of items finds the first run's match, else the second's |
| GcsStore.FindInPages | src/gcs/mod.rs:387-396 | the page-by-page early-return search finds exactly the first match in the flattened listing |
| GcsStore.FindObject | src/gcs/mod.rs:374-397 | a name ending in `/` is refused; otherwise the first listed object with exactly that name, or the listing's error |
| GcsStore.DownloadObject | src/gcs/mod.rs:414-424 | a name ending in `/` is refused; otherwise the backend's bytes or its error |
| GcsStore.CreateObject | src/gcs/mod.rs:426-435 | no guard; the backend's created object or its error |
| GcsStore.DeleteObject | src/gcs/mod.rs:437-447 | a path ending in `/` is refused; otherwise success iff the backend deletes |
| GcsStore.Download | src/gcs/mod.rs:213-219 | none whenever the existence check is not `Ok(true)`; bytes iff it is and the fetch succeeds; an error exactly when it is and the fetch fails, and then the fetch's error |
| GcsStore.DownloadSwallowsReadErrors | src/gcs/mod.rs:213-219 | a read failure other than `NotFound` is an error of the existence check but reads as an absent object |
| GcsStore.ListingPrefix | src/gcs/mod.rs:135-139 | the prefix sent ends with `/` when the flag is set; it is the name plus `/` iff the flag is set |
| GcsStore.ListedAddress | src/gcs/mod.rs:148-164 | a listed object is shown as exactly `gs://` + bucket + `/` + name |
| GcsStore.ListAttempt | src/gcs/mod.rs:134-166 | never permanent; succeeds iff the listing does, with one address per listed item in order |
| GcsStore.ExistsAttempt | src/gcs/mod.rs:196-209 | never permanent; succeeds iff the existence check does, with its answer |
| GcsStore.DownloadAttempt | src/gcs/mod.rs:233-246 | never permanent; succeeds iff the download does |
| GcsStore.WriteAttempt | src/gcs/mod.rs:268-276 | never permanent; succeeds iff the backend creates the object |
| GcsStore.DeleteAttempt | src/gcs/mod.rs:281-287 | never permanent; succeeds iff the delete does |
| GcsStore.ListObjectsWithRetry | src/gcs/mod.rs:130-168 | succeeds iff some attempt's listing succeeds, with the addresses of the first attempt whose listing succeeds; otherwise the last attempt's listing error |
| GcsStore.IsExistsWithRetry | src/gcs/mod.rs:188-211 | a directory address is refused before any backend call; otherwise the answer of the first attempt whose check succeeds, or the last attempt's error |
| GcsStore.DownloadWithRetry | src/gcs/mod.rs:221-250 | a directory address is refused first; when some download succeeds, the result is the first successful download passed through `decompress_opt`, a codec error becoming `CompressionFailed`; if no attempt succeeds, the last attempt's error |
| GcsStore.WriteWithRetry | src/gcs/mod.rs:252-278 | a directory address is refused first; the body is encoded once, a codec error ends the call, and success iff some attempt stores the encoded body |
| GcsStore.DeleteWithRetry | src/gcs/mod.rs:280-288 | no check of the flag; a name ending in `/` is refused on every attempt; otherwise success iff some attempt deletes |
| GcsStore.ListingPrefixOfWellFormed | src/gcs/mod.rs:135-139 | for a parsed `gs://b/n`, the listing prefix is `n` exactly as written, trailing `/` included |
| GcsStore.DeleteOfDirectoryAddress | src/gcs/mod.rs:280-288 | `gs://b/d/` is not refused by delete: for every schedule it succeeds iff some attempt deletes the object `d`, else it gives the last attempt's error; with one attempt, exactly that delete's outcome |
| GcsStore.DirectoryAddressRefused | src/gcs/mod.rs:188-264 | for a directory address, exists, download and write all fail whatever the backend holds, while listing uses `name/` as prefix |
| GcsStore.ListedAddressParses | src/gcs/mod.rs:148-165 | a listed object with a valid bucket and name renders to an address that parses back to that bucket and lists under that name |
| Dispatch.Select | src/lib.rs:35-49 | local exactly when the string is not a URL; GCS exactly when the URL parses as a file; otherwise web with the URL |
| Dispatch.LocalRead | src/fs/mod.rs:30-39 | a missing file reads as none; an existing one gives its bytes or the read error |
| Dispatch.LocalWrite | src/fs/mod.rs:40-44 | the body is encoded with `compress_opt` first; a codec error is returned, otherwise the write's result |
| Dispatch.ListFiles | src/lib.rs:30-57 | GCS listing, or a panic for other URLs, or the local directory listing |
| Dispatch.GetFileContents | src/lib.rs:70-98 | GCS download, web download, or local read by route, results unchanged; an error names the backend of the route taken |
| Dispatch.GetFileContentsStr | src/lib.rs:59-68 | errors and none pass through; bytes the decoder accepts are returned as its text, and returned text is always that decoding; a panic iff the decoder rejects the bytes |
| Dispatch.IsExists | src/lib.rs:100-122 | GCS check, web check, or local existence by route |
| Dispatch.WriteContents | src/lib.rs:124-153 | GCS write, a panic for other URLs, or the local write |
| Dispatch.DeleteContents | src/lib.rs:155-179 | returns only on the GCS route; other URLs and local paths panic |
| Dispatch.RouteOfAddress | src/lib.rs:76-83 | a URL whose serialisation parses as a file goes to GCS with that file |
| Dispatch.WellFormedGoesToGcs | src/lib.rs:76-83 | a URL serialising to a valid `gs://b/n` goes to GCS with bucket `b` and listing prefix `n` |
| Dispatch.BareBucketGoesToWeb | src/lib.rs:76-90 | `gs://b` is a valid bucket address, yet read and exists go to the web backend and list and delete panic |
| Dispatch.OtherSchemeGoesToWeb | src/lib.rs:85-89 | a URL of another scheme goes to the web backend |
| Dispatch.NonUrlGoesToLocal | src/lib.rs:30-179 | a non-URL goes to the local file system: list, read, write and exists do not depend on the GCS and web backends; deleting it panics |
| Dispatch.GcsRouteIgnoresOtherBackends | src/lib.rs:30-179 | on the GCS route the web and local backends never influence the result of list, read, read-as-text, exists or delete |
| Dispatch.GcsWriteIgnoresOtherBackends | src/lib.rs:124-153 | on the GCS route the web and local backends never influence the result of a write |
| Dispatch.WebRouteIgnoresOtherBackends | src/lib.rs:30-179 | on the web route GCS and the local file system never influence list, read, read-as-text, exists or delete |
| Dispatch.DirectoryAddressOperations | src/lib.rs:70-179 | for `gs://b/d/` and every schedule, read, exists and write are refused with the trailing-`/` error, while delete returns and succeeds iff some attempt deletes the object `d`; with one attempt, exactly that delete's outcome |

## Left out

- Network and disk I/O. `Object::read`, `list`, `download`, `create` and `delete` are fields of `CloudStorage.Backend`. The web module's two calls and the `std::fs` calls are fields of `Dispatch.WebBackend` and `Dispatch.LocalBackend`. The web and file-system modules are thin wrappers and are not otherwise modelled.
- Retry timing. `ExponentialBackoff`, its elapsed-time limit and the `backoff` crate are not visible. A `Backoff.Schedule` stands for the backend states the policy lets the attempts see. A schedule with one state is a single attempt.
- `Url::parse` and its normalisation (the `url` crate) are not visible. `Env.parseUrl` is an abstract function returning the serialised URL.
- The gzip algorithm. `Codec.GzipCodec` holds two uninterpreted, fallible functions. No round-trip property is assumed: `Codec.OptRoundTrip` takes it as a hypothesis.
- Codec.Extension: a simplified `std::path::Path::extension`. It trims trailing `/`, takes the last component, gives none for an empty name or `..`, and does not normalise `.` components. It also ignores the non-UTF-8 fallback to `""`, because strings here are already text.
- GcsPath.NewFile: states the render round trip only for serialisations without a newline. The regex name group stops at a newline, so text after it is dropped.
- GcsStore.DownloadWithRetry: states which attempt a result comes from (the first successful download), but not how many attempts were made. `Backoff.Retry` states that count.
- Dispatch.GetFileContentsStr: UTF-8 decoding is the abstract `Env.utf8`. `std::str::from_utf8` is not modelled, so which bytes are valid UTF-8, and what text they decode to, is left to that function.
- `create_bucket`, `bucket_exists` and `find_bucket` are not used by any modelled operation.
- Log messages, the `Display` text of errors, and the mime type: the mime type is passed through as an opaque `MimeType`.
- Async execution and the shared HTTP client.
- The cargo features are all taken as enabled. With some disabled, branches of `src/lib.rs` would be compiled out.
- `FileAccessor::new` never fails in the source, so it has no error path in the model.
- `list_directory` turns each directory entry into a display string. This is the abstract `readDirectory`.
