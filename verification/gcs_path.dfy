/** Addresses of Google Cloud Storage objects (`src/gcs/mod.rs`): the
    `GcsFile` and `GcsBucket` records, their parsing from the serialised
    form of a URL, and the `Display` rendering of a `GcsFile`.

    Parsing is driven by the regular expression
    `gs://(?P<bucket>[^/]*)/?(?P<name>.*)`, searched (not anchored) in the
    string. It is modelled exactly: the leftmost `gs://`, then the longest run
    without `/` as the bucket, then one optional `/`, then the longest run
    without a newline as the name (`.` does not match `\n`). */
module GcsPath {
  import opened Wrappers
  import opened Text
  import CloudStorage
  import Codec

  /** `FileUtilGcsError`. */
  datatype GcsError =
    | InvalidBucketPath(message: string)
    | UrlParseFailed
    | StorageAccess(storageError: CloudStorage.StorageError)
    | InvalidGcsUrl(url: string)
    | CompressionFailed(compressionError: Codec.CompressionError)

  const Scheme: string := "gs://"

  function NotGsMessage(u: string): string {
    "is not a valid gs address  " + u
  }

  /** An object address. `trailingSlash` records that the address ended in
      `/`, which has been removed from `name`. */
  datatype GcsFile = GcsFile(bucket: string, name: string, trailingSlash: bool)

  /** A bucket-only address. */
  datatype GcsBucket = GcsBucket(bucket: string)

  /** The two named groups of a regex match. */
  datatype Captured = Captured(bucket: string, name: string)

  /** Leftmost index, at or after `i`, where `gs://` occurs in `s`. */
  function SchemeIndexFrom(s: string, i: nat): (r: Option<nat>)
    requires i <= |s|
    ensures r.Some? ==> i <= r.value && OccursAt(s, Scheme, r.value)
    ensures forall j :: i <= j && (r.None? || j < r.value) ==> !OccursAt(s, Scheme, j)
    decreases |s| - i
  {
    if |s| < i + |Scheme| then None
    else if OccursAt(s, Scheme, i) then Some(i)
    else SchemeIndexFrom(s, i + 1)
  }

  /** The groups matched in the text that follows `gs://`: the bucket is
      the longest prefix without `/`; the name starts after the `/` that
      ends it (if any) and runs to the first newline. */
  function SplitAfterScheme(rest: string): (c: Captured)
    ensures StartsWith(rest, c.bucket) && '/' !in c.bucket
    ensures |c.bucket| == |rest| || rest[|c.bucket|] == '/'
    ensures |c.bucket| == |rest| ==> c.name == []
    ensures |c.bucket| < |rest| ==> StartsWith(rest[|c.bucket| + 1..], c.name)
    ensures |c.bucket| < |rest| ==>
              |c.bucket| + 1 + |c.name| == |rest| || rest[|c.bucket| + 1 + |c.name|] == '\n'
    ensures '\n' !in c.name
  {
    var k := SpanWithout(rest, '/');
    var afterSlash := if k < |rest| then rest[k + 1..] else [];
    var m := SpanWithout(afterSlash, '\n');
    Captured(rest[..k], afterSlash[..m])
  }

  /** `GCS_BUCKET_RE.captures(s)`. */
  function Captures(s: string): (r: Option<Captured>)
    ensures r.Some? ==> '/' !in r.value.bucket && '\n' !in r.value.name
  {
    match SchemeIndexFrom(s, 0)
    case None => None
    case Some(i) => Some(SplitAfterScheme(s[i + |Scheme|..]))
  }

  /** On a string that starts with `gs://` the match starts at index 0. */
  lemma CapturesOfPrefixed(s: string)
    requires StartsWith(s, Scheme)
    ensures Captures(s) == Some(SplitAfterScheme(s[|Scheme|..]))
  {
    assert OccursAt(s, Scheme, 0);
  }

  /** The parse of `gs://` followed by `rest` depends only on the groups
      matched in `rest`. */
  lemma ParseOfPrefixed(rest: string)
    ensures ParseFile(Scheme + rest) == FileFromCaptures(Scheme + rest, SplitAfterScheme(rest))
    ensures ParseBucket(Scheme + rest) == BucketFromCaptures(Scheme + rest, SplitAfterScheme(rest))
  {
    var u := Scheme + rest;
    assert u[..|Scheme|] == Scheme;
    assert u[|Scheme|..] == rest;
    CapturesOfPrefixed(u);
  }

  /** What every successfully parsed `GcsFile` satisfies. */
  predicate Canonical(f: GcsFile) {
    && f.bucket != [] && '/' !in f.bucket
    && f.name != [] && f.name[0] != '/' && '\n' !in f.name
    && (f.trailingSlash || !EndsWith(f.name, "/"))
  }

  /** `GcsFile::new_with_url`, applied to `url.as_str()`. */
  function ParseFile(u: string): (r: Result<GcsFile, GcsError>)
    ensures r.Ok? ==> StartsWith(u, Scheme) && Canonical(r.value)
    ensures !StartsWith(u, Scheme) ==> r == Err(InvalidBucketPath(NotGsMessage(u)))
  {
    if !StartsWith(u, Scheme) then Err(InvalidBucketPath(NotGsMessage(u)))
    else
      match Captures(u)
      case None => Err(InvalidBucketPath(u))
      case Some(c) => FileFromCaptures(u, c)
  }

  /** The checks `parse_bucket_and_name_from_url` applies to a match of `u`:
      bucket and name must be non-empty and the name must not start with `/`;
      one trailing `/` of the name becomes `trailingSlash`. */
  function FileFromCaptures(u: string, c: Captured): (r: Result<GcsFile, GcsError>)
    requires '/' !in c.bucket && '\n' !in c.name
    ensures r.Ok? ==> Canonical(r.value) && r.value.bucket == c.bucket
                      && WithTrailingSlash(r.value.name, r.value.trailingSlash) == c.name
    ensures r.Err? <==> c.bucket == [] || c.name == [] || c.name[0] == '/'
    ensures r.Err? ==> r.error == InvalidGcsUrl(u)
  {
    assert c.name != [] ==> (StartsWith(c.name, "/") <==> c.name[0] == '/') by {
      if c.name != [] {
        assert c.name[..1] == [c.name[0]];
      }
    }
    if c.bucket == [] || c.name == [] || StartsWith(c.name, "/") then Err(InvalidGcsUrl(u))
    else
      var stripped := StripTrailingSlash(c.name);
      assert stripped.0 != [] && stripped.0[0] == c.name[0] by {
        if stripped.1 {
          assert c.name == stripped.0 + "/";
        }
      }
      assert '\n' !in stripped.0 by {
        assert c.name == WithTrailingSlash(stripped.0, stripped.1);
        assert forall i :: 0 <= i < |stripped.0| ==> stripped.0[i] == c.name[i];
      }
      Ok(GcsFile(c.bucket, stripped.0, stripped.1))
  }

  /** `Display for GcsFile`: `gs://`, the bucket, one '/', then the name,
      with a '/' appended for a directory address. */
  function Render(f: GcsFile): (r: string)
    ensures StartsWith(r, Scheme + f.bucket + "/")
    ensures |r| == |Scheme| + |f.bucket| + 1 + |f.name| + (if f.trailingSlash then 1 else 0)
    ensures EndsWith(r, "/") <==> f.trailingSlash || f.name == [] || EndsWith(f.name, "/")
  {
    Scheme + f.bucket + "/" + WithTrailingSlash(f.name, f.trailingSlash)
  }

  /** `GcsBucket::new_with_url`, applied to `url.as_str()`. */
  function ParseBucket(u: string): (r: Result<GcsBucket, GcsError>)
    ensures r.Ok? ==> StartsWith(u, Scheme) && r.value.bucket != [] && '/' !in r.value.bucket
    ensures !StartsWith(u, Scheme) ==> r == Err(InvalidBucketPath(NotGsMessage(u)))
  {
    if !StartsWith(u, Scheme) then Err(InvalidBucketPath(NotGsMessage(u)))
    else
      match Captures(u)
      case None => Err(InvalidBucketPath(u))
      case Some(c) => BucketFromCaptures(u, c)
  }

  /** The check `GcsBucket::parse_bucket_and_name_from_url` applies to a
      match of `u`: after dropping one trailing `/`, the bucket must be
      non-empty. */
  function BucketFromCaptures(u: string, c: Captured): (r: Result<GcsBucket, GcsError>)
    requires '/' !in c.bucket
    ensures r.Ok? <==> c.bucket != []
    ensures r.Ok? ==> r.value.bucket == c.bucket
    ensures r.Err? ==> r.error == InvalidGcsUrl(u)
  {
    var bucket := StripTrailingSlash(c.bucket).0;
    BucketHasNoTrailingSlash(c.bucket);
    if bucket == [] then Err(InvalidGcsUrl(u)) else Ok(GcsBucket(bucket))
  }

  /** The strip of a trailing `/` from the captured bucket never applies:
      `[^/]*` cannot capture a `/`. */
  lemma BucketHasNoTrailingSlash(bucket: string)
    requires '/' !in bucket
    ensures StripTrailingSlash(bucket) == (bucket, false)
  {
  }

  // ---------------------------------------------------------------------
  // Parsing facts.

  /** The groups of `b + "/" + n` when `b` has no `/` and `n` no newline. */
  lemma SplitOfWellFormed(b: string, n: string)
    requires '/' !in b && '\n' !in n
    ensures SplitAfterScheme(b + "/" + n) == Captured(b, n)
  {
    var rest := b + "/" + n;
    assert rest[|b|] == '/';
    assert forall i :: 0 <= i < |b| ==> rest[i] == b[i];
    SpanWithoutIsUnique(rest, '/', |b|);
    assert rest[|b| + 1..] == n;
    SpanWithoutIsUnique(n, '\n', |n|);
    assert rest[..|b|] == b;
    assert n[..|n|] == n;
  }

  /** A well-formed address `gs://b/n` parses to bucket `b`; the name is `n`
      minus exactly one trailing `/`, whose presence sets `trailingSlash`. */
  lemma ParseWellFormed(b: string, n: string)
    requires b != [] && '/' !in b
    requires n != [] && n[0] != '/' && '\n' !in n
    ensures EndsWith(n, "/") ==> ParseFile(Scheme + b + "/" + n) == Ok(GcsFile(b, n[..|n| - 1], true))
    ensures !EndsWith(n, "/") ==> ParseFile(Scheme + b + "/" + n) == Ok(GcsFile(b, n, false))
  {
    var u := Scheme + b + "/" + n;
    ParseWellFormedCaptures(b, n);
    FileFromWellFormedCaptures(u, b, n);
  }

  lemma ParseWellFormedCaptures(b: string, n: string)
    requires '/' !in b && '\n' !in n
    ensures ParseFile(Scheme + b + "/" + n) == FileFromCaptures(Scheme + b + "/" + n, Captured(b, n))
  {
    var u := Scheme + b + "/" + n;
    var rest := b + "/" + n;
    assert u == Scheme + rest by {
      ConcatAssoc(Scheme, b, "/", n);
    }
    assert ParseFile(u) == FileFromCaptures(u, SplitAfterScheme(rest)) by {
      ParseOfPrefixed(rest);
    }
    assert SplitAfterScheme(rest) == Captured(b, n) by {
      SplitOfWellFormed(b, n);
    }
  }

  lemma FileFromWellFormedCaptures(u: string, b: string, n: string)
    requires b != [] && '/' !in b
    requires n != [] && n[0] != '/' && '\n' !in n
    ensures EndsWith(n, "/") ==> FileFromCaptures(u, Captured(b, n)) == Ok(GcsFile(b, n[..|n| - 1], true))
    ensures !EndsWith(n, "/") ==> FileFromCaptures(u, Captured(b, n)) == Ok(GcsFile(b, n, false))
  {
    var f := FileFromCaptures(u, Captured(b, n)).value;
    if f.trailingSlash {
      assert n == f.name + "/";
      assert n[|n| - 1..] == "/";
      assert n[..|n| - 1] == f.name;
    }
  }

  /** `gs://b/n` and `gs://b/n/` name the same bucket and base name and
      differ only in `trailingSlash`. */
  lemma FileAndDirectoryAgree(b: string, n: string)
    requires b != [] && '/' !in b
    requires n != [] && n[0] != '/' && '\n' !in n && !EndsWith(n, "/")
    ensures ParseFile(Scheme + b + "/" + n) == Ok(GcsFile(b, n, false))
    ensures ParseFile(Scheme + b + "/" + n + "/") == Ok(GcsFile(b, n, true))
  {
    assert ParseFile(Scheme + b + "/" + n) == Ok(GcsFile(b, n, false)) by {
      ParseWellFormed(b, n);
    }
    var d := n + "/";
    assert ParseFile(Scheme + b + "/" + d) == Ok(GcsFile(b, n, true)) by {
      DirectoryName(n);
      ParseWellFormed(b, d);
    }
    assert Scheme + b + "/" + n + "/" == Scheme + b + "/" + d by {}
  }

  lemma DirectoryName(n: string)
    requires n != [] && n[0] != '/' && '\n' !in n
    ensures (n + "/")[0] != '/' && '\n' !in n + "/"
    ensures EndsWith(n + "/", "/") && (n + "/")[..|n|] == n
  {
    var d := n + "/";
    assert d[|d| - 1..] == "/";
  }

  /** A bare bucket address `gs://b` (including `gs://`) has no object name,
      so it is not a `GcsFile`. */
  lemma ParseRejectsBareBucket(b: string)
    requires '/' !in b
    ensures ParseFile(Scheme + b) == Err(InvalidGcsUrl(Scheme + b))
  {
    ParseOfPrefixed(b);
    SpanWithoutIsUnique(b, '/', |b|);
  }

  /** An empty bucket (`gs:///n`) is rejected. */
  lemma ParseRejectsEmptyBucket(n: string)
    ensures ParseFile(Scheme + "/" + n) == Err(InvalidGcsUrl(Scheme + "/" + n))
  {
    ParseOfPrefixed("/" + n);
    assert Scheme + "/" + n == Scheme + ("/" + n);
    SpanWithoutIsUnique("/" + n, '/', 0);
  }

  /** A doubled separator after the bucket (`gs://b//n`, `gs://b//`) makes
      the name start with `/`, which is rejected. */
  lemma ParseRejectsDoubleSlash(b: string, n: string)
    requires '/' !in b
    ensures ParseFile(Scheme + b + "//" + n) == Err(InvalidGcsUrl(Scheme + b + "//" + n))
  {
    var u := Scheme + b + "//" + n;
    var rest := b + "//" + n;
    assert u == Scheme + rest by {
      assert Scheme + b + "//" + n == Scheme + (b + "//" + n);
    }
    assert ParseFile(u) == FileFromCaptures(u, SplitAfterScheme(rest)) by {
      ParseOfPrefixed(rest);
    }
    var c := SplitAfterScheme(rest);
    assert c.name != [] && c.name[0] == '/' by {
      SplitOfDoubleSlash(b, n);
    }
  }

  lemma SplitOfDoubleSlash(b: string, n: string)
    requires '/' !in b
    ensures SplitAfterScheme(b + "//" + n).name != []
    ensures SplitAfterScheme(b + "//" + n).name[0] == '/'
  {
    var rest := b + "//" + n;
    assert forall i :: 0 <= i < |b| ==> rest[i] != '/' by {
      assert forall i :: 0 <= i < |b| ==> rest[i] == b[i];
    }
    assert rest[|b|] == '/' && rest[|b| + 1] == '/' by {
      assert (b + "//")[|b|] == '/' && (b + "//")[|b| + 1] == '/';
    }
    BucketLength(rest, |b|);
    NameAfterBucket(rest, |b|);
  }

  /** The bucket group stops at the first `/`. */
  lemma BucketLength(rest: string, k: nat)
    requires k < |rest| && rest[k] == '/'
    requires forall i :: 0 <= i < k ==> rest[i] != '/'
    ensures |SplitAfterScheme(rest).bucket| == k
  {
    SpanWithoutIsUnique(rest, '/', k);
  }

  /** After a bucket of length `k` and its `/`, the name group starts with
      the next character unless that is a newline. */
  lemma NameAfterBucket(rest: string, k: nat)
    requires k + 1 < |rest| && rest[k + 1] != '\n'
    requires |SplitAfterScheme(rest).bucket| == k
    ensures SplitAfterScheme(rest).name != []
    ensures SplitAfterScheme(rest).name[0] == rest[k + 1]
  {
    var c := SplitAfterScheme(rest);
    assert rest[k + 1..][..|c.name|] == c.name;
  }

  /** Without a newline, the text after `gs://` is the bucket, a `/` and the
      name, whenever the name is non-empty. */
  lemma SplitRecomposes(rest: string)
    requires '\n' !in rest
    requires SplitAfterScheme(rest).name != []
    ensures rest == SplitAfterScheme(rest).bucket + "/" + SplitAfterScheme(rest).name
  {
    var c := SplitAfterScheme(rest);
    var k := |c.bucket|;
    assert k < |rest|;
    assert rest[..k] == c.bucket;
    var tail := rest[k + 1..];
    assert tail[..|c.name|] == c.name;
    assert forall i :: 0 <= i < |rest| ==> rest[i] != '\n';
    assert tail == c.name;
    assert rest == rest[..k] + [rest[k]] + tail;
  }

  /** Rendering a parsed address gives back the string it was parsed from,
      `gs://b/n` as well as `gs://b/n/`, whenever that string has no newline
      (the name group stops at a newline). */
  lemma RenderAfterParse(u: string)
    requires ParseFile(u).Ok?
    requires '\n' !in u
    ensures Render(ParseFile(u).value) == u
  {
    var rest := u[|Scheme|..];
    var c := SplitAfterScheme(rest);
    assert ParseFile(u) == FileFromCaptures(u, c) && u == Scheme + rest && '\n' !in rest by {
      ParseViaCaptures(u);
    }
    assert Render(ParseFile(u).value) == Scheme + c.bucket + "/" + c.name by {
      RenderFromCaptures(u, c);
    }
    assert rest == c.bucket + "/" + c.name by {
      SplitRecomposes(rest);
    }
    assert Scheme + c.bucket + "/" + c.name == Scheme + rest by {
      ConcatAssoc(Scheme, c.bucket, "/", c.name);
    }
  }

  lemma ConcatAssoc(a: string, b: string, c: string, d: string)
    ensures a + b + c + d == a + (b + c + d)
  {
  }

  lemma ParseViaCaptures(u: string)
    requires StartsWith(u, Scheme)
    ensures u == Scheme + u[|Scheme|..]
    ensures '\n' !in u ==> '\n' !in u[|Scheme|..]
    ensures ParseFile(u) == FileFromCaptures(u, SplitAfterScheme(u[|Scheme|..]))
  {
    var rest := u[|Scheme|..];
    assert u == Scheme + rest;
    ParseOfPrefixed(rest);
  }

  lemma RenderFromCaptures(u: string, c: Captured)
    requires '/' !in c.bucket && '\n' !in c.name
    requires FileFromCaptures(u, c).Ok?
    ensures Render(FileFromCaptures(u, c).value) == Scheme + c.bucket + "/" + c.name
  {
  }

  /** Parsing the rendering of a canonical address gives the address back. */
  lemma ParseAfterRender(f: GcsFile)
    requires Canonical(f)
    ensures ParseFile(Render(f)) == Ok(f)
  {
    var n := WithTrailingSlash(f.name, f.trailingSlash);
    if f.trailingSlash {
      DirectoryName(f.name);
    }
    ParseWellFormed(f.bucket, n);
  }

  // ---------------------------------------------------------------------
  // Bucket parsing facts.

  /** The bucket group of `b + tail` is `b` when `tail` is empty or
      starts with `/`. */
  lemma SplitBucketOf(b: string, tail: string)
    requires '/' !in b
    requires tail == [] || tail[0] == '/'
    ensures SplitAfterScheme(b + tail).bucket == b
  {
    var rest := b + tail;
    assert forall i :: 0 <= i < |b| ==> rest[i] == b[i];
    if tail != [] {
      assert rest[|b|] == tail[0];
    }
    SpanWithoutIsUnique(rest, '/', |b|);
    assert rest[..|b|] == b;
  }

  /** `gs://b` and `gs://b/anything` are bucket addresses of `b`. */
  lemma ParseBucketAccepts(b: string, tail: string)
    requires b != [] && '/' !in b
    requires tail == [] || tail[0] == '/'
    ensures ParseBucket(Scheme + b + tail) == Ok(GcsBucket(b))
  {
    ParseOfPrefixed(b + tail);
    assert Scheme + b + tail == Scheme + (b + tail);
    SplitBucketOf(b, tail);
  }

  /** `gs://` and `gs:///...` have an empty bucket and are rejected. */
  lemma ParseBucketRejectsEmpty(tail: string)
    requires tail == [] || tail[0] == '/'
    ensures ParseBucket(Scheme + tail) == Err(InvalidGcsUrl(Scheme + tail))
  {
    ParseOfPrefixed(tail);
    SpanWithoutIsUnique(tail, '/', 0);
  }

  /** Every `GcsFile` address is also a bucket address of the same bucket. */
  lemma FileAddressIsBucketAddress(u: string)
    requires ParseFile(u).Ok?
    ensures ParseBucket(u) == Ok(GcsBucket(ParseFile(u).value.bucket))
  {
    var rest := u[|Scheme|..];
    assert u == Scheme + rest;
    ParseOfPrefixed(rest);
  }

  /** `GcsFile::new`: the URL parser (outside this model, given as
      `parseUrl`, yielding the URL's serialisation) must accept the string,
      and its serialisation is then parsed as an address. */
  function NewFile(parseUrl: string -> Option<string>, s: string): (r: Result<GcsFile, GcsError>)
    ensures parseUrl(s).None? ==> r == Err(UrlParseFailed)
    ensures r.Ok? ==> parseUrl(s).Some? && StartsWith(parseUrl(s).value, Scheme) && Canonical(r.value)
    ensures r.Ok? ==> Render(r.value) == parseUrl(s).value || '\n' in parseUrl(s).value
    ensures parseUrl(s).Some? ==> r == ParseFile(parseUrl(s).value)
  {
    match parseUrl(s)
    case None => Err(UrlParseFailed)
    case Some(u) =>
      assert ParseFile(u).Ok? && '\n' !in u ==> Render(ParseFile(u).value) == u by {
        if ParseFile(u).Ok? && '\n' !in u {
          RenderAfterParse(u);
        }
      }
      ParseFile(u)
  }

  /** `GcsBucket::new`, with the same URL parser as `NewFile`. */
  function NewBucket(parseUrl: string -> Option<string>, s: string): (r: Result<GcsBucket, GcsError>)
    ensures parseUrl(s).None? ==> r == Err(UrlParseFailed)
    ensures r.Ok? ==> parseUrl(s).Some? && StartsWith(parseUrl(s).value, Scheme)
    ensures r.Ok? ==> r.value.bucket != [] && '/' !in r.value.bucket
    ensures parseUrl(s).Some? ==> r == ParseBucket(parseUrl(s).value)
  {
    match parseUrl(s)
    case None => Err(UrlParseFailed)
    case Some(u) => ParseBucket(u)
  }

  /** `GcsFile::new` accepts every URL serialising to a well-formed
      `gs://b/n`, with bucket `b`. */
  lemma NewFileAccepts(parseUrl: string -> Option<string>, s: string, b: string, n: string)
    requires b != [] && '/' !in b
    requires n != [] && n[0] != '/' && '\n' !in n
    requires parseUrl(s) == Some(Scheme + b + "/" + n)
    ensures NewFile(parseUrl, s).Ok?
    ensures NewFile(parseUrl, s).value.bucket == b
    ensures NewFile(parseUrl, s).value.name == n || NewFile(parseUrl, s).value.name + "/" == n
  {
    ParseWellFormed(b, n);
    if EndsWith(n, "/") {
      assert n == n[..|n| - 1] + "/";
    }
  }

  /** `GcsBucket::new` accepts every URL serialising to `gs://b` or
      `gs://b/...`, with bucket `b`. */
  lemma NewBucketAccepts(parseUrl: string -> Option<string>, s: string, b: string, tail: string)
    requires b != [] && '/' !in b
    requires tail == [] || tail[0] == '/'
    requires parseUrl(s) == Some(Scheme + b + tail)
    ensures NewBucket(parseUrl, s) == Ok(GcsBucket(b))
  {
    ParseBucketAccepts(b, tail);
  }
}
