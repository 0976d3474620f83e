/** The optional-codec layer of the library (`src/compression/mod.rs`): the
    `Compression` choice, its extension table, and the two combinators that
    apply a codec only when one is selected. The gzip algorithm itself is not
    modelled: it enters as a pair of uninterpreted, fallible functions. */
module Codec {
  import opened Wrappers
  import opened Text
  import opened Octets

  /** `CompressionError`: the only variant wraps an I/O error of the codec. */
  datatype CompressionError = IOError(description: string)

  /** The codecs the library knows; gzip is the only one. */
  datatype Compression = Gzip

  /** The gzip implementation (`gzip::gzip_compress` / `gzip::gzip_decompress`). */
  datatype GzipCodec = GzipCodec(
    compress: Bytes -> Result<Bytes, CompressionError>,
    decompress: Bytes -> Result<Bytes, CompressionError>)

  /** Every successful compression can be undone. The library does not
      promise this; it is the hypothesis under which the round trip holds. */
  ghost predicate RoundTrips(codec: GzipCodec) {
    forall x :: codec.compress(x).Ok? ==> codec.decompress(codec.compress(x).value) == Ok(x)
  }

  /** `compress`: gzip hands the bytes to `gzip_compress` and passes its
      result or error on unchanged. */
  function Compress(codec: GzipCodec, c: Compression, bytes: Bytes): (r: Result<Bytes, CompressionError>)
    ensures c == Gzip ==> r == codec.compress(bytes)
  {
    match c
    case Gzip => codec.compress(bytes)
  }

  /** `decompress`: gzip hands the bytes to `gzip_decompress` and passes
      its result or error on unchanged. */
  function Decompress(codec: GzipCodec, c: Compression, bytes: Bytes): (r: Result<Bytes, CompressionError>)
    ensures c == Gzip ==> r == codec.decompress(bytes)
  {
    match c
    case Gzip => codec.decompress(bytes)
  }

  /** `decompress_opt`: absent data stays absent, no codec leaves the data as
      it is, otherwise the codec's result or error is passed on. */
  function DecompressOpt(codec: GzipCodec, data: Option<Bytes>, decompression: Option<Compression>)
    : (r: Result<Option<Bytes>, CompressionError>)
    ensures data.None? ==> r == Ok(None)
    ensures data.Some? && decompression.None? ==> r == Ok(data)
    ensures data.Some? && decompression.Some? ==>
              (r.Ok? <==> codec.decompress(data.value).Ok?)
              && (r.Ok? ==> r.value == Some(codec.decompress(data.value).value))
              && (r.Err? ==> r.error == codec.decompress(data.value).error)
    ensures r.Ok? ==> (r.value.Some? <==> data.Some?)
  {
    match (data, decompression)
    case (None, _) => Ok(None)
    case (_, None) => Ok(data)
    case (Some(contents), Some(c)) =>
      match Decompress(codec, c, contents)
      case Ok(d) => Ok(Some(d))
      case Err(e) => Err(e)
  }

  /** `compress_opt`: no codec copies the data; a codec is applied
      unconditionally, with no check for data that is already compressed. */
  function CompressOpt(codec: GzipCodec, data: Bytes, compression: Option<Compression>)
    : (r: Result<Bytes, CompressionError>)
    ensures compression.None? ==> r == Ok(data)
    ensures compression.Some? ==> r == codec.compress(data)
  {
    match compression
    case None => Ok(data)
    case Some(c) =>
      match Compress(codec, c, data)
      case Ok(d) => Ok(d)
      case Err(e) => Err(e)
  }

  /** Writing with a codec and reading back with the same choice returns the
      original bytes, whenever the codec itself round-trips. */
  lemma OptRoundTrip(codec: GzipCodec, x: Bytes, c: Option<Compression>)
    requires RoundTrips(codec)
    requires CompressOpt(codec, x, c).Ok?
    ensures DecompressOpt(codec, Some(CompressOpt(codec, x, c).value), c) == Ok(Some(x))
  {
    if c.Some? {
      assert codec.compress(x).Ok?;
    }
  }

  // ---------------------------------------------------------------------
  // File extensions (a simplified `std::path::Path::extension`).

  /** Drops every trailing `/`, as path components ignore them. */
  function TrimTrailingSlashes(s: string): (t: string)
    ensures StartsWith(s, t)
    ensures !EndsWith(t, "/")
    ensures forall i :: |t| <= i < |s| ==> s[i] == '/'
  {
    if EndsWith(s, "/") then TrimTrailingSlashes(s[..|s| - 1]) else s
  }

  /** Index of the last occurrence of `c` in `s`. */
  function LastIndexOf(s: string, c: char): (r: Option<nat>)
    ensures r.Some? ==> r.value < |s| && s[r.value] == c
                        && forall j :: r.value < j < |s| ==> s[j] != c
    ensures r.None? ==> forall j :: 0 <= j < |s| ==> s[j] != c
  {
    if s == [] then None
    else if s[|s| - 1] == c then Some(|s| - 1)
    else LastIndexOf(s[..|s| - 1], c)
  }

  /** The final component of a path; none for an empty path, a root, or a
      final `..`. */
  function FileName(path: string): (r: Option<string>)
    ensures r.Some? ==> r.value != [] && r.value != ".." && forall j :: 0 <= j < |r.value| ==> r.value[j] != '/'
  {
    var t := TrimTrailingSlashes(path);
    var last := match LastIndexOf(t, '/')
      case None => t
      case Some(i) => t[i + 1..];
    if last == [] || last == ".." then None else Some(last)
  }

  /** Text after the last `.` of the file name; none when the file name has
      no `.` or its only `.` is the leading one. */
  function Extension(path: string): (r: Option<string>)
    ensures r.Some? ==> FileName(path).Some?
                        && EndsWith(FileName(path).value, "." + r.value)
                        && |r.value| + 1 < |FileName(path).value|
                        && forall j :: 0 <= j < |r.value| ==> r.value[j] != '.'
    ensures r.None? && FileName(path).Some? ==>
              forall j :: 0 < j < |FileName(path).value| ==> FileName(path).value[j] != '.'
  {
    match FileName(path)
    case None => None
    case Some(name) =>
      match LastIndexOf(name, '.')
      case None => None
      case Some(i) =>
        if i == 0 then None
        else
          assert name[i..] == "." + name[i + 1..];
          Some(name[i + 1..])
  }

  /** `Compression::from_extention`: the case-sensitive table `gz`, `gzip`. */
  function FromExtension(path: string): (r: Option<Compression>)
    ensures r == Some(Gzip) <==> Extension(path) == Some("gz") || Extension(path) == Some("gzip")
  {
    match Extension(path)
    case None => None
    case Some(ext) =>
      if ext == "gzip" || ext == "gz" then Some(Gzip) else None
  }

  /** The last index is the only one holding `c` with no `c` after it. */
  lemma LastIndexOfIsUnique(s: string, c: char, i: nat)
    requires i < |s| && s[i] == c
    requires forall j :: i < j < |s| ==> s[j] != c
    ensures LastIndexOf(s, c) == Some(i)
  {
  }

  lemma LastIndexOfAbsent(s: string, c: char)
    requires forall j :: 0 <= j < |s| ==> s[j] != c
    ensures LastIndexOf(s, c) == None
  {
  }

  /** The file name of `dir + leaf` is `leaf` when `dir` is empty or ends in
      a separator. */
  lemma FileNameOfJoin(dir: string, leaf: string)
    requires dir == [] || EndsWith(dir, "/")
    requires leaf != [] && leaf != ".."
    requires forall j :: 0 <= j < |leaf| ==> leaf[j] != '/'
    ensures FileName(dir + leaf) == Some(leaf)
  {
    var p := dir + leaf;
    assert p[|p| - 1] == leaf[|leaf| - 1];
    assert !EndsWith(p, "/");
    assert TrimTrailingSlashes(p) == p;
    if dir == [] {
      assert p == leaf;
      LastIndexOfAbsent(p, '/');
    } else {
      var i := |dir| - 1;
      assert dir[i..] == "/";
      assert p[i] == dir[i] == '/';
      forall j | i < j < |p|
        ensures p[j] != '/'
      {
        assert p[j] == leaf[j - |dir|];
      }
      LastIndexOfIsUnique(p, '/', i);
      assert p[i + 1..] == leaf;
    }
  }

  /** A file named `stem.ext` (with a non-empty stem) has extension `ext`. */
  lemma ExtensionOfJoin(dir: string, stem: string, ext: string)
    requires dir == [] || EndsWith(dir, "/")
    requires stem != [] && forall j :: 0 <= j < |stem| ==> stem[j] != '/'
    requires ext != [] && forall j :: 0 <= j < |ext| ==> ext[j] != '/' && ext[j] != '.'
    ensures Extension(dir + stem + "." + ext) == Some(ext)
  {
    var leaf := stem + "." + ext;
    assert dir + stem + "." + ext == dir + leaf;
    StemDotExt(stem, ext);
    FileNameOfJoin(dir, leaf);
    ExtensionOfFileName(dir + leaf, leaf, |stem|);
  }

  /** `stem.ext` is a single component whose last `.` follows the stem. */
  lemma StemDotExt(stem: string, ext: string)
    requires stem != [] && forall j :: 0 <= j < |stem| ==> stem[j] != '/'
    requires ext != [] && forall j :: 0 <= j < |ext| ==> ext[j] != '/' && ext[j] != '.'
    ensures var leaf := stem + "." + ext;
            leaf != [] && leaf != ".." && (forall j :: 0 <= j < |leaf| ==> leaf[j] != '/') &&
            LastIndexOf(leaf, '.') == Some(|stem|) && leaf[|stem| + 1..] == ext
  {
    var leaf := stem + "." + ext;
    var i := |stem|;
    assert leaf[i] == '.';
    forall j | 0 <= j < |leaf|
      ensures leaf[j] != '/'
    {
      if j < i {
        assert leaf[j] == stem[j];
      } else if j > i {
        assert leaf[j] == ext[j - i - 1];
      }
    }
    assert leaf != ".." by {
      assert leaf[|leaf| - 1] == ext[|ext| - 1];
    }
    forall j | i < j < |leaf|
      ensures leaf[j] != '.'
    {
      assert leaf[j] == ext[j - i - 1];
    }
    LastIndexOfIsUnique(leaf, '.', i);
    assert leaf[i + 1..] == ext;
  }

  lemma ExtensionOfFileName(path: string, name: string, i: nat)
    requires FileName(path) == Some(name)
    requires 0 < i && LastIndexOf(name, '.') == Some(i)
    ensures Extension(path) == Some(name[i + 1..])
  {
  }

  /** For a file named `stem.ext`, gzip is chosen exactly when `ext` is
      `gz` or `gzip`, compared case-sensitively. */
  lemma FromExtensionOfJoin(dir: string, stem: string, ext: string)
    requires dir == [] || EndsWith(dir, "/")
    requires stem != [] && forall j :: 0 <= j < |stem| ==> stem[j] != '/'
    requires ext != [] && forall j :: 0 <= j < |ext| ==> ext[j] != '/' && ext[j] != '.'
    ensures FromExtension(dir + stem + "." + ext) == if ext == "gz" || ext == "gzip" then Some(Gzip) else None
  {
    ExtensionOfJoin(dir, stem, ext);
  }

  /** Instances of the table: `.gz` and `.gzip` select gzip, `.GZ` does not. */
  lemma GzExample()
    ensures FromExtension("gs://mybucket/data/file.gz") == Some(Gzip)
  {
    var dir, stem, ext := "gs://mybucket/data/", "file", "gz";
    assert EndsWith(dir, "/") by {
      assert dir[|dir| - 1..] == "/";
    }
    assert forall j :: 0 <= j < |stem| ==> stem[j] != '/' by {}
    assert forall j :: 0 <= j < |ext| ==> ext[j] != '/' && ext[j] != '.' by {}
    assert dir + stem + "." + ext == "gs://mybucket/data/file.gz" by {}
    FromExtensionOfJoin(dir, stem, ext);
  }

  lemma GzipExample()
    ensures FromExtension("archive.tar.gzip") == Some(Gzip)
  {
    var dir, stem, ext := "", "archive.tar", "gzip";
    assert forall j :: 0 <= j < |stem| ==> stem[j] != '/' by {}
    assert forall j :: 0 <= j < |ext| ==> ext[j] != '/' && ext[j] != '.' by {}
    assert dir + stem + "." + ext == "archive.tar.gzip" by {}
    FromExtensionOfJoin(dir, stem, ext);
  }

  lemma UpperCaseExample()
    ensures FromExtension("file.GZ") == None
  {
    var dir, stem, ext := "", "file", "GZ";
    assert forall j :: 0 <= j < |stem| ==> stem[j] != '/' by {}
    assert forall j :: 0 <= j < |ext| ==> ext[j] != '/' && ext[j] != '.' by {}
    assert dir + stem + "." + ext == "file.GZ" by {}
    FromExtensionOfJoin(dir, stem, ext);
  }

  /** A name whose only `.` is the leading one has no extension. */
  lemma LeadingDotExample()
    ensures FromExtension(".gz") == None
  {
    FileNameOfJoin("", ".gz");
    assert "" + ".gz" == ".gz";
    LastIndexOfIsUnique(".gz", '.', 0);
  }
}
