/** The pure parts of the HTTP module: the tariff-status enumeration, the
    extension-to-MIME table, and the path selection of the static-file
    fallback handler. */
module Server {
  import opened Wrappers

  /** The colour of a tariff day; `NonDefini` is the provider's "not yet
      published" marker. */
  datatype TempoStatus = TempoBleu | TempoRouge | TempoBlanc | NonDefini

  /** A batch of calendar entries, in the order the upstream returned them. */
  type Batch = seq<(string, TempoStatus)>

  /** The name a status is serialised under: serde's SCREAMING_SNAKE_CASE
      renaming of the variant names. */
  function WireName(s: TempoStatus): (name: string)
    ensures name in {"TEMPO_BLEU", "TEMPO_ROUGE", "TEMPO_BLANC", "NON_DEFINI"}
  {
    match s
    case TempoBleu => "TEMPO_BLEU"
    case TempoRouge => "TEMPO_ROUGE"
    case TempoBlanc => "TEMPO_BLANC"
    case NonDefini => "NON_DEFINI"
  }

  /** Distinct statuses are serialised under distinct names. */
  lemma WireNameInjective(s: TempoStatus, t: TempoStatus)
    ensures WireName(s) == WireName(t) <==> s == t
  {
  }

  newtype byte = x: int | 0 <= x < 256

  // ---------------------------------------------------------------------
  // File names and extensions, after Rust's `std::path::Path` on Unix.
  // ---------------------------------------------------------------------

  /** The pieces of `s` between the '/' separators, empty pieces included. */
  function SplitSlash(s: string): (parts: seq<string>)
    ensures |parts| >= 1
    ensures forall k :: 0 <= k < |parts| ==> '/' !in parts[k]
    ensures forall k, c :: 0 <= k < |parts| && c in parts[k] ==> c in s
    decreases |s|
  {
    if s == [] then [[]]
    else
      var rest := SplitSlash(s[1..]);
      assert forall c :: c in s[1..] ==> c in s;
      if s[0] == '/' then [[]] + rest
      else [[s[0]] + rest[0]] + rest[1..]
  }

  /** The pieces that `Path::components` reports by name: empty pieces
      (a leading root, doubled or trailing separators) and "." are dropped. */
  function NamedPieces(parts: seq<string>): (r: seq<string>)
    ensures forall k :: 0 <= k < |r| ==> r[k] != "" && r[k] != "."
    ensures forall p :: p in r ==> p in parts
  {
    if parts == [] then []
    else if parts[0] == "" || parts[0] == "." then NamedPieces(parts[1..])
    else [parts[0]] + NamedPieces(parts[1..])
  }

  /** `Path::file_name`: the last component, unless it is "..". */
  function FileName(path: string): (r: Option<string>)
    ensures r.Some? ==> r.value != "" && r.value != "." && r.value != ".."
    ensures r.Some? ==> '/' !in r.value
    ensures r.Some? ==> forall c :: c in r.value ==> c in path
  {
    var pieces := NamedPieces(SplitSlash(path));
    if pieces == [] || pieces[|pieces| - 1] == ".." then None
    else
      assert pieces[|pieces| - 1] in pieces;
      Some(pieces[|pieces| - 1])
  }

  /** The position of the last `c` in `s`, if any. */
  function LastIndexOf(s: string, c: char): (r: Option<nat>)
    ensures r.None? <==> c !in s
    ensures r.Some? ==> r.value < |s| && s[r.value] == c && c !in s[r.value + 1..]
    decreases |s|
  {
    if s == [] then None
    else if s[|s| - 1] == c then Some(|s| - 1)
    else
      var r := LastIndexOf(s[..|s| - 1], c);
      assert r.Some? ==> s[r.value + 1..] == s[..|s| - 1][r.value + 1..] + [s[|s| - 1]];
      assert c in s ==> c in s[..|s| - 1] by {
        if c in s {
          var k :| 0 <= k < |s| && s[k] == c;
          assert s[..|s| - 1][k] == c;
        }
      }
      r
  }

  /** `Path::extension`: the text after the last '.' of the file name, where
      a name with no '.', or whose only '.' is its first character, has none. */
  function Extension(path: string): (r: Option<string>)
    ensures r.Some? ==> '.' !in r.value && '/' !in r.value
    ensures FileName(path).None? ==> r.None?
    ensures FileName(path).Some? && '.' !in FileName(path).value ==> r.None?
    ensures FileName(path).Some? && LastIndexOf(FileName(path).value, '.') == Some(0) ==> r.None?
  {
    match FileName(path)
    case None => None
    case Some(name) =>
      match LastIndexOf(name, '.')
      case None => None
      case Some(i) =>
        if i == 0 then None
        else
          assert forall c :: c in name[i + 1..] ==> c in name;
          Some(name[i + 1..])
  }

  const OctetStream := "application/octet-stream"

  /** The extensions the table knows, matched case-sensitively. */
  const KnownExtensions: set<string> := {"html", "css", "js", "json", "png", "jpg", "jpeg", "svg"}

  /** The eight content types the table can produce. */
  const MimeTypes: set<string> := {
    "text/html", "text/css", "application/javascript", "application/json",
    "image/png", "image/jpeg", "image/svg+xml", OctetStream
  }

  /** The extension-to-content-type table. */
  function MimeForExtension(ext: string): (mime: string)
    ensures mime in MimeTypes
    ensures mime == OctetStream <==> ext !in KnownExtensions
    ensures mime == "text/html" <==> ext == "html"
    ensures mime == "text/css" <==> ext == "css"
    ensures mime == "application/javascript" <==> ext == "js"
    ensures mime == "application/json" <==> ext == "json"
    ensures mime == "image/png" <==> ext == "png"
    ensures mime == "image/jpeg" <==> ext == "jpg" || ext == "jpeg"
    ensures mime == "image/svg+xml" <==> ext == "svg"
  {
    if ext == "html" then "text/html"
    else if ext == "css" then "text/css"
    else if ext == "js" then "application/javascript"
    else if ext == "json" then "application/json"
    else if ext == "png" then "image/png"
    else if ext == "jpg" || ext == "jpeg" then "image/jpeg"
    else if ext == "svg" then "image/svg+xml"
    else OctetStream
  }

  /** `get_mime_type`: the content type of the path's extension, and
      application/octet-stream when there is no extension. */
  function MimeType(path: string): (mime: string)
    ensures mime in MimeTypes
    ensures Extension(path).None? ==> mime == OctetStream
    ensures Extension(path).Some? ==> mime == MimeForExtension(Extension(path).value)
  {
    match Extension(path)
    case None => OctetStream
    case Some(ext) => MimeForExtension(ext)
  }

  lemma {:induction false} SplitSlashWithoutSlash(s: string)
    requires '/' !in s
    ensures SplitSlash(s) == [s]
    decreases |s|
  {
    if s != [] {
      assert '/' !in s[1..] by {
        forall c | c in s[1..] ensures c != '/' { assert c in s; }
      }
      SplitSlashWithoutSlash(s[1..]);
      assert [s[0]] + s[1..] == s;
    }
  }

  lemma {:induction false} SplitSlashAppend(dir: string, name: string)
    ensures SplitSlash(dir + "/" + name) == SplitSlash(dir) + SplitSlash(name)
    decreases |dir|
  {
    if dir == [] {
      assert dir + "/" + name == "/" + name;
      assert ("/" + name)[1..] == name;
    } else {
      assert (dir + "/" + name)[1..] == dir[1..] + "/" + name;
      SplitSlashAppend(dir[1..], name);
    }
  }

  lemma {:induction false} NamedPiecesAppend(a: seq<string>, b: seq<string>)
    ensures NamedPieces(a + b) == NamedPieces(a) + NamedPieces(b)
    decreases |a|
  {
    if a == [] {
      assert a + b == b;
    } else {
      assert (a + b)[1..] == a[1..] + b;
      NamedPiecesAppend(a[1..], b);
    }
  }

  /** The file name of `dir/name` is `name` whatever the directory part is,
      provided `name` is a proper name. */
  lemma FileNameIsFinalComponent(dir: string, name: string)
    requires name != "" && name != "." && name != ".." && '/' !in name
    ensures FileName(dir + "/" + name) == Some(name)
    ensures FileName(name) == Some(name)
  {
    SplitSlashAppend(dir, name);
    SplitSlashWithoutSlash(name);
    NamedPiecesAppend(SplitSlash(dir), [name]);
    assert NamedPieces([name]) == [name] by {
      assert [name][1..] == [];
    }
  }

  /** A proper file name whose last '.' is at position `i > 0` has as its
      extension the text after that '.'. */
  lemma ExtensionOfName(name: string, i: nat)
    requires name != ".." && '/' !in name
    requires 0 < i < |name| && name[i] == '.' && '.' !in name[i + 1..]
    ensures Extension(name) == Some(name[i + 1..])
  {
    FileNameIsFinalComponent("", name);
    var j := LastIndexOf(name, '.');
    assert j.value == i;
  }

  /** `get_mime_type` of a file whose name's last '.' is at position `i > 0`,
      in any directory, is the table entry for the text after that '.'. */
  lemma MimeTypeOfName(dir: string, name: string, i: nat)
    requires name != ".." && '/' !in name
    requires 0 < i < |name| && name[i] == '.' && '.' !in name[i + 1..]
    ensures MimeType(name) == MimeForExtension(name[i + 1..])
    ensures MimeType(dir + "/" + name) == MimeForExtension(name[i + 1..])
  {
    ExtensionOfName(name, i);
    FileNameIsFinalComponent(dir, name);
    SameFileNameSameExtension(dir + "/" + name, name);
  }

  lemma SameFileNameSameExtension(p: string, q: string)
    requires FileName(p) == FileName(q)
    ensures Extension(p) == Extension(q)
  {
  }

  /** A path without any '.' has no extension. */
  lemma NoDotMeansOctetStream(path: string)
    requires '.' !in path
    ensures MimeType(path) == OctetStream
  {
  }

  /** `get_mime_type` of `stem.ext`, for a stem without '.' or '/', in any
      directory, is the table entry for `ext`. */
  lemma MimeTypeOfStem(dir: string, stem: string, ext: string)
    requires stem != [] && '/' !in stem && '.' !in stem
    requires '/' !in ext && '.' !in ext
    ensures MimeType(stem + "." + ext) == MimeForExtension(ext)
    ensures MimeType(dir + "/" + stem + "." + ext) == MimeForExtension(ext)
  {
    var name := stem + "." + ext;
    var i := |stem|;
    assert name[i + 1..] == ext;
    assert '/' !in name by {
      forall c | c in name ensures c != '/' {
        assert c in stem || c == '.' || c in ext;
      }
    }
    assert name[0] != '.' by {
      assert name[0] == stem[0];
    }
    MimeTypeOfName(dir, name, i);
    assert dir + "/" + stem + "." + ext == dir + "/" + name;
  }

  /** A name whose only '.' is its first character is a hidden file with no
      extension, so ".html" is not served as HTML, in any directory. */
  lemma DotfileIsOctetStream(dir: string, stem: string)
    requires stem != [] && '/' !in stem && '.' !in stem
    ensures MimeType("." + stem) == OctetStream
    ensures MimeType(dir + "/" + "." + stem) == OctetStream
  {
    var name := "." + stem;
    assert '/' !in name by {
      forall c | c in name ensures c != '/' {
        assert c == '.' || c in stem;
      }
    }
    assert name[1..] == stem;
    assert name != ".." by {
      assert |name| == 2 ==> name[1] == stem[0];
    }
    FileNameIsFinalComponent(dir, name);
    assert LastIndexOf(name, '.') == Some(0);
    assert dir + "/" + "." + stem == dir + "/" + name;
    SameFileNameSameExtension(dir + "/" + name, name);
  }

  /** The extension is matched case-sensitively: "x.html" is HTML but
      "x.HTML" is not. */
  lemma MimeTypeIsCaseSensitive(stem: string)
    requires stem != [] && '/' !in stem && '.' !in stem
    ensures MimeType(stem + ".html") == "text/html"
    ensures MimeType(stem + ".HTML") == OctetStream
  {
    MimeTypeOfStem("", stem, "html");
    assert stem + "." + "html" == stem + ".html";
    MimeTypeOfStem("", stem, "HTML");
    assert stem + "." + "HTML" == stem + ".HTML";
    assert MimeForExtension("HTML") == OctetStream;
  }

  /** index.html, served under its own name, gets the same content type as
      the fallback. */
  lemma IndexIsHtml()
    ensures MimeType(IndexHtml) == "text/html"
  {
    assert "index" + ".html" == IndexHtml;
    MimeTypeIsCaseSensitive("index");
  }

  /** Both spellings of the JPEG extension give the same content type. */
  lemma JpegSpellings(stem: string)
    requires stem != [] && '/' !in stem && '.' !in stem
    ensures MimeType(stem + ".jpg") == MimeType(stem + ".jpeg") == "image/jpeg"
  {
    MimeTypeOfStem("", stem, "jpg");
    assert stem + "." + "jpg" == stem + ".jpg";
    MimeTypeOfStem("", stem, "jpeg");
    assert stem + "." + "jpeg" == stem + ".jpeg";
  }

  // ---------------------------------------------------------------------
  // Static files.
  // ---------------------------------------------------------------------

  const IndexHtml := "index.html"

  /** `n` slashes. */
  function Slashes(n: nat): (s: string)
    ensures |s| == n && forall k :: 0 <= k < n ==> s[k] == '/'
  {
    if n == 0 then [] else Slashes(n - 1) + "/"
  }

  /** `trim_start_matches('/')`: what remains after every leading '/'. */
  function TrimLeadingSlashes(s: string): (r: string)
    ensures |r| <= |s| && s == Slashes(|s| - |r|) + r
    ensures r == [] || r[0] != '/'
    decreases |s|
  {
    if s != [] && s[0] == '/' then
      var r := TrimLeadingSlashes(s[1..]);
      assert Slashes(|s| - |r|) == "/" + Slashes(|s| - 1 - |r|) by {
        SlashesCons(|s| - 1 - |r|);
      }
      r
    else s
  }

  lemma SlashesCons(n: nat)
    ensures Slashes(n + 1) == "/" + Slashes(n)
  {
  }

  /** The file looked up for a request path: the path without its leading
      slashes, or index.html when nothing else remains. */
  function StaticPath(uriPath: string): (p: string)
    ensures p != [] && p[0] != '/'
    ensures (forall k :: 0 <= k < |uriPath| ==> uriPath[k] == '/') ==> p == IndexHtml
    ensures (exists k :: 0 <= k < |uriPath| && uriPath[k] != '/') ==>
              |p| <= |uriPath| && uriPath == Slashes(|uriPath| - |p|) + p
  {
    var trimmed := TrimLeadingSlashes(uriPath);
    var n := |uriPath| - |trimmed|;
    assert trimmed != [] ==> uriPath[n] == trimmed[0];
    assert trimmed == [] ==> uriPath == Slashes(n);
    if trimmed == [] then IndexHtml else trimmed
  }

  /** A response of the static handler. `contentType` is None when no
      Content-Type header is set. */
  datatype Response = Response(status: nat, contentType: Option<string>, body: seq<byte>)

  const StatusOk: nat := 200
  const StatusNotFound: nat := 404

  /** The ASCII bytes of "Not found". */
  const NotFoundBody: seq<byte> := [78, 111, 116, 32, 102, 111, 117, 110, 100]

  /** `serve_static` over the embedded directory `dir`, which maps each
      file's relative path to its contents. */
  function ServeStatic(dir: map<string, seq<byte>>, uriPath: string): (resp: Response)
    ensures resp.status == StatusNotFound <==> StaticPath(uriPath) !in dir && IndexHtml !in dir
    ensures StaticPath(uriPath) in dir ==>
              resp == Response(StatusOk, Some(MimeType(StaticPath(uriPath))), dir[StaticPath(uriPath)])
    ensures StaticPath(uriPath) !in dir && IndexHtml in dir ==>
              resp == Response(StatusOk, Some("text/html"), dir[IndexHtml])
    ensures resp.status == StatusNotFound ==> resp == Response(StatusNotFound, None, NotFoundBody)
  {
    var path := StaticPath(uriPath);
    if path in dir then Response(StatusOk, Some(MimeType(path)), dir[path])
    else if IndexHtml in dir then Response(StatusOk, Some("text/html"), dir[IndexHtml])
    else Response(StatusNotFound, None, NotFoundBody)
  }

  /** Leading slashes do not change which response is produced. */
  lemma LeadingSlashesIrrelevant(dir: map<string, seq<byte>>, uriPath: string, n: nat)
    ensures ServeStatic(dir, Slashes(n) + uriPath) == ServeStatic(dir, uriPath)
  {
    TrimSlashesPrefix(uriPath, n);
  }

  lemma {:induction false} TrimSlashesPrefix(s: string, n: nat)
    ensures TrimLeadingSlashes(Slashes(n) + s) == TrimLeadingSlashes(s)
  {
    if n > 0 {
      SlashesCons(n - 1);
      assert Slashes(n) + s == "/" + (Slashes(n - 1) + s);
      assert (Slashes(n) + s)[1..] == Slashes(n - 1) + s;
      assert TrimLeadingSlashes(Slashes(n) + s) == TrimLeadingSlashes(Slashes(n - 1) + s);
      TrimSlashesPrefix(s, n - 1);
    } else {
      assert Slashes(n) + s == s;
    }
  }

  /** For a path with no file, the fallback is exactly the response for the
      root path "/", i.e. for index.html served under its own name. */
  lemma FallbackIsIndex(dir: map<string, seq<byte>>, uriPath: string)
    requires StaticPath(uriPath) !in dir
    ensures ServeStatic(dir, uriPath) == ServeStatic(dir, "/")
    ensures ServeStatic(dir, "/") == ServeStatic(dir, IndexHtml)
  {
    IndexIsHtml();
    assert TrimLeadingSlashes("/") == [] by {
      assert "/"[1..] == [];
    }
    assert TrimLeadingSlashes(IndexHtml) == IndexHtml;
  }
}
