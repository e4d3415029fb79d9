/**
 * The request-to-response mapping of the file host: method dispatch, the
 * default root directory, path resolution with the rewrite table, and the
 * choice of response body after the file read.
 *
 * The file read is not performed here: its outcome for each path is given by
 * `fs`, a function from paths to read outcomes. The working directory, the
 * `-r` option and the parsed rewrite table are inputs as well.
 */
module Server {

  import opened Wrappers
  import opened Paths
  import opened Rewrite

  type byte = b: int | 0 <= b < 256

  /**
   * The HTTP request methods. `Extension` holds a token outside the standard
   * set: a request with a standard token always arrives as the matching
   * constructor, so `Extension("GET")` and the like never arise.
   */
  datatype HttpMethod =
    | OPTIONS | GET | POST | PUT | DELETE | HEAD | TRACE | CONNECT | PATCH
    | Extension(token: string)

  /** The parts of a request the service looks at: its method (verb) and the path of its URI. */
  datatype Request = Request(verb: HttpMethod, path: string)

  /** Why a file read failed; the service treats every kind alike. */
  datatype IoError = NotFound | PermissionDenied | IsADirectory | Interrupted | OtherError(description: string)

  /** The outcome of reading a whole file. */
  datatype ReadResult = ReadOk(contents: seq<byte>) | ReadErr(error: IoError)

  /** A response as the service builds it: a status code and a body, no headers. */
  datatype Response = Response(status: nat, body: seq<byte>)

  /** Every response is built with the default status, 200 OK, whatever its body says. */
  const StatusOk: nat := 200

  const NotFoundText := "404 File not found"
  const OnlyGetText := "Only GET-requests supported"
  const FaviconName := "favicon.ico"
  const DefaultRootName := "data"

  /** The bytes of an ASCII string (its UTF-8 encoding). */
  function AsciiBytes(s: string): (b: seq<byte>)
    requires forall i :: 0 <= i < |s| ==> s[i] as int < 128
    ensures |b| == |s| && forall i :: 0 <= i < |s| ==> b[i] == s[i] as int
  {
    seq(|s|, i requires 0 <= i < |s| => s[i] as int)
  }

  const NotFoundBody: seq<byte> := AsciiBytes(NotFoundText)
  const OnlyGetBody: seq<byte> := AsciiBytes(OnlyGetText)

  /**
   * The request path can be cut after its first byte: either it is blank
   * (and is never cut) or its first character is a single UTF-8 byte.
   */
  predicate CuttablePath(reqPath: string) {
    IsBlank(reqPath) || reqPath[0] as int < 128
  }

  /**
   * The path a request names: none for a blank request path; otherwise the
   * request path without its leading byte, rewritten by the table pair by
   * pair, pushed onto the root directory.
   */
  function Resolve(reqPath: string, root: string, table: Table): (r: Option<string>)
    requires CuttablePath(reqPath)
    ensures r.None? <==> IsBlank(reqPath)
    ensures r.Some? ==> var suffix := ApplyRewrites(reqPath[1..], table);
      |suffix| <= |r.value| && r.value[|r.value| - |suffix|..] == suffix
    ensures r.Some? ==> r.value == Join(root, ApplyRewrites(reqPath[1..], table))
    ensures r.Some? && table == [] ==> r.value == Join(root, reqPath[1..])
  {
    var trimmed := Trim(reqPath);
    assert trimmed == [] <==> IsBlank(reqPath);
    if trimmed == [] then None
    else Some(Join(root, ApplyRewrites(reqPath[1..], table)))
  }

  /**
   * `path_from_req`: the trimmed-empty check, then the suffix rewritten in
   * place by each pair of the table in turn, then pushed onto the root.
   */
  method PathFromReq(reqPath: string, dataDir: string, encodingMap: Table) returns (r: Option<string>)
    requires CuttablePath(reqPath)
    ensures r == Resolve(reqPath, dataDir, encodingMap)
  {
    if Trim(reqPath) == [] {
      return None;
    }
    var path := dataDir;
    var extension := reqPath[1..];
    for i := 0 to |encodingMap|
      invariant extension == ApplyRewrites(reqPath[1..], encodingMap[..i])
    {
      var (k, v) := encodingMap[i];
      assert encodingMap[..i + 1][..i] == encodingMap[..i];
      extension := ReplaceAll(extension, k, v);
    }
    assert encodingMap[..|encodingMap|] == encodingMap;
    path := Join(path, extension);
    return Some(path);
  }

  /** The root directory: the `-r` value if given, else `data` under the working directory. */
  function DataRoot(rootdir: Option<string>, cwd: string): (root: string)
    ensures rootdir.Some? ==> root == rootdir.value
    ensures rootdir.None? ==> |cwd| <= |root| && root[..|cwd|] == cwd
    ensures rootdir.None? ==> root == cwd + DefaultRootName || root == cwd + "/" + DefaultRootName
    ensures rootdir.None? ==> (root == cwd + DefaultRootName <==> cwd == [] || cwd[|cwd| - 1] == '/')
    ensures rootdir.None? ==> FinalName(root) == Some(DefaultRootName)
  {
    match rootdir
    case Some(dir) => dir
    case None =>
      FinalNameOfName(DefaultRootName);
      FinalNameOfJoin(cwd, DefaultRootName);
      Join(cwd, DefaultRootName)
  }

  /**
   * `serve_file`: the bytes read, unchanged; on a failed read, an empty body
   * if the path's last component is `favicon.ico`, the not-found text otherwise.
   */
  function ServeFile(filepath: string, read: ReadResult): (r: Response)
    ensures r.status == StatusOk
    ensures read.ReadOk? ==> r.body == read.contents
    ensures read.ReadErr? ==> (r.body == [] <==> FinalName(filepath) == Some(FaviconName))
    ensures read.ReadErr? && r.body != [] ==> r.body == NotFoundBody
  {
    match read
    case ReadOk(contents) => Response(StatusOk, contents)
    case ReadErr(_) =>
      if FinalName(filepath) == Some(FaviconName) then Response(StatusOk, [])
      else Response(StatusOk, NotFoundBody)
  }

  /**
   * `file_service`: non-GET requests are refused before anything else is
   * looked at; a GET request is resolved against the root directory and,
   * when it names a path, answered with the outcome of reading that path.
   */
  method FileService(req: Request, rootdir: Option<string>, cwd: string, encodingMap: Table,
                     fs: string -> ReadResult) returns (resp: Response)
    requires req.verb == GET ==> CuttablePath(req.path)
    ensures resp.status == StatusOk
    ensures req.verb != GET ==> resp.body == OnlyGetBody
    ensures req.verb == GET && IsBlank(req.path) ==> resp.body == NotFoundBody
    ensures req.verb == GET && !IsBlank(req.path) ==>
      var path := Resolve(req.path, DataRoot(rootdir, cwd), encodingMap).value;
      resp == ServeFile(path, fs(path))
  {
    match req.verb {
      case GET =>
        var dataRoot := DataRoot(rootdir, cwd);
        var resolved := PathFromReq(req.path, dataRoot, encodingMap);
        match resolved {
          case Some(filepath) =>
            resp := ServeFile(filepath, fs(filepath));
          case None =>
            resp := Response(StatusOk, NotFoundBody);
        }
      case _ =>
        resp := Response(StatusOk, OnlyGetBody);
    }
  }

  /** Every kind of read failure gives the same response. */
  lemma ReadErrorsAlike(filepath: string, e1: IoError, e2: IoError)
    ensures ServeFile(filepath, ReadErr(e1)) == ServeFile(filepath, ReadErr(e2))
  {
  }

  /**
   * Whether a failed read is silent is decided by the rewritten request
   * suffix alone: if it ends in a `favicon.ico` component, the body is empty
   * under every root directory.
   */
  lemma MissingFaviconIsSilent(reqPath: string, root: string, table: Table, e: IoError)
    requires CuttablePath(reqPath) && !IsBlank(reqPath)
    requires FinalName(ApplyRewrites(reqPath[1..], table)) == Some(FaviconName)
    ensures ServeFile(Resolve(reqPath, root, table).value, ReadErr(e)).body == []
  {
    FinalNameOfJoin(root, ApplyRewrites(reqPath[1..], table));
  }

  /**
   * A failed read of any other file answers with the not-found text, under
   * every root directory.
   */
  lemma MissingFileIsNotFound(reqPath: string, root: string, table: Table, e: IoError)
    requires CuttablePath(reqPath) && !IsBlank(reqPath)
    requires FinalName(ApplyRewrites(reqPath[1..], table)).Some?
    requires FinalName(ApplyRewrites(reqPath[1..], table)) != Some(FaviconName)
    ensures ServeFile(Resolve(reqPath, root, table).value, ReadErr(e)).body == NotFoundBody
  {
    FinalNameOfJoin(root, ApplyRewrites(reqPath[1..], table));
  }

  /** A request path that starts with '/' is neither blank nor uncuttable. */
  lemma SlashPathResolves(reqPath: string)
    requires |reqPath| > 0 && reqPath[0] == '/'
    ensures !IsBlank(reqPath) && CuttablePath(reqPath)
  {
    assert !IsWhitespace(reqPath[0]);
  }

  /** GET `/favicon.ico` with an empty table: a failed read gives an empty body. */
  lemma FaviconRequestExample(root: string, e: IoError)
    ensures ServeFile(Resolve("/favicon.ico", root, []).value, ReadErr(e)).body == []
  {
    var p := "/favicon.ico";
    SlashPathResolves(p);
    assert p[1..] == FaviconName;
    FinalNameOfName(FaviconName);
    MissingFaviconIsSilent(p, root, [], e);
  }

  /** GET `/missing.txt` with an empty table: a failed read gives the not-found text. */
  lemma MissingTxtExample(root: string, e: IoError)
    ensures ServeFile(Resolve("/missing.txt", root, []).value, ReadErr(e)).body == NotFoundBody
  {
    var p := "/missing.txt";
    SlashPathResolves(p);
    assert p[1..] == "missing.txt";
    FinalNameOfName("missing.txt");
    MissingFileIsNotFound(p, root, [], e);
  }

  /** `/axa` with the single pair ("a", "b") names `bxb` under the root. */
  lemma ResolveRewriteExample(root: string)
    ensures Resolve("/axa", root, [("a", "b")]) == Some(Join(root, "bxb"))
  {
    var p := "/axa";
    SlashPathResolves(p);
    assert p[1..] == "axa";
    ReplaceAllExamples();
    assert [("a", "b")][..0] == [];
  }

  /** `/../secret` is not sanitised: the parent segment is kept and leaves the root. */
  lemma ResolveTraversalExample()
    ensures Resolve("/../secret", "/srv/data", []) == Some("/srv/data/../secret")
  {
    var p := "/../secret";
    SlashPathResolves(p);
    assert p[1..] == "../secret";
    assert Join("/srv/data", "../secret") == "/srv/data/../secret" by {
      assert !IsAbsolute("../secret");
      assert "/srv/data" + "/" + "../secret" == "/srv/data/../secret";
    }
    assert Resolve(p, "/srv/data", []) == Some(Join("/srv/data", p[1..]));
  }

  /** `//etc/passwd` pushes an absolute suffix, which replaces the root altogether. */
  lemma ResolveAbsoluteExample(root: string)
    ensures Resolve("//etc/passwd", root, []) == Some("/etc/passwd")
  {
    var p := "//etc/passwd";
    SlashPathResolves(p);
    assert p[1..] == "/etc/passwd";
  }
}
