# http-filehost-demo: request-to-response mapping

A Dafny model of the decision logic in the file host's `src/server.rs`. The
server answers every HTTP request with a file under a root directory. This
model covers the following parts of that mapping:

- **Method dispatch** (`file_service`). A request whose method is not GET is
  answered with the text `Only GET-requests supported`. Nothing else is looked
  at for it.
- **Root directory** (`file_service`). The root is the `-r` value when one is
  given. Otherwise it is `data` pushed onto the working directory.
- **Path resolution** (`path_from_req`). A request path that trims to nothing
  names no file, and the response is `404 File not found`. Otherwise the first
  byte of the path is dropped. Each (key, value) pair of the rewrite table then
  replaces every non-overlapping occurrence of its key, in table order. The
  result is pushed onto the root directory.
- **Response selection** (`serve_file`). A successful read answers with the
  bytes read, unchanged. A failed read of a path whose last component is
  `favicon.ico` answers with an empty body. Any other failed read answers with
  `404 File not found`. The kind of failure does not matter.

Every response carries the default status, 200 OK, including the two error
texts (`Server.Response.status` is always `StatusOk`).

Modules:

- `Rewrite` (`rewrite.dfy`):
  - `ReplaceAll` is Rust's `str::replace`, including the empty-pattern case.
    It is proved equal to an independent cut-and-join definition
    (`SplitOn`/`Intercalate`).
  - `ApplyRewrites` applies an ordered table one pair at a time.
- `Paths` (`paths.dfy`):
  - `Trim` is Rust's `str::trim`, with the Unicode White_Space characters.
  - `Join` is `PathBuf::push` on Unix.
  - `FinalName` is the last normal component of a path, which is what
    `Path::ends_with("favicon.ico")` compares. It is proved equal, in both
    directions, to a direct description: a normal name that starts a
    component and is followed only by empty and `.` segments.
- `Server` (`server.dfy`):
  - the resolver, as the specification function `Resolve` and the loop method
    `PathFromReq`, which is proved equal to it;
  - `DataRoot`, `ServeFile` and `FileService`.
- `Wrappers` (`wrappers.dfy`): `Option`.

Modelling choices:

- **The rewrite table is an ordered sequence.** The source iterates a
  `HashMap`, whose order is unspecified. The map is rebuilt from
  `encoding.json` on every request with a freshly seeded hasher, so the order
  can also change from one request to the next. The order matters when the
  output of one pair contains the key of a later pair (`RewriteOrderMatters`).
  It also matters when two keys overlap in the input, because the earlier pair
  consumes the shared characters (`RewriteOverlapOrder`).
  The model takes the order as part of its input.
- **The file read is an input.** `FileService` receives `fs`, a function from
  paths to read outcomes. The working directory, the `-r` value and the parsed
  table are inputs as well.
- **Paths are strings with '/' as the only separator.** `Join` keeps the
  library rule that pushing an absolute path replaces the base. So
  `//etc/passwd` resolves to `/etc/passwd` whatever the root is
  (`ResolveAbsoluteExample`). `..` segments are passed through unchanged
  (`ResolveTraversalExample`). The source does no sanitisation, and neither
  does the model.
- **The path must not start with a multi-byte character.** `req_path[1..]`
  slices at byte 1. A non-blank request path whose first character is not a
  single UTF-8 byte makes the source panic. `Resolve` and `PathFromReq`
  require `CuttablePath`, which says that the path is blank or that its first
  character is ASCII. `FileService` requires it only of the path of a GET
  request: a request with any other method may carry any path. Only the first character matters, and a
  path that starts with '/' meets this condition and is not blank
  (`SlashPathResolves`).

## Model

| member | source | states |
|---|---|---|
| `Rewrite.ReplaceAll` | src/server.rs:104 | Rust `str::replace` on one pair. Replacing a key by itself changes nothing. A key and value of equal length keep the length. |
| `Rewrite.SplitOnRoundTrip` | src/server.rs:104 | Cutting at the left-to-right matches and rejoining with the key gives back the original string. |
| `Rewrite.SplitOnFirstPiece` | src/server.rs:104 | Matching is leftmost: no occurrence of the key starts inside the first piece of the cut. |
| `Rewrite.SplitOnSingle` | src/server.rs:104 | A cut into one piece means the string is whole and the key does not occur in it. |
| `Rewrite.SplitOnNext` | src/server.rs:104 | After the first piece the key occurs, and the rest of the cut is the cut of the text after that occurrence. So matches do not overlap and scanning resumes after each one. |
| `Rewrite.ReplaceAllBySplit` | src/server.rs:104 | `replace` equals cutting at the leftmost non-overlapping matches and joining the pieces with the value. Inserted text is never rescanned. |
| `Rewrite.ReplaceAllAbsent` | src/server.rs:103-105 | A non-empty key that does not occur leaves the text unchanged. |
| `Rewrite.ReplaceAllEmptyKey` | src/server.rs:104 | An empty key inserts the value before, between and after all characters, as Rust does for an empty pattern. |
| `Rewrite.ReplaceAllExamples` | src/server.rs:104 | `"axa"` with `("a","b")` gives `"bxb"`. `"ab"` with `("","x")` gives `"xaxbx"`. |
| `Rewrite.ApplyRewrites` | src/server.rs:103-105 | The table applied pair by pair, each pair to the previous output. A table of identity pairs, including the empty table, changes nothing. |
| `Rewrite.ApplyRewritesAppend` | src/server.rs:103-105 | Applying `t1 + t2` is applying `t1` and then `t2` to its output. |
| `Rewrite.ApplyRewritesFirst` | src/server.rs:103-105 | The first pair rewrites the input, and the rest of the table rewrites that output. |
| `Rewrite.ApplyRewritesSkip` | src/server.rs:103-105 | A pair whose non-empty key is absent from the current text has no effect on the result. |
| `Rewrite.RewriteOrderMatters` | src/server.rs:103-105 | The same two pairs in the two orders send `"a"` to `"c"` and to `"b"`. |
| `Rewrite.RewriteOverlapOrder` | src/server.rs:103-105 | Two pairs whose keys overlap in `"abc"` give `"Xc"` in one order and `"aY"` in the other. |
| `Paths.IsWhitespace` | src/server.rs:97 | Rust's `char::is_whitespace`: the 25 characters of the Unicode White_Space list. Among ASCII characters it holds exactly for space, tab, line feed, vertical tab, form feed and carriage return. It never holds for '/'. |
| `Paths.TrimStart` | src/server.rs:97 | The result is a suffix of the input. The dropped prefix is all whitespace. The result starts with a non-whitespace character or is empty. |
| `Paths.TrimEnd` | src/server.rs:97 | The result is a prefix of the input. The dropped suffix is all whitespace. The result ends with a non-whitespace character or is empty. |
| `Paths.Trim` | src/server.rs:97 | `str::trim`. The result is empty exactly when every character is Unicode whitespace. Otherwise it starts and ends with a non-whitespace character. |
| `Paths.TrimIsInfix` | src/server.rs:97 | The trimmed string is the part of the input between a whitespace-only prefix and a whitespace-only suffix. |
| `Paths.Join` | src/server.rs:100-107 | `PathBuf::push`. The result ends with the pushed path. An absolute path replaces the base. A relative path keeps the base as a prefix and the whole pushed path after it, with nothing in between when the base is empty or ends with '/', and exactly one '/' otherwise. |
| `Paths.LastSegmentIsSuffix` | src/server.rs:80 | The last segment is the suffix after the last '/'. |
| `Paths.FinalName` | src/server.rs:80 | The result, when present, is a normal name: non-empty, not `.` or `..`, and without '/'. Its full meaning is given by the four lemmas below. |
| `Paths.FinalNameIsLastName` | src/server.rs:80 | A final name starts a component (at the start or after a '/') and is followed only by a '/' and empty or `.` segments. |
| `Paths.LastNameIsFinalName` | src/server.rs:80 | Conversely, a normal name after an empty prefix or one ending in '/', followed only by empty or `.` segments, is the final name. |
| `Paths.FinalNameIff` | src/server.rs:80 | `FinalName(p)` is `n` exactly when `n` is the last normal component of `p` with only skipped segments after it. |
| `Paths.FinalNameNoneIff` | src/server.rs:80 | There is no final name exactly when no normal component is followed only by skipped segments: the last kept segment is `..`, or there is none. |
| `Paths.FinalNameExamples` | src/server.rs:80 | `a/b/./` has the final name `b`. `a/..` has none. |
| `Paths.FinalNameOfJoin` | src/server.rs:80 | Pushing a path with a final name onto any base keeps that final name. |
| `Paths.FinalNameOfName` | src/server.rs:80 | A normal name is its own final name. |
| `Server.Resolve` | src/server.rs:90-110 | No path exactly when the request path is blank after trimming. Otherwise the path is the rewritten suffix (the request path minus its first byte, rewritten by the table) pushed onto the root with `Join`, so it ends with that suffix. With an empty table it is the root joined with the request path minus its first byte. |
| `Server.PathFromReq` | src/server.rs:90-110 | The loop that rewrites the suffix in place, pair by pair, computes `Resolve`. |
| `Server.SlashPathResolves` | src/server.rs:97-99 | A request path that starts with '/' is not blank, so it always resolves to a path, whether or not the file exists. |
| `Server.DataRoot` | src/server.rs:51-59 | The `-r` value if given. Otherwise `data` pushed onto the working directory: the working directory, a '/' unless it already ends with one (or is empty), then `data`, so the last component is `data`. |
| `Server.ServeFile` | src/server.rs:70-88 | Status 200. A successful read gives exactly the bytes read. A failed read gives an empty body exactly when the last component is `favicon.ico`, and the not-found text otherwise. |
| `Server.FileService` | src/server.rs:41-67 | Status 200. A non-GET request gets the only-GET text whatever the table, root and file system are. A blank GET path gets the not-found text. Any other GET path is served from `Resolve` under `DataRoot`. |
| `Server.ReadErrorsAlike` | src/server.rs:79-85 | All kinds of read failure give the same response. |
| `Server.MissingFaviconIsSilent` | src/server.rs:80-81 | If the rewritten request suffix ends in `favicon.ico`, a failed read gives an empty body under any root. |
| `Server.MissingFileIsNotFound` | src/server.rs:82-84 | If the rewritten suffix ends in another name, a failed read gives the not-found text under any root. |
| `Server.FaviconRequestExample` | src/server.rs:79-81 | A GET for `/favicon.ico` whose read fails gives an empty body. |
| `Server.MissingTxtExample` | src/server.rs:82-84 | A GET for `/missing.txt` whose read fails gives `404 File not found`. |
| `Server.ResolveRewriteExample` | src/server.rs:101-107 | `/axa` with `[("a","b")]` names `bxb` under the root. |
| `Server.ResolveTraversalExample` | src/server.rs:100-107 | `/../secret` under `/srv/data` names `/srv/data/../secret`, unsanitised. |
| `Server.ResolveAbsoluteExample` | src/server.rs:100-107 | `//etc/passwd` names `/etc/passwd`, because an absolute push replaces the root. |

## Left out

- `create_server` (src/server.rs:24-39): socket binding, the service plumbing and the accept loop are network I/O.
- `Args::parse` (src/server.rs:18-22, 27, 44): argument parsing is a library call. The `-r` value is an `Option<string>` input.
- `collect_hashmap` (src/server.rs:112-117) and its `expect` at line 45: reading and parsing `encoding.json` are file I/O and a JSON library. The model receives the parsed table. The source calls it before the method is looked at, so a missing or malformed file panics even on a non-GET request. The model has no such failure.
- `current_dir().unwrap()` (src/server.rs:54): the working directory is an input, so its failure is not modelled.
- `tokio::fs::read` (src/server.rs:73): the filesystem and the asynchronous scheduling are not modelled. The read outcome comes from the `fs` input.
- The `println!` and `eprintln!` diagnostics (src/server.rs:75, 83): logging is not part of the response.
- Response headers and the `Body` streaming type: a response is a status and a byte sequence.
- Concurrency between requests: no state is shared between requests, so there is nothing to model.
- Non-Unix path rules (drive prefixes, `\` separators): paths are Unix paths.
- `Server.Resolve`: it does not model the panic on a request path that starts with a multi-byte character. That case is excluded by the `CuttablePath` precondition.
