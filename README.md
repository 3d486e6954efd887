# static-server request pipeline, modelled in Dafny

static-server is a small static file server built on axum. Every request goes
through one middleware and one route handler:

- the access-logging middleware (`extract_req_res_info`) reads the whole
  request body, decodes it as UTF-8, builds an `AccessLog` record with a
  placeholder status of 200, forwards a rebuilt request with the same bytes,
  overwrites the record's status with the status of the response, emits the
  record, and returns the response untouched;
- the wildcard route handler (`static_path_handler`) strips every leading `/`
  from the captured path, falls back to `index.html` when nothing is left,
  joins the result onto the configured static directory, and answers 404 with
  an empty body when that path does not exist, or 200 with the file's bytes and
  a `Content-Type` guessed from the extension (text/plain when there is no
  guess).

The model works over an abstract file system, a map from the path strings the
handler asks about to what is found there: a regular file's bytes, or an entry
that exists but cannot be read (a directory, a file without read permission),
on which the source's `fs::read(..).unwrap()` panics. The `unwrap` panics of the
source are modelled as a `Fault` result. The `mime_guess` extension table is a
parameter (`Mime.MimeLookup`), so every statement holds for any table.

Files:

- `http.dfy`: `Wrappers` (Option, Result) and `Http` (bytes, status codes,
  request parts, requests, responses, faults).
- `paths.dfy`: `Paths`, the trimming of leading slashes, the index default and
  `Path::join`.
- `mime.dfy`: `Mime`, `Path::file_name`, `Path::extension` and the content-type
  choice with its text/plain fallback.
- `utf8.dfy`: `Utf8`, the acceptance rules of `std::str::from_utf8`, with an
  encoder as the reference the decoder is proved against.
- `static_files.dfy`: `StaticFiles`, the route handler and its properties.
- `access_log.dfy`: `AccessLogging`, the `AccessLog` record, the middleware, and
  the middleware layered over the route.

The path trimming follows the code: `trim_start_matches('/')` removes the whole
leading run of slashes, so "/", "//" and "" all serve `index.html`.

`Path::extension` gives the empty extension for a name ending in a dot
("notes."), and `mime_guess` makes no guess for an empty extension, so such a
file is sent as text/plain whatever the table holds.

## Model

| member | source | states |
|---|---|---|
| `Paths.TrimLeadingSlashes` | src/main.rs:39 | the result is a suffix of the input, everything removed is '/', and the result does not start with '/' |
| `Paths.TrimIsMaximalRun` | src/main.rs:39 | any split of the input into a run of '/' and a rest not starting with '/' has that rest as the trimmed path: the whole leading run is removed, nothing else |
| `Paths.TrimIdempotent` | src/main.rs:39 | trimming twice is trimming once |
| `Paths.NormalizePath` | src/main.rs:39-42 | the normalised path is non-empty and has no leading '/'; a path of slashes only (including "") becomes index.html; any other path loses exactly its leading run of slashes |
| `Paths.NormalizeIdempotent` | src/main.rs:39-42 | normalising a normalised path changes nothing |
| `Paths.NormalizeIgnoresLeadingSlashes` | src/main.rs:39-42 | paths that differ only in their leading slashes normalise alike |
| `Paths.Join` | src/main.rs:46 | a path with a root replaces the base; otherwise the result is the base, then one '/' exactly when the base is non-empty and does not end in '/', then the pushed path |
| `Paths.CandidatePath` | src/main.rs:45-46 | the file the handler looks for has the static directory as a proper prefix and ends with the normalised path |
| `Paths.CandidateExtendsRoot` | src/main.rs:45-46 | the candidate file path is the static directory, then '/' exactly when the directory is non-empty and does not end in '/', then the normalised path: the join appends, it never replaces the root |
| `Paths.CandidateOfRootedName` | src/main.rs:39-46 | a request for "/name" looks for "dir/name" when the directory does not end in '/' |
| `Paths.AbsolutePathWouldReplaceRoot` | src/main.rs:39-46 | joining the untrimmed "/etc/passwd" would replace the root; after trimming the candidate is "public/etc/passwd" |
| `Paths.ParentComponentsPassThrough` | src/main.rs:45-46 | no parent-directory check is made: "/../secret" looks for "public/../secret" |
| `Mime.FileName` | src/main.rs:44 | the file name the guess uses is non-empty, has no '/' and is neither "." nor ".." |
| `Mime.Extension` | src/main.rs:44 | the extension is the text after the file name's last dot, that dot not being its first character; there is none exactly when there is no file name or no dot after the first character |
| `Mime.FileNameOfComponent` | src/main.rs:44 | a single component other than "." and "..", without '/', is its own file name |
| `Mime.FileNameAfterSeparator` | src/main.rs:44 | such a component after a '/' is the file name, whatever precedes the '/' |
| `Mime.ParentHasNoFileName` | src/main.rs:44 | a path that is ".." or ends in "/.." has no file name |
| `Mime.NoComponentNoFileName` | src/main.rs:44 | "", "/", "//", ... and "." have no file name |
| `Mime.FileNameIgnoresTrailingSlash` | src/main.rs:44 | a trailing '/' does not change the file name |
| `Mime.FileNameSkipsCurrentDir` | src/main.rs:44 | a trailing "/." component is skipped: the file name is that of what precedes it |
| `Mime.ExtensionOfSimpleName` | src/main.rs:44 | a name such as "index.html" whose only dot is not its first character has the text after the dot as extension |
| `Mime.ContentType` | src/main.rs:44 | when the path has a non-empty extension with a table entry, the content type is that entry; when it has no extension, an empty one, or one without an entry, it is text/plain |
| `Utf8.DecodeFirst` | src/main.rs:72 | a scalar value read at the start of the bytes takes one to four of them |
| `Utf8.DecodeTwo` | src/main.rs:72 | an accepted two-byte sequence (lead C2-DF, then a continuation byte) takes exactly two bytes |
| `Utf8.DecodeThree` | src/main.rs:72 | an accepted three-byte sequence takes exactly three bytes |
| `Utf8.DecodeFour` | src/main.rs:72 | an accepted four-byte sequence takes exactly four bytes |
| `Utf8.Decode` | src/main.rs:72 | a decoded string has no more characters than there are bytes |
| `Utf8.EncodeCharDecodes` | src/main.rs:72 | the shortest encoding of any scalar value is read back as that value, whatever follows |
| `Utf8.DecodeFirstIsEncoding` | src/main.rs:72 | the bytes an accepted scalar value takes are its shortest encoding, so no overlong form is accepted |
| `Utf8.EncodeThenDecode` | src/main.rs:72 | every string's encoding is accepted and decodes back to the string |
| `Utf8.DecodeThenEncode` | src/main.rs:72 | accepted bytes are exactly the encoding of the string they decode to |
| `Utf8.DecodeIffEncode` | src/main.rs:72 | bytes decode to a string if and only if the string encodes to those bytes |
| `Utf8.RejectsMalformed` | src/main.rs:72 | an overlong form, a surrogate half, a stray continuation byte and a value past U+10FFFF are rejected |
| `StaticFiles.StaticPathHandler` | src/main.rs:38-65 | the handler either faults on the read, or answers 404 with no body and no Content-Type, or 200 with a Content-Type |
| `StaticFiles.ServePath` | src/main.rs:47-64 | given the guessed type and the joined path: 404 with no body and no Content-Type exactly when nothing is at the path, a fault exactly when what is there cannot be read, otherwise 200 with the file's bytes and the guessed type |
| `StaticFiles.NotFoundIffMissing` | src/main.rs:48-52 | the answer is 404 exactly when the candidate path does not exist, and then the body is empty and there is no Content-Type |
| `StaticFiles.ExistingFileIsServed` | src/main.rs:44-62 | an existing regular file is answered with 200, its stored bytes, and the content type of the normalised path |
| `StaticFiles.FaultIffUnreadable` | src/main.rs:48-54 | the handler faults exactly when the candidate path exists but cannot be read |
| `StaticFiles.PlainTextFallback` | src/main.rs:44-62 | a served file with no extension, an empty one, or one the table lacks, is sent as text/plain |
| `StaticFiles.TableEntryIsUsed` | src/main.rs:44-62 | a served file whose non-empty extension has a table entry is sent with that entry as Content-Type |
| `StaticFiles.LeadingSlashesIgnored` | src/main.rs:39-42 | two captured paths that differ only in their leading slashes get the same answer |
| `StaticFiles.RootServesIndex` | src/main.rs:39-42 | "", "/", "//", ... are answered exactly as "/index.html" and "index.html" are |
| `StaticFiles.SiteServesIndexForRoot` | src/main.rs:38-65 | with index.html and style.css under "site" and a table knowing html and css, "/" gives 200, text/html and the index bytes |
| `StaticFiles.SiteServesStylesheet` | src/main.rs:38-65 | in the same site, "/style.css" gives 200, text/css and the stylesheet bytes |
| `StaticFiles.SiteMissingIsNotFound` | src/main.rs:38-65 | in the same site, "/missing.txt" gives 404 with an empty body |
| `AccessLogging.AccessLog.constructor` | src/main.rs:74-79 | a new record holds the given URI, method, body text and status |
| `AccessLogging.ExtractReqResInfo` | src/main.rs:67-88 | a non-UTF-8 body faults before anything is forwarded or logged; otherwise the downstream handler's result for a request equal to the original is returned as it is, and the emitted record holds the request's URI and method, the decoded body (which encodes back to the exact bytes) and the status of the returned response |
| `AccessLogging.Serve` | src/main.rs:114-117 | with the middleware layered over the route, the handler's (or router's) result is returned, the logged status equals the returned status, and a missing file is logged as 404 |

## Left out

- `main` (src/main.rs:90-126): the tracing subscriber and its timestamp format, `clap` argument parsing with its port default, socket binding and the axum server loop. They are process bootstrap and I/O.
- The emission itself (src/main.rs:84-86): the record is returned as a value, `AccessLogging.LogEntry`; the JSON text `serde_json` makes of it and the debug-level logging sink are not modelled.
- The `mime_guess` extension table and its case handling (src/main.rs:44): it belongs to a foreign crate, so it is the parameter `Mime.MimeLookup`; only its refusal to guess for an empty extension and the text/plain fallback are modelled.
- Real file-system calls (src/main.rs:48, 54): the map is keyed by the joined path string as written, so the operating system's resolution of `..`, `.`, repeated slashes and symbolic links is not modelled, nor a file changing between the existence check and the read.
- `Mime.FileName`: a path that is not valid Unicode cannot occur, since paths are strings here.
- `HeaderValue::from_str(..).unwrap()` (src/main.rs:59): it depends on the `http` crate's header validation; the content type is taken as a valid header value.
- The `unwrap` on `hyper::body::to_bytes` (src/main.rs:71): a transport error while reading the body stream; the model's request carries its body already received in full.
- Async scheduling, body streaming and the one-shot nature of the body stream: the model's request body is a byte sequence, so that "the body is replayed" reads as "the forwarded request equals the original".
- Route matching and the `Path` extractor's percent-decoding (src/main.rs:115): `AccessLogging.Serve` takes the router's capture and its fallback answer as parameters.
- Panics: an `unwrap` failure is the `Fault` result; what the server then does with the task and the connection is not modelled.
