/**
 * The route handler: resolve the captured path under the static directory
 * and answer 404 when nothing is there, or 200 with the file's bytes and its
 * inferred content type. The file system is a map from the path strings the
 * handler asks about to what it finds there.
 */
module StaticFiles {

  import opened Wrappers
  import opened Http
  import Paths
  import Mime

  /**
   * What exists at a path: a regular file with its bytes, or something
   * `Path::exists` reports but `fs::read` cannot read (a directory, a file
   * without read permission).
   */
  datatype Entry = Regular(content: seq<Byte>) | Unreadable

  type FileSystem = map<string, Entry>

  /** The server configuration: the static root and the listening port. */
  datatype AppSetting = AppSetting(staticDir: string, port: U16)

  /**
   * `static_path_handler`. A missing path gives 404 with an empty body and no
   * header; an unreadable one stops on the `unwrap` of the read; a file gives
   * 200, its bytes, and a `Content-Type`.
   */
  function StaticPathHandler(captured: string, setting: AppSetting, fs: FileSystem, lookup: Mime.MimeLookup)
    : (r: Result<Response, Fault>)
    ensures r.Failure? ==> r.error == FileReadPanic
    ensures r.Success? ==>
              || (r.value.status == StatusNotFound && r.value.contentType.None? && r.value.body == [])
              || (r.value.status == StatusOk && r.value.contentType.Some?)
  {
    var path := Paths.NormalizePath(captured);
    ServePath(Mime.ContentType(lookup, path), Paths.CandidatePath(setting.staticDir, captured), fs)
  }

  /**
   * Lines 48-64, once the type is guessed and the path joined: 404 with an
   * empty body and no header when nothing is at the path, a fault when what
   * is there cannot be read, and otherwise 200 with the file's bytes and the
   * guessed type.
   */
  function ServePath(mimeType: string, filePath: string, fs: FileSystem): (r: Result<Response, Fault>)
    ensures filePath !in fs <==> r == Success(Response(StatusNotFound, None, []))
    ensures r.Failure? <==> filePath in fs && fs[filePath].Unreadable?
    ensures r.Failure? ==> r.error == FileReadPanic
    ensures filePath in fs && fs[filePath].Regular? ==>
              r == Success(Response(StatusOk, Some(mimeType), fs[filePath].content))
  {
    if filePath !in fs then
      Success(Response(StatusNotFound, None, []))
    else
      match fs[filePath]
      case Unreadable => Failure(FileReadPanic)
      case Regular(bytes) => Success(Response(StatusOk, Some(mimeType), bytes))
  }

  /** 404 with an empty body and no `Content-Type` exactly when the candidate path does not exist. */
  lemma NotFoundIffMissing(captured: string, setting: AppSetting, fs: FileSystem, lookup: Mime.MimeLookup)
    ensures var r := StaticPathHandler(captured, setting, fs, lookup);
            (r.Success? && r.value.status == StatusNotFound)
            <==> Paths.CandidatePath(setting.staticDir, captured) !in fs
    ensures Paths.CandidatePath(setting.staticDir, captured) !in fs ==>
              StaticPathHandler(captured, setting, fs, lookup) == Success(Response(StatusNotFound, None, []))
  {
  }

  /**
   * An existing regular file is served with status 200, its stored bytes
   * unchanged, and the content type inferred from the normalised path.
   */
  lemma ExistingFileIsServed(captured: string, setting: AppSetting, fs: FileSystem, lookup: Mime.MimeLookup)
    requires var c := Paths.CandidatePath(setting.staticDir, captured); c in fs && fs[c].Regular?
    ensures var c := Paths.CandidatePath(setting.staticDir, captured);
            var ct := Mime.ContentType(lookup, Paths.NormalizePath(captured));
            StaticPathHandler(captured, setting, fs, lookup) == Success(Response(StatusOk, Some(ct), fs[c].content))
  {
  }

  /** The handler stops with a fault exactly when the candidate exists but cannot be read. */
  lemma FaultIffUnreadable(captured: string, setting: AppSetting, fs: FileSystem, lookup: Mime.MimeLookup)
    ensures var c := Paths.CandidatePath(setting.staticDir, captured);
            StaticPathHandler(captured, setting, fs, lookup).Failure? <==> c in fs && fs[c].Unreadable?
  {
  }

  /**
   * A served file whose name has no extension, an empty one, or one the table
   * lacks, is sent as text/plain.
   */
  lemma PlainTextFallback(captured: string, setting: AppSetting, fs: FileSystem, lookup: Mime.MimeLookup)
    ensures var e := Mime.Extension(Paths.NormalizePath(captured));
            var r := StaticPathHandler(captured, setting, fs, lookup);
            (e.None? || e.value == "" || lookup(e.value).None?) && r.Success? && r.value.status == StatusOk ==>
              r.value.contentType == Some(Mime.TextPlain)
  {
    var c := Paths.CandidatePath(setting.staticDir, captured);
    if c in fs && fs[c].Regular? {
      ExistingFileIsServed(captured, setting, fs, lookup);
    }
  }

  /** A served file whose extension the table knows is sent with the table's type for it. */
  lemma TableEntryIsUsed(captured: string, setting: AppSetting, fs: FileSystem, lookup: Mime.MimeLookup)
    ensures var e := Mime.Extension(Paths.NormalizePath(captured));
            var r := StaticPathHandler(captured, setting, fs, lookup);
            e.Some? && e.value != "" && lookup(e.value).Some? && r.Success? && r.value.status == StatusOk ==>
              r.value.contentType == lookup(e.value)
  {
    var c := Paths.CandidatePath(setting.staticDir, captured);
    if c in fs && fs[c].Regular? {
      ExistingFileIsServed(captured, setting, fs, lookup);
    }
  }

  /** Two captured paths that differ only in their leading slashes get the same answer. */
  lemma LeadingSlashesIgnored(p: string, q: string, setting: AppSetting, fs: FileSystem, lookup: Mime.MimeLookup)
    requires Paths.TrimLeadingSlashes(p) == Paths.TrimLeadingSlashes(q)
    ensures StaticPathHandler(p, setting, fs, lookup) == StaticPathHandler(q, setting, fs, lookup)
  {
    Paths.NormalizeIgnoresLeadingSlashes(p, q);
  }

  /** "", "/", "//", ... are all answered as a request for the index document is. */
  lemma RootServesIndex(p: string, setting: AppSetting, fs: FileSystem, lookup: Mime.MimeLookup)
    requires Paths.AllSlashes(p)
    ensures StaticPathHandler(p, setting, fs, lookup) == StaticPathHandler("/index.html", setting, fs, lookup)
    ensures StaticPathHandler(p, setting, fs, lookup) == StaticPathHandler(Paths.DefaultDocument, setting, fs, lookup)
  {
    var idx := "/index.html";
    assert idx[1..] == Paths.DefaultDocument;
    Paths.TrimIsMaximalRun(idx, 1);
  }

  /**
   * A small site: a root holding index.html and style.css, with an extension
   * table that knows html and css.
   */
  const SiteSetting := AppSetting("site", 3000)
  const SiteIndex: seq<Byte> := [0x3C, 0x68, 0x31, 0x3E, 0x68, 0x69, 0x3C, 0x2F, 0x68, 0x31, 0x3E]
  const SiteCss: seq<Byte> := [0x62, 0x6F, 0x64, 0x79, 0x7B, 0x7D]
  const SiteFiles: FileSystem := map["site/index.html" := Regular(SiteIndex), "site/style.css" := Regular(SiteCss)]
  const SiteLookup: Mime.MimeLookup :=
    e => if e == "html" then Some("text/html") else if e == "css" then Some("text/css") else None

  /** The path strings of the small site, spelled out. */
  lemma SitePaths()
    ensures "/" + "style.css" == "/style.css" && "site" + "/" + "style.css" == "site/style.css"
    ensures "/" + "missing.txt" == "/missing.txt" && "site" + "/" + "missing.txt" == "site/missing.txt"
    ensures "site" + "/" + "index.html" == "site/index.html"
  {
  }

  /** "/" serves the index document as text/html. */
  lemma SiteServesIndexForRoot()
    ensures StaticPathHandler("/", SiteSetting, SiteFiles, SiteLookup)
            == Success(Response(StatusOk, Some("text/html"), SiteIndex))
  {
    assert Paths.AllSlashes("/");
    SitePaths();
    SiteIndexType();
  }

  lemma SiteIndexType()
    ensures Mime.ContentType(SiteLookup, "index.html") == "text/html"
  {
    Mime.ExtensionOfSimpleName("index.html", 5);
    assert "index.html"[6..] == "html";
  }

  lemma SiteStylesheetType()
    ensures Mime.ContentType(SiteLookup, "style.css") == "text/css"
  {
    Mime.ExtensionOfSimpleName("style.css", 5);
    assert "style.css"[6..] == "css";
  }

  /** "/style.css" serves the stylesheet as text/css. */
  lemma SiteServesStylesheet()
    ensures StaticPathHandler("/style.css", SiteSetting, SiteFiles, SiteLookup)
            == Success(Response(StatusOk, Some("text/css"), SiteCss))
  {
    Paths.CandidateOfRootedName("site", "style.css");
    SitePaths();
    SiteStylesheetType();
    ExistingFileIsServed("/style.css", SiteSetting, SiteFiles, SiteLookup);
  }

  /** "/missing.txt" names nothing in the root: 404. */
  lemma SiteMissingIsNotFound()
    ensures StaticPathHandler("/missing.txt", SiteSetting, SiteFiles, SiteLookup)
            == Success(Response(StatusNotFound, None, []))
  {
    Paths.CandidateOfRootedName("site", "missing.txt");
    SitePaths();
    SiteLacksMissing();
    NotFoundIffMissing("/missing.txt", SiteSetting, SiteFiles, SiteLookup);
  }

  /** "site/missing.txt" differs from both stored paths at its sixth character. */
  lemma SiteLacksMissing()
    ensures "site/missing.txt" !in SiteFiles
  {
    assert "site/missing.txt"[5] != "site/index.html"[5];
    assert "site/missing.txt"[5] != "site/style.css"[5];
  }
}
