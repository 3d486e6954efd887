/**
 * Turning the path captured by the wildcard route into a file path under the
 * static directory: strip the leading slashes, fall back to the index
 * document, and join onto the root the way Rust's `Path::join` does on Unix.
 */
module Paths {

  /** The document served when the captured path is empty once trimmed. */
  const DefaultDocument: string := "index.html"

  predicate AllSlashes(s: string) {
    forall i :: 0 <= i < |s| ==> s[i] == '/'
  }

  /** On Unix a path "has a root" exactly when it starts with a separator. */
  predicate StartsWithSlash(s: string) {
    |s| > 0 && s[0] == '/'
  }

  /**
   * `str::trim_start_matches('/')`: the input with its whole leading run of
   * '/' removed. The result is a suffix of the input, everything cut off is a
   * slash, and what is left does not start with one.
   */
  function TrimLeadingSlashes(s: string): (r: string)
    ensures |r| <= |s| && r == s[|s| - |r|..]
    ensures AllSlashes(s[..|s| - |r|])
    ensures !StartsWithSlash(r)
  {
    if StartsWithSlash(s) then
      var r := TrimLeadingSlashes(s[1..]);
      var k := |s| - |r|;
      assert s[1..][k - 1..] == s[k..];
      assert AllSlashes(s[..k]) by {
        forall i | 0 <= i < k
          ensures s[..k][i] == '/'
        {
          if i > 0 {
            assert s[..k][i] == s[1..][..k - 1][i - 1];
          }
        }
      }
      r
    else
      s
  }

  /** The trimmed path is the one split of `s` into slashes and a rest not starting with one. */
  lemma {:induction false} TrimIsMaximalRun(s: string, k: nat)
    requires k <= |s| && AllSlashes(s[..k]) && !StartsWithSlash(s[k..])
    ensures TrimLeadingSlashes(s) == s[k..]
  {
    if k > 0 {
      assert s[0] == s[..k][0];
      assert s[1..][..k - 1] == s[..k][1..];
      assert s[1..][k - 1..] == s[k..];
      TrimIsMaximalRun(s[1..], k - 1);
    }
  }

  lemma {:induction false} TrimIdempotent(s: string)
    ensures TrimLeadingSlashes(TrimLeadingSlashes(s)) == TrimLeadingSlashes(s)
  {
    var r := TrimLeadingSlashes(s);
    TrimIsMaximalRun(r, 0);
  }

  /**
   * Lines 39-42 of the handler: the trimmed path, or the index document when
   * nothing is left. A path made only of slashes (including "") becomes the
   * index document; any other path loses exactly its leading slashes.
   */
  function NormalizePath(p: string): (r: string)
    ensures |r| > 0 && !StartsWithSlash(r)
    ensures AllSlashes(p) ==> r == DefaultDocument
    ensures !AllSlashes(p) ==> |r| <= |p| && r == p[|p| - |r|..] && AllSlashes(p[..|p| - |r|])
  {
    var t := TrimLeadingSlashes(p);
    if t == "" then
      assert p[..|p|] == p;
      DefaultDocument
    else
      t
  }

  lemma NormalizeIdempotent(p: string)
    ensures NormalizePath(NormalizePath(p)) == NormalizePath(p)
  {
    var r := NormalizePath(p);
    assert !AllSlashes(r) by { assert r[0] != '/'; }
    TrimIsMaximalRun(r, 0);
  }

  /** Requests that differ only in their leading run of slashes resolve alike. */
  lemma NormalizeIgnoresLeadingSlashes(p: string, q: string)
    requires TrimLeadingSlashes(p) == TrimLeadingSlashes(q)
    ensures NormalizePath(p) == NormalizePath(q)
  {
  }

  /** `PathBuf::push` inserts a separator after a base that is non-empty and does not end in one. */
  predicate NeedsSeparator(base: string) {
    base != "" && base[|base| - 1] != '/'
  }

  /**
   * `PathBuf::push` on Unix, which `Path::join` calls: a pushed path that has
   * a root replaces the base; otherwise the base is kept, one '/' follows it
   * exactly when it needs a separator, and the pushed path comes last.
   */
  function Join(base: string, rel: string): (r: string)
    ensures StartsWithSlash(rel) ==> r == rel
    ensures !StartsWithSlash(rel) ==>
              && |r| == |base| + (if NeedsSeparator(base) then 1 else 0) + |rel|
              && r[..|base|] == base
              && (NeedsSeparator(base) ==> r[|base|] == '/')
    ensures |rel| <= |r| && r[|r| - |rel|..] == rel
  {
    if StartsWithSlash(rel) then rel
    else if NeedsSeparator(base) then base + "/" + rel
    else base + rel
  }

  /**
   * Lines 45-46: the file the handler looks for. It always lies under the
   * static directory as a string: the directory is a proper prefix, and the
   * normalised path is what ends it.
   */
  function CandidatePath(staticDir: string, captured: string): (r: string)
    ensures |staticDir| < |r| && r[..|staticDir|] == staticDir
    ensures |NormalizePath(captured)| <= |r| && r[|r| - |NormalizePath(captured)|..] == NormalizePath(captured)
  {
    Join(staticDir, NormalizePath(captured))
  }

  /**
   * The join always extends the static directory: the candidate is the
   * directory, then '/' exactly when the directory needs a separator, then
   * the normalised path.
   */
  lemma CandidateExtendsRoot(staticDir: string, captured: string)
    ensures var c := CandidatePath(staticDir, captured);
            var rel := NormalizePath(captured);
            && |staticDir| + |rel| <= |c|
            && c[..|staticDir|] == staticDir
            && c[|c| - |rel|..] == rel
            && c[|staticDir|..|c| - |rel|] == (if NeedsSeparator(staticDir) then "/" else "")
  {
    var c := CandidatePath(staticDir, captured);
    var rel := NormalizePath(captured);
    var mid := c[|staticDir|..|c| - |rel|];
    if NeedsSeparator(staticDir) {
      assert |mid| == 1 && mid[0] == c[|staticDir|] == '/';
    } else {
      assert |mid| == 0;
    }
  }

  /** A request for "/name" looks for "dir/name" when the root does not end in a separator. */
  lemma CandidateOfRootedName(staticDir: string, name: string)
    requires name != "" && !StartsWithSlash(name)
    requires staticDir != "" && staticDir[|staticDir| - 1] != '/'
    ensures NormalizePath("/" + name) == name
    ensures CandidatePath(staticDir, "/" + name) == staticDir + "/" + name
  {
    var p := "/" + name;
    assert p[..1] == "/" && p[1..] == name;
    TrimIsMaximalRun(p, 1);
  }

  /** Why the slashes are trimmed: joined as captured, an absolute path would replace the root. */
  lemma AbsolutePathWouldReplaceRoot()
    ensures Join("public", "/etc/passwd") == "/etc/passwd"
    ensures CandidatePath("public", "/etc/passwd") == "public/etc/passwd"
  {
    CandidateOfRootedName("public", "etc/passwd");
    ExamplePaths();
  }

  /** No `..` check is made: a parent-directory component reaches the joined path untouched. */
  lemma ParentComponentsPassThrough()
    ensures CandidatePath("public", "/../secret") == "public/../secret"
  {
    CandidateOfRootedName("public", "../secret");
    ExamplePaths();
  }

  /** The example path strings above, spelled out. */
  lemma ExamplePaths()
    ensures "/" + "etc/passwd" == "/etc/passwd" && "public" + "/" + "etc/passwd" == "public/etc/passwd"
    ensures "/" + "../secret" == "/../secret" && "public" + "/" + "../secret" == "public/../secret"
  {
  }
}
