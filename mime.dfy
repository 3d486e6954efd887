/**
 * Content-type inference for a served path: `mime_guess::from_path(path)
 * .first_or_text_plain()`. The guess is keyed by the path's extension as
 * Rust's `Path::extension` computes it on Unix; the extension table itself
 * belongs to the `mime_guess` crate and is a parameter here.
 */
module Mime {

  import opened Wrappers
  import Paths

  /** The fallback when the extension is missing or has no entry. */
  const TextPlain: string := "text/plain"

  /** The first MIME type the extension table gives for an extension, if any. */
  type MimeLookup = string -> Option<string>

  /** The index of the last occurrence of `c` in `s`. */
  function LastIndexOf(s: string, c: char): (r: Option<nat>)
    ensures r.Some? ==> r.value < |s| && s[r.value] == c && c !in s[r.value + 1..]
    ensures r.None? ==> c !in s
  {
    if |s| == 0 then None
    else if s[|s| - 1] == c then Some(|s| - 1)
    else
      var r := LastIndexOf(s[..|s| - 1], c);
      assert s == s[..|s| - 1] + [s[|s| - 1]];
      r
  }

  /** The path with its trailing run of '/' removed, as path components ignore it. */
  function TrimTrailingSlashes(s: string): (r: string)
    ensures |r| <= |s| && r == s[..|r|]
    ensures Paths.AllSlashes(s[|r|..])
    ensures |r| == 0 || r[|r| - 1] != '/'
  {
    if |s| > 0 && s[|s| - 1] == '/' then
      var r := TrimTrailingSlashes(s[..|s| - 1]);
      assert s[|r|..] == s[..|s| - 1][|r|..] + ['/'];
      r
    else
      s
  }

  /** The text after the last '/': a suffix free of separators, preceded by one if shorter. */
  function LastSegment(s: string): (r: string)
    ensures |r| <= |s| && r == s[|s| - |r|..]
    ensures '/' !in r
    ensures |r| < |s| ==> s[|s| - |r| - 1] == '/'
  {
    match LastIndexOf(s, '/')
    case None => s
    case Some(i) => s[i + 1..]
  }

  /**
   * `Path::file_name` on Unix: the last normal component. Trailing slashes
   * and interior `.` components are skipped; a path that ends in `..`, is
   * `.`, or has no component at all has no file name.
   */
  function FileName(p: string): (r: Option<string>)
    ensures r.Some? ==> |r.value| > 0 && '/' !in r.value && r.value != "." && r.value != ".."
    decreases |p|
  {
    var q := TrimTrailingSlashes(p);
    if q == "" || q == "." then None
    else if |q| >= 2 && q[|q| - 2..] == "/." then FileName(q[..|q| - 2])
    else
      var name := LastSegment(q);
      assert name != "." by {
        if |q| >= 2 && |name| == 1 {
          assert q[|q| - 2..] == [q[|q| - 2], q[|q| - 1]];
        }
      }
      if name == ".." then None else Some(name)
  }

  /** `e` is what follows the last dot of `name`, and that dot is not its first character. */
  predicate IsExtensionOf(e: string, name: string) {
    && |e| + 1 < |name|
    && name[|name| - |e| - 1] == '.'
    && name[|name| - |e|..] == e
    && '.' !in e
  }

  /**
   * `Path::extension`: the file name's text after its last dot, unless there
   * is no dot or the only dot starts the name (".profile").
   */
  function Extension(path: string): (r: Option<string>)
    ensures r.Some? ==> FileName(path).Some? && IsExtensionOf(r.value, FileName(path).value)
    ensures r.None? ==> FileName(path).None? || '.' !in FileName(path).value[1..]
  {
    match FileName(path)
    case None => None
    case Some(name) =>
      match LastIndexOf(name, '.')
      case None => None
      case Some(i) =>
        if i == 0 then
          assert name[1..] == name[i + 1..];
          None
        else
          Some(name[i + 1..])
  }

  /**
   * The `Content-Type` a path is served with: the table's first entry for the
   * path's extension, or text/plain when there is no extension, when the
   * extension is empty ("notes." has the extension ""; `mime_guess` makes no
   * guess for it), or when the table has no entry for it.
   */
  function ContentType(lookup: MimeLookup, path: string): (r: string)
    ensures Extension(path).Some? && Extension(path).value != "" && lookup(Extension(path).value).Some? ==>
              r == lookup(Extension(path).value).value
    ensures Extension(path).None? || Extension(path).value == "" || lookup(Extension(path).value).None? ==>
              r == TextPlain
  {
    match Extension(path)
    case None => TextPlain
    case Some(e) =>
      if e == "" then TextPlain
      else
        match lookup(e)
        case None => TextPlain
        case Some(m) => m
  }

  /** The last occurrence is the one with no further occurrence after it. */
  lemma {:induction false} LastIndexOfUnique(s: string, c: char, i: nat)
    requires i < |s| && s[i] == c && c !in s[i + 1..]
    ensures LastIndexOf(s, c) == Some(i)
  {
    if i < |s| - 1 {
      assert s[|s| - 1] == s[i + 1..][|s| - 2 - i];
      assert s[..|s| - 1][i + 1..] == s[i + 1..|s| - 1];
      LastIndexOfUnique(s[..|s| - 1], c, i);
    }
  }

  /** A single component other than "." and "..", with no separator, is its own file name. */
  lemma FileNameOfComponent(name: string)
    requires name != "" && name != "." && name != ".." && '/' !in name
    ensures FileName(name) == Some(name)
  {
    assert name[|name| - 1] != '/' by { assert name[|name| - 1] in name; }
    assert |name| >= 2 ==> name[|name| - 2..] != "/." by {
      if |name| >= 2 { assert name[|name| - 2] in name; }
    }
    assert TrimTrailingSlashes(name) == name;
    assert LastSegment(name) == name;
  }

  /**
   * A name without separators whose only dot is at `i > 0`: its extension is
   * what follows the dot ("index.html" has "html").
   */
  lemma ExtensionOfSimpleName(name: string, i: nat)
    requires 0 < i < |name| && name[i] == '.' && '/' !in name && '.' !in name[..i] + name[i + 1..]
    ensures Extension(name) == Some(name[i + 1..])
  {
    assert name[0] != '.' by { assert name[0] in name[..i] + name[i + 1..]; }
    FileNameOfComponent(name);
    assert '.' !in name[i + 1..] by {
      assert name[i + 1..] == (name[..i] + name[i + 1..])[i..];
    }
    LastIndexOfUnique(name, '.', i);
  }

  /** A component after a separator is the file name, whatever directory precedes it. */
  lemma FileNameAfterSeparator(dir: string, name: string)
    requires name != "" && name != "." && name != ".." && '/' !in name
    ensures FileName(dir + "/" + name) == Some(name)
  {
    var p := dir + "/" + name;
    assert p[|dir| + 1..] == name;
    assert p[|p| - 1] != '/' by { assert p[|p| - 1] == name[|name| - 1]; }
    assert TrimTrailingSlashes(p) == p;
    assert p[|p| - 2..] != "/." by {
      if |name| == 1 {
        assert p[|p| - 1] == name[0];
      } else {
        assert p[|p| - 2] == name[|name| - 2];
        assert name[|name| - 2] in name;
      }
    }
    LastIndexOfUnique(p, '/', |dir|);
  }

  /** A path whose last component is `..` has no file name. */
  lemma ParentHasNoFileName(dir: string)
    ensures FileName(dir + "/..") == None
    ensures FileName("..") == None
  {
    var p := dir + "/..";
    assert p[|dir| + 1..] == "..";
    assert TrimTrailingSlashes(p) == p;
    assert p[|p| - 2..] == "..";
    LastIndexOfUnique(p, '/', |dir|);
    assert TrimTrailingSlashes("..") == "..";
  }

  /** The root, the empty path and "." have no component to name. */
  lemma NoComponentNoFileName(p: string)
    ensures Paths.AllSlashes(p) ==> FileName(p) == None
    ensures FileName(".") == None
  {
    var q := TrimTrailingSlashes(p);
    if Paths.AllSlashes(p) {
      assert Paths.AllSlashes(q);
    }
    assert TrimTrailingSlashes(".") == ".";
  }

  /** Trailing separators do not change the file name. */
  lemma FileNameIgnoresTrailingSlash(p: string)
    ensures FileName(p + "/") == FileName(p)
  {
    assert (p + "/")[..|p|] == p;
  }

  /** A trailing `.` component is skipped: the name is that of what precedes it. */
  lemma FileNameSkipsCurrentDir(p: string)
    ensures FileName(p + "/.") == FileName(p)
  {
    var q := p + "/.";
    assert TrimTrailingSlashes(q) == q;
    assert q[|q| - 2..] == "/." && q[..|q| - 2] == p;
  }
}
