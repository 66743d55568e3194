/**
 * The parts of `std::path::Path` the pipeline relies on: `file_name`, `file_stem`
 * and `extension`, for paths written with `/` separators.
 */
module Paths {
  import opened Wrappers
  import opened Text

  /** The last component of the path; none for an empty path or one ending in `.` or `..`. */
  function FileName(path: string): (r: Option<string>)
    ensures r.Some? ==> r.value != [] && IsSuffix(r.value, path)
    ensures r.Some? ==> forall i :: 0 <= i < |r.value| ==> r.value[i] != '/'
    ensures IsAscii(path) && r.Some? ==> IsAscii(r.value)
  {
    var last := match LastIndexOf(path, '/')
      case Some(i) => path[i + 1..]
      case None => path;
    if last == "" || last == "." || last == ".." then None else Some(last)
  }

  /**
   * `Path::file_stem`: the file name up to its last `.`; the whole name when it has
   * no `.` or its only `.` is the leading one.
   */
  function FileStem(path: string): (r: Option<string>)
    ensures r.Some? <==> FileName(path).Some?
    ensures r.Some? ==> r.value != [] && StartsWith(FileName(path).value, r.value)
    ensures IsAscii(path) && r.Some? ==> IsAscii(r.value)
  {
    match FileName(path)
    case None => None
    case Some(name) =>
      match LastIndexOf(name, '.')
      case None => Some(name)
      case Some(i) => if i == 0 then Some(name) else Some(name[..i])
  }

  /** `Path::extension`: the text after the last `.` of the file name, unless that `.` leads it. */
  function Extension(path: string): (r: Option<string>)
    ensures r.Some? ==> FileName(path).Some? && forall i :: 0 <= i < |r.value| ==> r.value[i] != '.'
  {
    match FileName(path)
    case None => None
    case Some(name) =>
      match LastIndexOf(name, '.')
      case None => None
      case Some(i) => if i == 0 then None else Some(name[i + 1..])
  }

  /** The walk's filter: an entry is a Markdown file when its extension is exactly `md`. */
  predicate IsMarkdown(path: string): (r: bool)
    ensures r <==> IsSuffix(".md", path) && |path| > 3 && path[|path| - 4] != '/'
  {
    MarkdownPath(path);
    Extension(path) == Some("md")
  }

  /** The extension is `md` exactly when the path ends in `.md` after a non-empty stem. */
  lemma MarkdownPath(path: string)
    ensures Extension(path) == Some("md") <==> IsSuffix(".md", path) && |path| > 3 && path[|path| - 4] != '/'
  {
    if Extension(path) == Some("md") {
      MarkdownPathEndsInMd(path);
    } else if IsSuffix(".md", path) && |path| > 3 && path[|path| - 4] != '/' {
      EndsInMdIsMarkdownPath(path);
    }
  }

  lemma MarkdownPathEndsInMd(path: string)
    requires Extension(path) == Some("md")
    ensures IsSuffix(".md", path) && |path| > 3 && path[|path| - 4] != '/'
  {
    var name := FileName(path).value;
    var i := LastIndexOf(name, '.').value;
    NameEndsInMd(name, i);
    SuffixOfSuffix(name, path);
  }

  /** A name whose last `.` is not its first character, followed by `md`, ends in `.md`. */
  lemma NameEndsInMd(name: string, i: nat)
    requires 0 < i < |name| && name[i] == '.' && name[i + 1..] == "md"
    ensures |name| > 3 && name[|name| - 3..] == ".md" && name[|name| - 4] == name[i - 1]
  {
  }

  lemma SuffixOfSuffix(name: string, path: string)
    requires |name| > 3 && name[|name| - 3..] == ".md" && IsSuffix(name, path)
    ensures path[|path| - 3..] == ".md" && path[|path| - 4] == name[|name| - 4]
  {
    assert path[|path| - |name|..] == name;
    assert path[|path| - 3..] == name[|name| - 3..];
  }

  lemma EndsInMdIsMarkdownPath(path: string)
    requires IsSuffix(".md", path) && |path| > 3 && path[|path| - 4] != '/'
    ensures Extension(path) == Some("md")
  {
    LastComponentEndsInMd(path);
    var name := FileName(path).value;
    LastDotOfMdName(name);
    assert name[|name| - 2..] == "md";
  }

  /** The file name of a path ending in `.md` after a non-`/` character ends in `.md` itself. */
  lemma LastComponentEndsInMd(path: string)
    requires IsSuffix(".md", path) && |path| > 3 && path[|path| - 4] != '/'
    ensures FileName(path).Some? && |FileName(path).value| > 3
    ensures FileName(path).value[|FileName(path).value| - 3..] == ".md"
  {
    var tail := path[|path| - 4..];
    assert tail[1..] == ".md";
    assert forall k :: |path| - 4 <= k < |path| ==> path[k] != '/' by {
      forall k | |path| - 4 <= k < |path| ensures path[k] != '/' {
        assert path[k] == tail[k - (|path| - 4)];
      }
    }
    match LastIndexOf(path, '/')
    case Some(j) =>
      assert j < |path| - 4;
      var last := path[j + 1..];
      assert last[|last| - 3..] == path[|path| - 3..];
    case None =>
  }

  /** In a name ending in `.md`, the last `.` is the one before `md`. */
  lemma LastDotOfMdName(name: string)
    requires |name| > 3 && name[|name| - 3..] == ".md"
    ensures LastIndexOf(name, '.') == Some(|name| - 3)
  {
    assert name[|name| - 3] == '.' && name[|name| - 2] == 'm' && name[|name| - 1] == 'd';
  }

  lemma NameWithoutDot(path: string, name: string)
    requires FileName(path) == Some(name)
    requires LastIndexOf(name, '.').None? || LastIndexOf(name, '.') == Some(0)
    ensures FileStem(path) == Some(name) && Extension(path).None?
  {
  }

  lemma NameWithDot(path: string, name: string, i: nat)
    requires FileName(path) == Some(name)
    requires LastIndexOf(name, '.') == Some(i) && i != 0
    ensures FileStem(path) == Some(name[..i]) && Extension(path) == Some(name[i + 1..])
    ensures name == name[..i] + "." + name[i + 1..]
  {
    assert name == name[..i] + [name[i]] + name[i + 1..];
  }

  /** Stem and extension put back together give the file name. */
  lemma StemAndExtensionRebuildName(path: string)
    requires FileName(path).Some?
    ensures Extension(path).Some? ==> FileName(path).value == FileStem(path).value + "." + Extension(path).value
    ensures Extension(path).None? ==> FileStem(path) == FileName(path)
  {
    var name := FileName(path).value;
    match LastIndexOf(name, '.')
    case None => NameWithoutDot(path, name);
    case Some(i) =>
      if i == 0 {
        NameWithoutDot(path, name);
      } else {
        NameWithDot(path, name, i);
      }
  }
}
