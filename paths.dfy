/**
 * The parts of Rust's `std::path` that the unpacker relies on: a path is an
 * optional root followed by a sequence of components, and `file_name`,
 * `parent`, `file_stem`, `extension`, `set_file_name` and `push` (of a relative
 * path) act on its components.
 */
module Paths {
  import opened Wrappers

  /** One path component, such as "layers", "3dSceneLayer.json.gz" or "..". */
  type Name = string

  /**
   * A path: whether it starts at the root `/`, then its components as
   * `Path::components` yields them (no empty components, and "." at most as the
   * first one).
   */
  datatype Path = Path(rooted: bool, names: seq<Name>)

  /** `Path::file_name`: the final component, unless there is none or it is "." or "..". */
  function FileName(p: Path): Option<Name> {
    if p.names == [] then None
    else
      var last := p.names[|p.names| - 1];
      if last == "." || last == ".." then None else Some(last)
  }

  /** `Path::parent`: the path without its final component; none for `/` and the empty path. */
  function Parent(p: Path): Option<Path> {
    if p.names == [] then None else Some(Path(p.rooted, p.names[..|p.names| - 1]))
  }

  /** `PathBuf::push` of a relative path: its components are appended. */
  function Join(base: Path, rel: seq<Name>): Path {
    Path(base.rooted, base.names + rel)
  }

  /** `PathBuf::set_file_name`: pop the final component if the path has a file name, then push name. */
  function SetFileName(p: Path, name: Name): Path {
    if FileName(p).Some? then Join(Parent(p).value, [name]) else Join(p, [name])
  }

  /** A path with a file name is its parent followed by that name. */
  lemma FileNameParent(p: Path)
    requires FileName(p).Some?
    ensures Parent(p).Some? && Join(Parent(p).value, [FileName(p).value]) == p
  {
    assert p.names == p.names[..|p.names| - 1] + [p.names[|p.names| - 1]];
  }

  /**
   * After `set_file_name(name)` the path's file name is name, and its parent is
   * the old parent when there was a file name to replace, or else the old path.
   */
  lemma SetFileNameSpec(p: Path, name: Name)
    requires name != "." && name != ".."
    ensures FileName(SetFileName(p, name)) == Some(name)
    ensures Parent(SetFileName(p, name)) == if FileName(p).Some? then Parent(p) else Some(p)
  {
    var q := SetFileName(p, name);
    var base := if FileName(p).Some? then Parent(p).value else p;
    assert q.names[..|q.names| - 1] == base.names;
  }

  /** The position of the last '.' in s, if any. */
  function LastDot(s: Name): (r: Option<nat>)
    ensures r.Some? ==> r.value < |s| && s[r.value] == '.' && '.' !in s[r.value + 1..]
    ensures r.None? ==> '.' !in s
  {
    if s == [] then None
    else if s[|s| - 1] == '.' then Some(|s| - 1)
    else
      var r := LastDot(s[..|s| - 1]);
      assert s == s[..|s| - 1] + [s[|s| - 1]];
      r
  }

  /**
   * `rsplit_file_at_dot` in `std::path`: the stem and the extension of one file
   * name. ".." has no extension; neither has a name whose only '.' is its first
   * character; otherwise the extension follows the last '.' and the stem precedes it.
   */
  function SplitAtDot(name: Name): (Name, Option<Name>) {
    if name == ".." then (name, None)
    else match LastDot(name)
      case None => (name, None)
      case Some(i) => if i == 0 then (name, None) else (name[..i], Some(name[i + 1..]))
  }

  function Stem(name: Name): Name {
    SplitAtDot(name).0
  }

  function Ext(name: Name): Option<Name> {
    SplitAtDot(name).1
  }

  /** `Path::file_stem`. */
  function FileStem(p: Path): Option<Name> {
    match FileName(p)
    case None => None
    case Some(n) => Some(Stem(n))
  }

  /** `Path::extension`. */
  function Extension(p: Path): Option<Name> {
    match FileName(p)
    case None => None
    case Some(n) => Ext(n)
  }

  /**
   * A name with an extension is its stem, a '.', and the extension; the stem is
   * not empty and the extension holds no '.'. A name without one is its own stem
   * and holds no '.' except possibly as its first character.
   */
  lemma StemExtSplit(name: Name)
    requires name != ".."
    ensures Ext(name).Some? ==>
      name == Stem(name) + "." + Ext(name).value && Stem(name) != [] && '.' !in Ext(name).value
    ensures Ext(name).None? ==>
      Stem(name) == name && ('.' !in name || (name[0] == '.' && '.' !in name[1..]))
  {
    match LastDot(name)
    case None =>
    case Some(i) =>
      if i > 0 {
        assert name == name[..i] + "." + name[i + 1..];
      }
  }

  /** Conversely, a non-empty stem, a '.' and a dot-free extension split back into that stem and extension. */
  lemma StemExtJoin(stem: Name, ext: Name)
    requires stem != [] && '.' !in ext && stem + "." + ext != ".."
    ensures Ext(stem + "." + ext) == Some(ext)
    ensures Stem(stem + "." + ext) == stem
  {
    var name := stem + "." + ext;
    var d := |stem|;
    assert name[d] == '.';
    assert name[..d] == stem;
    assert name[d + 1..] == ext;
  }

  /** A final extension of exactly "gz" means the name ends in ".gz" after at least one character, and the stem is the rest. */
  lemma GzSuffix(name: Name)
    requires name != ".."
    ensures Ext(name) == Some("gz") <==> |name| > 3 && name[|name| - 3..] == ".gz"
    ensures Ext(name) == Some("gz") ==> Stem(name) == name[..|name| - 3]
  {
    if Ext(name) == Some("gz") {
      StemExtSplit(name);
      assert name[|name| - 3..] == ".gz";
    } else if |name| > 3 && name[|name| - 3..] == ".gz" {
      var stem := name[..|name| - 3];
      assert name == stem + "." + "gz";
      StemExtJoin(stem, "gz");
    }
  }

  /**
   * `file_stem` and `extension` split the file name: with an extension the
   * file name is stem + "." + extension; without one the stem is the whole
   * file name; with no file name there is neither.
   */
  lemma StemExtension(p: Path)
    ensures FileName(p).None? ==> FileStem(p).None? && Extension(p).None?
    ensures Extension(p).Some? ==>
      FileName(p).Some? && FileName(p).value == FileStem(p).value + "." + Extension(p).value
    ensures FileName(p).Some? && Extension(p).None? ==> FileStem(p) == FileName(p)
  {
    if FileName(p).Some? {
      StemExtSplit(FileName(p).value);
    }
  }
}
