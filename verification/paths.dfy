/** The parts of `pathlib.Path` the pipeline relies on, for '/'-separated paths. */
module Paths {
  import opened Wrappers
  import opened Strings

  /** `Path.name`: the final component of the path. */
  function Name(path: string): string {
    match LastIndexOf(path, '/')
    case None => path
    case Some(i) => path[i + 1..]
  }

  /** `Path.suffix`: the name from its last '.', unless that dot is the
      first or the last character of the name, in which case it is empty. */
  function Suffix(path: string): string {
    NameSuffix(Name(path))
  }

  function NameSuffix(name: string): string {
    match LastIndexOf(name, '.')
    case None => ""
    case Some(i) => if 0 < i < |name| - 1 then name[i..] else ""
  }

  /** `dir / name`. */
  function Join(dir: string, name: string): string {
    dir + "/" + name
  }

  lemma NameOfJoin(dir: string, name: string)
    requires '/' !in name
    ensures Name(Join(dir, name)) == name
  {
    var p := Join(dir, name);
    assert p[|dir|] == '/';
    assert p[|dir| + 1..] == name;
    LastIndexOfUnique(p, '/', |dir|);
  }

  /** A file `stem + ext` in a directory has suffix `ext` when the stem is
      not empty and `ext` is a dot followed by dot-free characters. */
  lemma SuffixOfJoin(dir: string, stem: string, ext: string)
    requires '/' !in stem && '/' !in ext
    requires |stem| > 0 && |ext| >= 2 && ext[0] == '.' && '.' !in ext[1..]
    ensures Suffix(Join(dir, stem + ext)) == ext
  {
    var name := stem + ext;
    assert '/' !in name;
    NameOfJoin(dir, name);
    assert name[|stem|] == '.';
    assert name[|stem| + 1..] == ext[1..];
    LastIndexOfUnique(name, '.', |stem|);
  }

  /** Lower-casing a path lower-cases its name. */
  lemma NameLower(path: string)
    ensures Name(LowerAscii(path)) == LowerAscii(Name(path))
  {
    LastIndexOfLower(path, '/');
    match LastIndexOf(path, '/')
    case None =>
    case Some(i) =>
      LowerAsciiSlice(path, i + 1, |path|);
  }

  lemma NameSuffixLower(name: string)
    ensures NameSuffix(LowerAscii(name)) == LowerAscii(NameSuffix(name))
  {
    LastIndexOfLower(name, '.');
    assert LowerAscii("") == "";
    match LastIndexOf(name, '.')
    case None =>
    case Some(i) =>
      if 0 < i < |name| - 1 {
        LowerAsciiSlice(name, i, |name|);
      }
  }

  /** Lower-casing a path lower-cases its suffix. */
  lemma SuffixLower(path: string)
    ensures Suffix(LowerAscii(path)) == LowerAscii(Suffix(path))
  {
    NameLower(path);
    NameSuffixLower(Name(path));
  }
}
