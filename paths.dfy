/** Paths as strings with '/' as separator, and the parts of `std::path::Path`
    the server relies on: `file_name`, `extension` and `join`. */
module Paths {
  import opened Wrappers

  type Path = string

  /** A name that can be the last component of a path: `Path::file_name`
      never yields an empty name, ".", ".." or a name holding a separator. */
  predicate IsPlainName(name: string) {
    name != "" && name != "." && name != ".." && '/' !in name
  }

  /** The index of the last `c` in `s`, or -1 when there is none. */
  function LastIndexOf(s: string, c: char): (k: int)
    ensures -1 <= k < |s|
    ensures k >= 0 ==> s[k] == c
    ensures forall j :: k < j < |s| ==> s[j] != c
  {
    if s == [] then -1
    else if s[|s| - 1] == c then |s| - 1
    else LastIndexOf(s[..|s| - 1], c)
  }

  /** `Path::file_name`: the last normal component. Empty components
      (repeated or trailing separators) and "." components are skipped;
      a path that ends in ".." or has no normal component has no file name. */
  function FileName(p: Path): (r: Option<string>)
    ensures r.Some? ==> IsPlainName(r.value)
    decreases |p|
  {
    var k := LastIndexOf(p, '/');
    var last := p[k + 1..];
    if last == "" || last == "." then
      if k < 0 then None else FileName(p[..k])
    else if last == ".." then None
    else Some(last)
  }

  /** `Path::extension`: what follows the last '.' of the file name, provided
      that dot is not the name's first character (".bashrc" has none). */
  function Extension(p: Path): (r: Option<string>)
    ensures r.Some? ==> FileName(p).Some? && '.' !in r.value
  {
    match FileName(p)
    case None => None
    case Some(name) =>
      var k := LastIndexOf(name, '.');
      if k <= 0 then None else Some(name[k + 1..])
  }

  /** `dir.join(name)` for a relative name: a separator is inserted unless
      `dir` is empty or already ends with one. */
  function Join(dir: Path, name: string): Path {
    if dir == [] || dir[|dir| - 1] == '/' then dir + name else dir + "/" + name
  }

  /** `char::to_ascii_lowercase`. */
  function ToAsciiLower(c: char): char {
    if 'A' <= c <= 'Z' then (c as int + 32) as char else c
  }

  function AsciiLowercase(s: string): (r: string)
    ensures |r| == |s|
  {
    seq(|s|, i requires 0 <= i < |s| => ToAsciiLower(s[i]))
  }

  /** `str::eq_ignore_ascii_case`. */
  predicate EqIgnoreAsciiCase(a: string, b: string) {
    AsciiLowercase(a) == AsciiLowercase(b)
  }

  /** In `q + name`, with `q` empty or ending in a separator and no
      separator in `name`, the last separator is the last character of `q`. */
  lemma LastSeparatorOfPrefix(q: Path, name: string)
    requires '/' !in name
    requires q == [] || q[|q| - 1] == '/'
    ensures LastIndexOf(q + name, '/') == |q| - 1
  {
    var p := q + name;
    var k := LastIndexOf(p, '/');
    forall j | |q| <= j < |p| ensures p[j] != '/' {
      assert p[j] == name[j - |q|];
    }
    if q != [] {
      assert p[|q| - 1] == '/';
    }
  }

  /** The last component of `q + name` is `name` when `q` is empty or ends
      in a separator. */
  lemma FileNameAfterSeparator(q: Path, name: string)
    requires IsPlainName(name)
    requires q == [] || q[|q| - 1] == '/'
    ensures FileName(q + name) == Some(name)
  {
    var p := q + name;
    LastSeparatorOfPrefix(q, name);
    assert p[|q|..] == name;
  }

  /** Joining a plain name onto any directory gives a path whose file name
      is that name: the scanner's entries are direct children. */
  lemma FileNameOfJoin(dir: Path, name: string)
    requires IsPlainName(name)
    ensures FileName(Join(dir, name)) == Some(name)
  {
    if dir == [] || dir[|dir| - 1] == '/' {
      FileNameAfterSeparator(dir, name);
    } else {
      assert dir + "/" + name == (dir + "/") + name;
      FileNameAfterSeparator(dir + "/", name);
    }
  }

  /** Distinct names joined onto one directory give distinct paths. */
  lemma JoinInjective(dir: Path, a: string, b: string)
    requires Join(dir, a) == Join(dir, b)
    ensures a == b
  {
    var q := if dir == [] || dir[|dir| - 1] == '/' then dir else dir + "/";
    assert Join(dir, a) == q + a && Join(dir, b) == q + b;
    assert a == (q + a)[|q|..];
  }

  /** When the file name splits as stem "." ext with a non-empty stem and no
      dot in ext, the extension is ext. */
  lemma {:induction false} ExtensionAfterLastDot(p: Path, stem: string, ext: string)
    requires FileName(p) == Some(stem + "." + ext)
    requires stem != [] && '.' !in ext
    ensures Extension(p) == Some(ext)
  {
    var name := stem + "." + ext;
    var k := LastIndexOf(name, '.');
    assert name[|stem|] == '.';
    forall j | |stem| < j < |name| ensures name[j] != '.' {
      assert name[j] == ext[j - |stem| - 1];
    }
    assert k == |stem|;
    assert name[k + 1..] == ext;
  }

  /** A file name with no dot after its first character has no extension
      ("README", ".md"). */
  lemma NoExtensionWithoutInnerDot(p: Path, name: string)
    requires FileName(p) == Some(name)
    requires forall i :: 0 < i < |name| ==> name[i] != '.'
    ensures Extension(p) == None
  {
  }
}
