/**
 * The parts of Ruby's `File` the configuration relies on, for '/'-separated paths:
 * `File.basename(path)`, `File.basename(path, ".*")` and `File.join(dir, name)`.
 */
module RubyFile {

  /** `path` without its trailing '/' characters. */
  function StripTrailingSlashes(p: string): (r: string)
    ensures r <= p
    ensures r == [] || r[|r| - 1] != '/'
    ensures forall i | |r| <= i < |p| :: p[i] == '/'
  {
    if p != [] && p[|p| - 1] == '/' then StripTrailingSlashes(p[..|p| - 1]) else p
  }

  /** The text after the last '/' of `p` (all of `p` when it has none). */
  function LastComponent(p: string): (r: string)
    ensures '/' !in r
    ensures |r| <= |p| && r == p[|p| - |r|..]
    ensures |r| < |p| ==> p[|p| - |r| - 1] == '/'
  {
    if p == [] || p[|p| - 1] == '/' then [] else LastComponent(p[..|p| - 1]) + [p[|p| - 1]]
  }

  /**
   * `File.basename(path)`: the last component of the path, trailing slashes ignored;
   * "/" for a path made only of slashes, "" for the empty path.
   */
  function Basename(p: string): (r: string)
    ensures r == [] <==> p == []
    ensures r == "/" || '/' !in r
  {
    if p == [] then []
    else
      var q := StripTrailingSlashes(p);
      if q == [] then "/" else LastComponent(q)
  }

  /** The number of '.' characters `s` starts with. */
  function LeadingDots(s: string): (n: nat)
    ensures n <= |s|
    ensures forall i | 0 <= i < n :: s[i] == '.'
    ensures n < |s| ==> s[n] != '.'
  {
    if s != [] && s[0] == '.' then 1 + LeadingDots(s[1..]) else 0
  }

  /** `s` up to (not including) its last '.', or all of `s` when it has no '.'. */
  function DropLastDot(s: string): (r: string)
    ensures r <= s
    ensures r == s ==> '.' !in s
    ensures r != s ==> s[|r|] == '.' && '.' !in s[|r| + 1..]
  {
    if s == [] then []
    else if s[|s| - 1] == '.' then s[..|s| - 1]
    else
      var r := DropLastDot(s[..|s| - 1]);
      assert s == s[..|s| - 1] + [s[|s| - 1]];
      if r == s[..|s| - 1] then s
      else
        assert s[|r| + 1..] == s[..|s| - 1][|r| + 1..] + [s[|s| - 1]];
        r
  }

  /**
   * A basename without its last extension, as `File.basename(path, ".*")` strips it:
   * the extension starts at the last '.' that is not one of the leading dots.
   */
  function StripExtension(b: string): (r: string)
    ensures r <= b
    ensures |r| >= LeadingDots(b)
    ensures r == b || (b[|r|] == '.' && |r| > LeadingDots(b) && '.' !in b[|r| + 1..])
  {
    var k := LeadingDots(b);
    var rest := DropLastDot(b[k..]);
    assert b == b[..k] + b[k..];
    if rest == b[k..] then b
    else
      assert b[k..][|rest| + 1..] == b[k + |rest| + 1..];
      b[..k] + rest
  }

  /** `File.basename(path, ".*")`. */
  function BasenameWithoutExtension(p: string): string
  {
    StripExtension(Basename(p))
  }

  /**
   * `File.join(dir, name)`: one '/' between the two parts. When `name` starts with '/',
   * the trailing slashes of `dir` are dropped; otherwise a '/' is added unless `dir`
   * already ends with one.
   */
  function FileJoin(dir: string, name: string): (r: string)
    ensures |r| >= |name| && r[|r| - |name|..] == name
  {
    if name != [] && name[0] == '/' then StripTrailingSlashes(dir) + name
    else if dir != [] && dir[|dir| - 1] == '/' then dir + name
    else dir + "/" + name
  }

  // ---------------------------------------------------------------------------
  // Lemmas

  /** A character missing from a string is missing from each of its prefixes. */
  lemma NotInPrefix(x: char, s: string, k: nat)
    requires k <= |s| && x !in s
    ensures x !in s[..k]
  {
    forall i | 0 <= i < k ensures s[..k][i] != x {
      assert s[..k][i] == s[i];
    }
  }

  /** The last component of a path whose directory part ends in '/' is the name after it. */
  lemma {:induction false} LastComponentAfterSlash(d: string, name: string)
    requires d == [] || d[|d| - 1] == '/'
    requires '/' !in name
    ensures LastComponent(d + name) == name
  {
    if name == [] {
      assert d + name == d;
    } else {
      var p := d + name;
      var n := name[..|name| - 1];
      var last := name[|name| - 1];
      assert last in name;
      assert p[|p| - 1] == last;
      assert p[..|p| - 1] == d + n;
      NotInPrefix('/', name, |name| - 1);
      LastComponentAfterSlash(d, n);
      assert LastComponent(p) == LastComponent(d + n) + [last];
      assert n + [last] == name;
    }
  }

  /** The basename of a file name under any directory is the file name. */
  lemma BasenameUnderDirectory(dir: string, name: string)
    requires name != [] && '/' !in name
    ensures Basename(dir + "/" + name) == name
  {
    var p := dir + "/" + name;
    assert p[|p| - 1] == name[|name| - 1];
    assert StripTrailingSlashes(p) == p;
    LastComponentAfterSlash(dir + "/", name);
  }

  /** A bare file name is its own basename. */
  lemma BasenameOfName(name: string)
    requires name != [] && '/' !in name
    ensures Basename(name) == name
  {
    assert name[|name| - 1] in name;
    LastComponentAfterSlash([], name);
    assert [] + name == name;
  }

  /** Trailing slashes do not change the basename. */
  lemma BasenameIgnoresTrailingSlash(p: string)
    requires p != []
    ensures Basename(p + "/") == Basename(p)
  {
    assert (p + "/")[..|p + "/"| - 1] == p;
  }

  /** Only a dot that follows a non-dot starts an extension. */
  lemma {:induction false} DropLastDotOfExtension(name: string, ext: string)
    requires '.' !in ext
    ensures DropLastDot(name + "." + ext) == name
  {
    if ext == [] {
      assert (name + "." + ext)[..|name| + 1 - 1] == name;
    } else {
      var e := ext[..|ext| - 1];
      assert (name + "." + ext)[..|name + "." + ext| - 1] == name + "." + e;
      assert ext[|ext| - 1] in ext;
      NotInPrefix('.', ext, |ext| - 1);
      DropLastDotOfExtension(name, e);
      assert name + "." + e != name + "." + ext;
    }
  }

  /** The extension of "name.ext" is ".ext" when `name` does not start with a dot. */
  lemma StripExtensionOf(name: string, ext: string)
    requires name != [] && name[0] != '.'
    requires '.' !in ext
    ensures StripExtension(name + "." + ext) == name
  {
    var b := name + "." + ext;
    assert b[0] == name[0];
    assert LeadingDots(b) == 0;
    assert b[0..] == b;
    DropLastDotOfExtension(name, ext);
  }

  /** A name without dots has no extension. */
  lemma StripExtensionWithoutDot(name: string)
    requires '.' !in name
    ensures StripExtension(name) == name
  {
  }

  /** `File.basename("<dir>/<name>.<ext>", ".*")` is `name`. */
  lemma BasenameWithoutExtensionUnderDirectory(dir: string, name: string, ext: string)
    requires name != [] && name[0] != '.' && '/' !in name
    requires '.' !in ext && '/' !in ext
    ensures BasenameWithoutExtension(dir + "/" + name + "." + ext) == name
  {
    var file := name + "." + ext;
    assert '/' !in file;
    assert dir + "/" + name + "." + ext == dir + "/" + file;
    BasenameUnderDirectory(dir, file);
    StripExtensionOf(name, ext);
  }

  /** `File.join` puts exactly the name after the last separator, whatever the directory. */
  lemma BasenameOfFileJoin(dir: string, name: string)
    requires name != [] && '/' !in name
    ensures Basename(FileJoin(dir, name)) == name
  {
    assert name[0] in name;
    if dir != [] && dir[|dir| - 1] == '/' {
      var p := dir + name;
      assert p[|p| - 1] == name[|name| - 1];
      assert name[|name| - 1] in name;
      assert StripTrailingSlashes(p) == p;
      LastComponentAfterSlash(dir, name);
    } else {
      BasenameUnderDirectory(dir, name);
    }
  }
}
