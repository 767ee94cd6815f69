/** The parts of Node's `path` module the indexer relies on, over paths kept
    as one name per directory level. */
module Paths {
  import opened Text
  import opened Optional

  /** Node's separator for the platform: `/` on POSIX, `\` on Windows. */
  predicate IsSeparator(sep: char) {
    sep == '/' || sep == '\\'
  }

  /** A path's names joined with the platform separator, as
      `path.relative(root, file)` returns it for a file below `root`. */
  function JoinPath(parts: seq<string>, sep: char): string
  {
    JoinWith(parts, [sep])
  }

  /** `path.resolve(root, ...)` for a file below `root`: the absolute string the
      walk hands to the extension filter. */
  function Resolve(root: string, sep: char, parts: seq<string>): string
  {
    root + [sep] + JoinPath(parts, sep)
  }

  /** Index of the last occurrence of `c` in `s`. */
  function LastIndexOf(s: string, c: char): (r: Option<nat>)
    ensures r.Some? ==> r.value < |s| && s[r.value] == c
                        && forall k :: r.value < k < |s| ==> s[k] != c
    ensures r.None? ==> forall k :: 0 <= k < |s| ==> s[k] != c
  {
    if |s| == 0 then None
    else if s[|s| - 1] == c then Some(|s| - 1)
    else LastIndexOf(s[..|s| - 1], c)
  }

  /** `path.extname(name)` of a single name: from the last dot to the end,
      except that a name without a dot, a name whose only dot-run starts it
      (`.md`), and `..` have no extension. */
  function Extname(name: string): (r: string)
    ensures r == [] || (r[0] == '.' && forall k :: 0 < k < |r| ==> r[k] != '.')
    ensures EndsWith(name, r)
    ensures r != name || r == []
    ensures r != [] <==> (exists i :: 0 < i < |name| && name[i] == '.') && name != ".."
  {
    match LastIndexOf(name, '.')
    case None => []
    case Some(i) =>
      assert i == 0 ==> forall k :: 0 < k < |name| ==> name[k] != '.';
      if i == 0 || name == ".." then [] else name[i..]
  }

  /** `path.basename(file, path.extname(file))` of a single name: the name
      without its extension. */
  function Stem(name: string): (r: string)
    ensures r + Extname(name) == name
    ensures |r| > 0 || name == []
  {
    name[..|name| - |Extname(name)|]
  }

  /** A name that is more than its markdown extension loses exactly that
      extension (`a.md` -> `a`, `..md` -> `.`, `a.md.mdx` -> `a.md`). */
  lemma StemOfDocName(base: string, ext: string)
    requires ext == ".md" || ext == ".mdx"
    requires |base| > 0
    ensures Stem(base + ext) == base
  {
    var name := base + ext;
    var i := |base|;
    assert name[i] == '.';
    assert forall k :: i < k < |name| ==> name[k] == ext[k - i];
    assert name != "..";
    assert LastIndexOf(name, '.') == Some(i);
  }

  /** A name that is only the extension (a hidden file `.md`) keeps it. */
  lemma StemOfBareExtension(ext: string)
    requires ext == ".md" || ext == ".mdx"
    ensures Stem(ext) == ext
  {
    assert ext[0] == '.' && forall k :: 0 < k < |ext| ==> ext[k] != '.';
  }

  /** The absolute path ends with a suffix free of separators exactly when the
      file's own name does: the filter on the absolute path is a filter on
      the name. */
  lemma {:induction false} ResolveEndsWith(root: string, sep: char, parts: seq<string>, suffix: string)
    requires |parts| > 0
    requires forall k :: 0 <= k < |suffix| ==> suffix[k] != sep
    ensures EndsWith(Resolve(root, sep, parts), suffix) <==> EndsWith(parts[|parts| - 1], suffix)
  {
    var name := parts[|parts| - 1];
    var joined := JoinPath(parts, sep);
    var s := Resolve(root, sep, parts);
    var front: string;
    if |parts| == 1 {
      front := root;
    } else {
      front := root + [sep] + JoinPath(parts[..|parts| - 1], sep);
    }
    assert s == front + [sep] + name;
    if EndsWith(s, suffix) {
      if |suffix| > |name| {
        SeparatorInSuffix(s, |name|, suffix, sep);
      }
      assert s[|s| - |suffix|..] == name[|name| - |suffix|..];
    }
    if EndsWith(name, suffix) {
      assert s[|s| - |suffix|..] == name[|name| - |suffix|..];
    }
  }

  /** A suffix that reaches past the last `n` characters covers the character
      in front of them. */
  lemma SeparatorInSuffix(s: string, n: nat, suffix: string, sep: char)
    requires n < |s| && s[|s| - n - 1] == sep
    requires EndsWith(s, suffix) && |suffix| > n
    ensures exists k :: 0 <= k < |suffix| && suffix[k] == sep
  {
    var k := |suffix| - n - 1;
    assert s[|s| - |suffix|..][k] == s[|s| - n - 1];
  }
}
