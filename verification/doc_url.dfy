/** URL derivation in the indexer: the relative path with backslashes turned
    into slashes and one trailing `.md`/`.mdx` removed, under `/docs/`, the
    bare root `index` becoming `/docs/` itself. */
module DocUrl {
  import opened Text
  import Paths

  const DocsPrefix: string := "/docs/"
  const IndexName: string := "index"

  /** `.replace(/\\/g, '/')`: every backslash becomes a slash, every other
      character stays. */
  function NormalizeSeparators(s: string): (r: string)
    ensures |r| == |s|
    ensures forall k :: 0 <= k < |s| ==> r[k] == (if s[k] == '\\' then '/' else s[k])
    ensures forall k :: 0 <= k < |r| ==> r[k] != '\\'
  {
    if |s| == 0 then []
    else NormalizeSeparators(s[..|s| - 1]) + [if s[|s| - 1] == '\\' then '/' else s[|s| - 1]]
  }

  /** `.replace(/\.mdx?$/, '')`: the leftmost match anchored at the end, so
      `.mdx` when the path ends with it, else `.md`, else nothing. */
  function StripDocExt(s: string): (r: string)
    ensures r <= s
    ensures |s| - |r| in {0, 3, 4}
    ensures |r| < |s| <==> EndsWith(s, ".md") || EndsWith(s, ".mdx")
  {
    if EndsWith(s, ".mdx") then s[..|s| - 4]
    else if EndsWith(s, ".md") then s[..|s| - 3]
    else s
  }

  /** The path part of the URL: separators normalised, extension stripped. */
  function UrlPath(relativePath: string): string
  {
    StripDocExt(NormalizeSeparators(relativePath))
  }

  /** The record's `url`. */
  function DocUrlOf(relativePath: string): (r: string)
    ensures StartsWith(r, DocsPrefix)
    ensures forall k :: 0 <= k < |r| ==> r[k] != '\\'
    ensures r == DocsPrefix <==> UrlPath(relativePath) in {IndexName, ""}
    ensures r != DocsPrefix ==> r == DocsPrefix + UrlPath(relativePath)
  {
    var p := UrlPath(relativePath);
    UrlPathNoBackslash(relativePath);
    DocsPrefix + (if p == IndexName then "" else p)
  }

  /** The URL path holds no backslash: stripping keeps a prefix of the
      normalised path. */
  lemma UrlPathNoBackslash(relativePath: string)
    ensures forall k :: 0 <= k < |UrlPath(relativePath)| ==> UrlPath(relativePath)[k] != '\\'
  {
    var n := NormalizeSeparators(relativePath);
    var p := UrlPath(relativePath);
    forall k | 0 <= k < |p|
      ensures p[k] != '\\'
    {
      assert p[k] == n[k];
    }
  }

  /** Stripping undoes adding one markdown extension, and only one:
      `a.md.md` keeps its first `.md`. */
  lemma StripAddedExt(p: string, ext: string)
    requires ext == ".md" || ext == ".mdx"
    ensures StripDocExt(p + ext) == p
  {
    var s := p + ext;
    assert s[|s| - |ext|..] == ext;
    if ext == ".md" {
      assert s[|s| - 1] == 'd';
      assert !EndsWith(s, ".mdx");
    }
    assert s[..|s| - |ext|] == p;
  }

  /** A path that does not end in a markdown extension is left as is. */
  lemma StripOtherIsIdentity(p: string)
    requires !EndsWith(p, ".md") && !EndsWith(p, ".mdx")
    ensures StripDocExt(p) == p
  {
  }

  /** Normalising twice is normalising once. */
  lemma NormalizeIdempotent(s: string)
    ensures NormalizeSeparators(NormalizeSeparators(s)) == NormalizeSeparators(s)
  {
  }

  /** Whatever the platform separator, the normalised relative path is the
      names joined by `/`, as long as no name holds a backslash. */
  lemma {:induction false} NormalizeJoin(parts: seq<string>, sep: char)
    requires Paths.IsSeparator(sep)
    requires forall i, k :: 0 <= i < |parts| && 0 <= k < |parts[i]| ==> parts[i][k] != '\\'
    ensures NormalizeSeparators(Paths.JoinPath(parts, sep)) == Paths.JoinPath(parts, '/')
  {
    if |parts| == 1 {
      NormalizeNoBackslash(parts[0]);
    } else if |parts| > 1 {
      var init := parts[..|parts| - 1];
      var last := parts[|parts| - 1];
      NormalizeJoin(init, sep);
      NormalizeNoBackslash(last);
      NormalizeAppend(Paths.JoinPath(init, sep), [sep]);
      NormalizeAppend(Paths.JoinPath(init, sep) + [sep], last);
    }
  }

  /** Normalisation works character by character, so it distributes over
      concatenation. */
  lemma NormalizeAppend(a: string, b: string)
    ensures NormalizeSeparators(a + b) == NormalizeSeparators(a) + NormalizeSeparators(b)
  {
  }

  /** The relative path `p` of a markdown file maps to `/docs/p` unless `p` is
      exactly `index`: a nested `a/index` keeps its `index`. */
  lemma UrlOfDocPath(p: string, ext: string)
    requires ext == ".md" || ext == ".mdx"
    requires forall k :: 0 <= k < |p| ==> p[k] != '\\'
    requires p != IndexName
    ensures DocUrlOf(p + ext) == DocsPrefix + p
  {
    NormalizeNoBackslash(p + ext);
    StripAddedExt(p, ext);
  }

  /** The root index file maps to `/docs/` with its trailing slash. */
  lemma UrlOfRootIndex(ext: string)
    requires ext == ".md" || ext == ".mdx"
    ensures DocUrlOf(IndexName + ext) == DocsPrefix
  {
    NormalizeNoBackslash(IndexName + ext);
    StripAddedExt(IndexName, ext);
  }

  /** Normalising a path without backslashes changes nothing. */
  lemma NormalizeNoBackslash(s: string)
    requires forall k :: 0 <= k < |s| ==> s[k] != '\\'
    ensures NormalizeSeparators(s) == s
  {
  }

  /** Two relative paths share a URL exactly when they share a URL path, or
      both URL paths are among the two that map to `/docs/` (`index` and the
      empty path of a root file named just `.md`). */
  lemma UrlCollisions(a: string, b: string)
    ensures DocUrlOf(a) == DocUrlOf(b) <==>
              UrlPath(a) == UrlPath(b) || (UrlPath(a) in {IndexName, ""} && UrlPath(b) in {IndexName, ""})
  {
    if DocUrlOf(a) == DocUrlOf(b) && DocUrlOf(a) != DocsPrefix {
      assert UrlPath(a) == DocUrlOf(a)[|DocsPrefix|..];
    }
  }
}
