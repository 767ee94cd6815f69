/** The offline indexer (scripts/build-index.mjs): walk the documentation
    tree, keep the markdown files, derive one record per file and insert it
    into the search index. The Orama database is modelled as the sequence of
    records inserted into it; serialising and writing it out are left out. */
module Indexer {
  import opened Text
  import opened Optional
  import opened FileTree
  import Paths
  import FrontMatter
  import DocUrl

  /** One indexed document, with the schema `{title, url, content}`. */
  datatype Record = Record(title: string, url: string, content: string)

  /** Where the documentation lives and which separator the platform writes. */
  datatype Site = Site(root: string, sep: char)

  /** The extension filter, applied to the absolute path. */
  predicate IsIndexed(path: string) {
    EndsWith(path, ".mdx") || EndsWith(path, ".md")
  }

  /** The absolute path string of a listed file. */
  function AbsolutePath(site: Site, p: Path): string {
    Paths.Resolve(site.root, site.sep, p)
  }

  /** The walk's paths that pass the extension filter, in walk order. */
  function IndexedFiles(site: Site, paths: seq<Path>): (r: seq<Path>)
    ensures forall p :: p in r <==> p in paths && IsIndexed(AbsolutePath(site, p))
    ensures NoDuplicates(paths) ==> NoDuplicates(r)
  {
    if |paths| == 0 then []
    else
      var init := IndexedFiles(site, paths[..|paths| - 1]);
      var last := paths[|paths| - 1];
      assert NoDuplicates(paths) ==> NoDuplicates(paths[..|paths| - 1]);
      assert NoDuplicates(paths) ==> last !in paths[..|paths| - 1];
      if IsIndexed(AbsolutePath(site, last)) then init + [last] else init
  }

  /** Filtering keeps walk order: the paths that pass from two runs of the
      walk are those of the first run followed by those of the second. */
  lemma {:induction false} IndexedFilesAppend(site: Site, a: seq<Path>, b: seq<Path>)
    ensures IndexedFiles(site, a + b) == IndexedFiles(site, a) + IndexedFiles(site, b)
    decreases |b|
  {
    if |b| > 0 {
      var init := b[..|b| - 1];
      IndexedFilesAppend(site, a, init);
      assert (a + b)[..|a + b| - 1] == a + init;
      assert (a + b)[|a + b| - 1] == b[|b| - 1];
    } else {
      assert a + b == a;
    }
  }

  /** The record derived from one file: title from its text or its name, URL
      from its relative path, content the text itself. */
  function RecordFor(site: Site, p: Path, text: string): (r: Record)
    ensures r.content == text
    ensures StartsWith(r.url, DocUrl.DocsPrefix)
    ensures forall k :: 0 <= k < |r.url| ==> r.url[k] != '\\'
  {
    Record(
      FrontMatter.Title(text, if |p| > 0 then p[|p| - 1] else ""),
      DocUrl.DocUrlOf(Paths.JoinPath(p, site.sep)),
      text)
  }

  /** Orama's `insert`: the database gains the record at its end and keeps
      everything it had. */
  function Insert(db: seq<Record>, rec: Record): (r: seq<Record>)
    ensures |r| == |db| + 1 && r[..|db|] == db && r[|db|] == rec
  {
    db + [rec]
  }

  /** Every one of `files` can be read from the tree. */
  ghost predicate AllFilesRead(tree: seq<Entry>, files: seq<Path>) {
    forall k :: 0 <= k < |files| ==> Read(tree, files[k]).Some?
  }

  /** `records` are the records `derive` makes of the first `|records|` files,
      each of which could be read. */
  ghost predicate InsertedPrefix(derive: (Path, string) -> Record, tree: seq<Entry>,
                                 files: seq<Path>, records: seq<Record>)
  {
    && |records| <= |files|
    && forall k :: 0 <= k < |records| ==>
         && Read(tree, files[k]).Some?
         && records[k] == derive(files[k], Read(tree, files[k]).value)
  }

  /** The insertion loop of `build()`: one record per file, in order, or
      `None` as soon as reading a file throws, which aborts the run before
      anything is written. */
  method InsertAll(derive: (Path, string) -> Record, tree: seq<Entry>, files: seq<Path>)
    returns (db: Option<seq<Record>>)
    ensures db.Some? <==> AllFilesRead(tree, files)
    ensures db.Some? ==> |db.value| == |files| && InsertedPrefix(derive, tree, files, db.value)
  {
    var records: seq<Record> := [];
    var i := 0;
    while i < |files|
      invariant i == |records| <= |files|
      invariant InsertedPrefix(derive, tree, files, records)
    {
      var text := Read(tree, files[i]);
      if text.None? {
        assert !Read(tree, files[i]).Some?;
        return None;
      }
      records := Insert(records, derive(files[i], text.value));
      i := i + 1;
    }
    return Some(records);
  }

  /** `build()` up to persisting: the walk, the extension filter, then the
      insertion loop over the files that pass it. */
  method BuildIndex(site: Site, tree: seq<Entry>) returns (db: Option<seq<Record>>)
    ensures var files := IndexedFiles(site, GetFiles([], tree));
            && (db.Some? <==> AllFilesRead(tree, files))
            && (db.Some? ==>
                  && |db.value| == |files|
                  && forall k :: 0 <= k < |files| ==>
                       && Read(tree, files[k]).Some?
                       && db.value[k] == RecordFor(site, files[k], Read(tree, files[k]).value))
  {
    var files := IndexedFiles(site, GetFiles([], tree));
    var derive := (p, text) => RecordFor(site, p, text);
    db := InsertAll(derive, tree, files);
    if db.Some? {
      forall k | 0 <= k < |files|
        ensures db.value[k] == RecordFor(site, files[k], Read(tree, files[k]).value)
      {
        assert db.value[k] == derive(files[k], Read(tree, files[k]).value);
      }
    }
  }

  /** Every record keeps its file's raw text, has a URL under `/docs/`, and
      takes its title from a `title:` line when the text has one. */
  lemma RecordProperties(site: Site, p: Path, text: string)
    requires |p| > 0
    ensures RecordFor(site, p, text).content == text
    ensures StartsWith(RecordFor(site, p, text).url, DocUrl.DocsPrefix)
    ensures !FrontMatter.HasTitleLine(text) ==>
              RecordFor(site, p, text).title == Paths.Stem(p[|p| - 1])
    ensures forall m :: FrontMatter.IsTitleMatch(text, m) ==>
              RecordFor(site, p, text).title == TrimEnd(FrontMatter.Capture(text, m))
  {
    FrontMatter.TitleSpec(text, p[|p| - 1]);
  }

  /** On a real file system, the files indexed are exactly the files of the
      tree whose names end in `.md` or `.mdx`, each listed once. */
  lemma IndexedExactlyOnce(site: Site, tree: seq<Entry>, p: Path)
    requires DistinctNames(tree)
    requires site.sep !in ".mdx"
    ensures NoDuplicates(IndexedFiles(site, GetFiles([], tree)))
    ensures p in IndexedFiles(site, GetFiles([], tree)) <==>
              FileAt(tree, p) && |p| > 0 && IsIndexed(p[|p| - 1])
  {
    GetFilesNoDuplicates([], tree);
    GetFilesComplete([], tree, p);
    assert p[..0] == [] && p[0..] == p;
    if |p| > 0 {
      Paths.ResolveEndsWith(site.root, site.sep, p, ".md");
      Paths.ResolveEndsWith(site.root, site.sep, p, ".mdx");
    }
  }

  /** On a real file system whose files can all be read, the build never
      fails: reading a listed file only throws for an unreadable file. */
  lemma ReadableTreeBuilds(site: Site, tree: seq<Entry>)
    requires DistinctNames(tree) && AllReadable(tree)
    ensures AllFilesRead(tree, IndexedFiles(site, GetFiles([], tree)))
  {
    var files := IndexedFiles(site, GetFiles([], tree));
    forall k | 0 <= k < |files|
      ensures Read(tree, files[k]).Some?
    {
      var p := files[k];
      assert p in GetFiles([], tree);
      GetFilesComplete([], tree, p);
      assert p[0..] == p;
      ReadFiles(tree, p);
    }
  }
}
