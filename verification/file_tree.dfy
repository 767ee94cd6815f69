/** The documentation directory as a value, and the indexer's recursive walk
    over it (`getFiles` in scripts/build-index.mjs). */
module FileTree {
  import opened Optional

  /** One directory entry. `Dir` is an entry whose `isDirectory()` is true;
      everything else (a regular file, a symbolic link, ...) is a `Leaf`, as
      the walk treats it. A leaf's `body` is its UTF-8 text, or `None` when
      reading it fails. */
  datatype Entry =
    | Leaf(name: string, body: Option<string>)
    | Dir(name: string, children: seq<Entry>)

  /** A location below the walk's root, one name per directory level. */
  type Path = seq<string>

  /** `getFiles(dir)`: every non-directory entry below `dir`, each as the path
      of names leading to it, in directory-listing order, subdirectories
      flattened in place. */
  function GetFiles(dir: Path, entries: seq<Entry>): (r: seq<Path>)
    ensures forall k :: 0 <= k < |r| ==> |r[k]| > |dir| && r[k][..|dir|] == dir
    decreases entries
  {
    if entries == [] then []
    else
      var e := entries[0];
      (if e.Dir? then GetFiles(dir + [e.name], e.children) else [dir + [e.name]])
        + GetFiles(dir, entries[1..])
  }

  /** `p` names a non-directory entry reachable from `entries`. */
  ghost predicate FileAt(entries: seq<Entry>, p: Path)
    decreases entries
  {
    && |entries| > 0
    && (|| EntryHasFile(entries[0], p)
        || FileAt(entries[1..], p))
  }

  /** `p` names `e` itself when it is a leaf, or a file below it when it is a
      directory. */
  ghost predicate EntryHasFile(e: Entry, p: Path)
    decreases e
  {
    && |p| > 0
    && p[0] == e.name
    && match e
       case Leaf(_, _) => |p| == 1
       case Dir(_, children) => FileAt(children, p[1..])
  }

  /** Number of non-directory entries in the tree. */
  function LeafCount(entries: seq<Entry>): nat
    decreases entries
  {
    if entries == [] then 0
    else
      (if entries[0].Dir? then LeafCount(entries[0].children) else 1)
        + LeafCount(entries[1..])
  }

  /** What a real file system guarantees: names within one directory are
      distinct, at every level. */
  ghost predicate DistinctNames(entries: seq<Entry>)
    decreases entries
  {
    && (forall i, j :: 0 <= i < j < |entries| ==> entries[i].name != entries[j].name)
    && (forall i :: 0 <= i < |entries| && entries[i].Dir? ==> DistinctNames(entries[i].children))
  }

  ghost predicate NoDuplicates<T>(s: seq<T>) {
    forall i, j :: 0 <= i < j < |s| ==> s[i] != s[j]
  }

  /** `readFileSync`: follow the names from the root (the first entry with a
      matching name at each level) and read the leaf found there; a missing
      entry, a directory or an unreadable leaf all fail. */
  function Read(entries: seq<Entry>, p: Path): Option<string>
    decreases entries
  {
    if |p| == 0 || entries == [] then None
    else if entries[0].name != p[0] then Read(entries[1..], p)
    else match entries[0]
      case Leaf(_, body) => if |p| == 1 then body else None
      case Dir(_, children) => Read(children, p[1..])
  }

  /** Every leaf of the tree can be read. */
  ghost predicate AllReadable(entries: seq<Entry>)
    decreases entries
  {
    forall i :: 0 <= i < |entries| ==>
      match entries[i]
      case Leaf(_, body) => body.Some?
      case Dir(_, children) => AllReadable(children)
  }

  /** Reading succeeds only on a path that names a file. */
  lemma {:induction false} ReadOnlyFiles(entries: seq<Entry>, p: Path)
    ensures Read(entries, p).Some? ==> FileAt(entries, p)
    decreases entries
  {
    if |p| > 0 && entries != [] {
      if entries[0].name != p[0] {
        ReadOnlyFiles(entries[1..], p);
      } else if entries[0].Dir? {
        ReadOnlyFiles(entries[0].children, p[1..]);
      }
    }
  }

  /** On a real file system whose leaves are all readable, every file can be
      read back by its path. */
  lemma {:induction false} ReadFiles(entries: seq<Entry>, p: Path)
    requires DistinctNames(entries) && AllReadable(entries)
    requires FileAt(entries, p)
    ensures Read(entries, p).Some?
    decreases entries
  {
    var e := entries[0];
    assert DistinctNames(entries[1..]) && AllReadable(entries[1..]) by {
      forall i | 0 <= i < |entries[1..]|
        ensures entries[1..][i] == entries[i + 1]
      {
      }
    }
    if EntryHasFile(e, p) {
      if e.Dir? {
        assert DistinctNames(e.children) && AllReadable(e.children) by {
          assert entries[0].Dir?;
        }
        ReadFiles(e.children, p[1..]);
      }
    } else {
      FileAtNonEmpty(entries[1..], p);
      if e.name == p[0] {
        NameNotLaterListed(entries, p);
      }
      ReadFiles(entries[1..], p);
    }
  }

  /** With distinct names, a file whose path starts with the first entry's
      name lies under that entry, not under a later one. */
  lemma {:induction false} NameNotLaterListed(entries: seq<Entry>, p: Path)
    requires |entries| > 0 && |p| > 0 && entries[0].name == p[0]
    requires forall i, j :: 0 <= i < j < |entries| ==> entries[i].name != entries[j].name
    ensures !FileAt(entries[1..], p)
  {
    var rest := entries[1..];
    forall i | 0 <= i < |rest|
      ensures rest[i].name != p[0]
    {
      assert rest[i] == entries[i + 1];
    }
    NoEntryNamedNoFile(rest, p);
  }

  /** A path whose first name matches no entry names no file. */
  lemma {:induction false} NoEntryNamedNoFile(entries: seq<Entry>, p: Path)
    requires |p| > 0
    requires forall i :: 0 <= i < |entries| ==> entries[i].name != p[0]
    ensures !FileAt(entries, p)
    decreases entries
  {
    if entries != [] {
      NoEntryNamedNoFile(entries[1..], p);
    }
  }

  /** The walk yields exactly the files of the tree: a path is listed if and
      only if it names a non-directory entry. */
  lemma {:induction false} GetFilesComplete(dir: Path, entries: seq<Entry>, p: Path)
    ensures p in GetFiles(dir, entries) <==>
              |p| > |dir| && p[..|dir|] == dir && FileAt(entries, p[|dir|..])
    decreases entries
  {
    if entries != [] {
      var e := entries[0];
      GetFilesComplete(dir, entries[1..], p);
      if e.Dir? {
        GetFilesComplete(dir + [e.name], e.children, p);
        DirListing(dir, e, p);
      } else {
        LeafListing(dir, e, p);
      }
    }
  }

  /** A path lies below a directory entry's own path exactly when, seen from
      the entry's parent, it starts with the entry's name and goes on. */
  lemma DirListing(dir: Path, e: Entry, p: Path)
    requires e.Dir?
    ensures (|p| > |dir| + 1 && p[..|dir| + 1] == dir + [e.name]
             && FileAt(e.children, p[|dir| + 1..])) <==>
            (|p| > |dir| && p[..|dir|] == dir && EntryHasFile(e, p[|dir|..]))
  {
    if |p| > |dir| + 1 && p[..|dir| + 1] == dir + [e.name] {
      assert p[..|dir|] == (dir + [e.name])[..|dir|];
    }
    if |p| > |dir| && p[..|dir|] == dir {
      var q := p[|dir|..];
      if |p| > |dir| + 1 {
        assert p[..|dir| + 1] == dir + [e.name] <==> q[0] == e.name by {
          assert p[..|dir| + 1] == p[..|dir|] + [q[0]];
        }
        assert p[|dir| + 1..] == q[1..];
      } else {
        FileAtNonEmpty(e.children, q[1..]);
      }
    }
  }

  /** The walk lists a leaf entry as the one path that names it. */
  lemma LeafListing(dir: Path, e: Entry, p: Path)
    requires e.Leaf?
    ensures p == dir + [e.name] <==>
              |p| > |dir| && p[..|dir|] == dir && EntryHasFile(e, p[|dir|..])
  {
    if p == dir + [e.name] {
      assert p[..|dir|] == dir && p[|dir|..] == [e.name];
    }
    if |p| > |dir| && p[..|dir|] == dir {
      var q := p[|dir|..];
      assert p == dir + q;
      if |q| == 1 && q[0] == e.name {
        assert q == [e.name];
      }
    }
  }

  /** Only non-empty paths name files. */
  lemma {:induction false} FileAtNonEmpty(entries: seq<Entry>, p: Path)
    ensures FileAt(entries, p) ==> |p| > 0
    decreases entries
  {
    if entries != [] {
      FileAtNonEmpty(entries[1..], p);
      assert EntryHasFile(entries[0], p) ==> |p| > 0;
    }
  }

  /** Each listed path starts, below `dir`, with the name of one of the
      entries the walk was given. */
  lemma {:induction false} ListedNameIsEntry(dir: Path, entries: seq<Entry>, k: nat)
    requires k < |GetFiles(dir, entries)|
    ensures exists i :: 0 <= i < |entries| && GetFiles(dir, entries)[k][|dir|] == entries[i].name
    decreases entries
  {
    var e := entries[0];
    var head := if e.Dir? then GetFiles(dir + [e.name], e.children) else [dir + [e.name]];
    var rest := GetFiles(dir, entries[1..]);
    assert GetFiles(dir, entries) == head + rest;
    if k < |head| {
      assert head[k][..|dir| + 1] == dir + [e.name];
      assert head[k][|dir|] == (dir + [e.name])[|dir|];
    } else {
      ListedNameIsEntry(dir, entries[1..], k - |head|);
      var i :| 0 <= i < |entries[1..]| && rest[k - |head|][|dir|] == entries[1..][i].name;
      assert entries[i + 1].name == entries[1..][i].name;
    }
  }

  /** Distinct names hold of every suffix of a directory listing. */
  lemma DistinctNamesTail(entries: seq<Entry>)
    requires entries != [] && DistinctNames(entries)
    ensures DistinctNames(entries[1..])
  {
    var tail := entries[1..];
    forall i, j | 0 <= i < j < |tail|
      ensures tail[i].name != tail[j].name
    {
      assert tail[i] == entries[i + 1] && tail[j] == entries[j + 1];
    }
    forall i | 0 <= i < |tail| && tail[i].Dir?
      ensures DistinctNames(tail[i].children)
    {
      assert tail[i] == entries[i + 1];
    }
  }

  /** With distinct names, nothing listed under the first entry is listed
      again by the walk over the entries after it. */
  lemma FirstEntryApart(dir: Path, entries: seq<Entry>, head: seq<Path>)
    requires entries != [] && DistinctNames(entries)
    requires forall k :: 0 <= k < |head| ==>
               |head[k]| > |dir| && head[k][..|dir| + 1] == dir + [entries[0].name]
    ensures forall a, b :: 0 <= a < |head| && 0 <= b < |GetFiles(dir, entries[1..])| ==>
              head[a] != GetFiles(dir, entries[1..])[b]
  {
    var rest := GetFiles(dir, entries[1..]);
    forall a, b | 0 <= a < |head| && 0 <= b < |rest|
      ensures head[a] != rest[b]
    {
      assert head[a][|dir|] == (dir + [entries[0].name])[|dir|];
      ListedNameIsEntry(dir, entries[1..], b);
      var i :| 0 <= i < |entries[1..]| && rest[b][|dir|] == entries[1..][i].name;
      assert entries[1..][i] == entries[i + 1];
    }
  }

  /** Two duplicate-free sequences with no element in common concatenate
      to a duplicate-free one. */
  lemma AppendNoDuplicates<T>(xs: seq<T>, ys: seq<T>)
    requires NoDuplicates(xs) && NoDuplicates(ys)
    requires forall a, b :: 0 <= a < |xs| && 0 <= b < |ys| ==> xs[a] != ys[b]
    ensures NoDuplicates(xs + ys)
  {
    var all := xs + ys;
    forall i, j | 0 <= i < j < |all|
      ensures all[i] != all[j]
    {
      if j < |xs| {
        assert all[i] == xs[i] && all[j] == xs[j];
      } else if i >= |xs| {
        assert all[i] == ys[i - |xs|] && all[j] == ys[j - |xs|];
      } else {
        assert all[i] == xs[i] && all[j] == ys[j - |xs|];
      }
    }
  }

  /** On a real file system the walk lists every file exactly once, and there
      are as many paths as files. */
  lemma {:induction false} GetFilesNoDuplicates(dir: Path, entries: seq<Entry>)
    requires DistinctNames(entries)
    ensures NoDuplicates(GetFiles(dir, entries))
    ensures |GetFiles(dir, entries)| == LeafCount(entries)
    decreases entries
  {
    if entries != [] {
      var e := entries[0];
      var head := if e.Dir? then GetFiles(dir + [e.name], e.children) else [dir + [e.name]];
      var rest := GetFiles(dir, entries[1..]);
      DistinctNamesTail(entries);
      GetFilesNoDuplicates(dir, entries[1..]);
      if e.Dir? {
        assert DistinctNames(e.children) by { assert entries[0].Dir?; }
        GetFilesNoDuplicates(dir + [e.name], e.children);
      }
      forall k | 0 <= k < |head|
        ensures |head[k]| > |dir| && head[k][..|dir| + 1] == dir + [e.name]
      {
      }
      FirstEntryApart(dir, entries, head);
      AppendNoDuplicates(head, rest);
      assert head + rest == GetFiles(dir, entries);
    }
  }
}
