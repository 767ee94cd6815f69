# VectraDocs retrieval pipeline, modelled in Dafny

VectraDocs is a documentation site with a chat assistant. The assistant answers
only from the site's own pages. Two small pieces of pure logic hold this
pipeline together, and this project models both:

- **The offline indexer** (`scripts/build-index.mjs`). It walks `content/docs`
  recursively, keeps the `.md`/`.mdx` files, and derives one record per file.
  Each record has a `title`, a `url` and a `content`. The title comes from the
  first line starting with `title:`; without such a line it is the file name
  minus its extension. The URL is `/docs/` plus the relative path, with
  backslashes turned into slashes and the extension removed. The bare root
  `index` becomes `/docs/`. Each record is inserted into an Orama database.
- **The chat handler** (`app/api/chat/route.ts`). It caches the restored index
  in a module-level slot that only a successful load fills. It splits the
  request's messages into a query (the last message) and a history (every
  other message, with roles mapped to human or AI). It renders up to three
  search hits as `Source: …\nContent: …` blocks joined by `\n---\n`. It relays
  the model's output chunks to the response stream in order, then closes the
  stream.

Modules, one per concern:

| file | module | models |
|---|---|---|
| optional.dfy | `Optional` | `null` and thrown exceptions, as `Option`/`Result` |
| text.dfy | `Text` | ECMAScript whitespace, `trim`, `Array.prototype.join` |
| file_tree.dfy | `FileTree` | the documentation tree, `getFiles`, `readFileSync` |
| paths.dfy | `Paths` | `path.resolve`, `path.relative`, `path.extname`/`basename` |
| front_matter.dfy | `FrontMatter` | `content.match(/^title:\s*(.*)$/m)` and the title choice |
| doc_url.dfy | `DocUrl` | the two `replace` calls and the `/docs/` URL |
| indexer.dfy | `Indexer` | the extension filter, the record, the insertion loop |
| index_cache.dfy | `IndexCache` | `getOramaDB` as a state transition |
| chat_request.dfy | `ChatRequest` | query/history split, context string, `POST` up to the prompt |
| relay.dfy | `Relay` | the `ReadableStream` that forwards the chunks |

Some of the code's behaviour is easy to misread, and the model keeps it as written:

- Only a relative path that is exactly `index` collapses, and the URL keeps
  its trailing slash. So the root index becomes `/docs/`, and `a/index.mdx`
  becomes `/docs/a/index`.
- A root file named just `.md` also maps to `/docs/`. Its URL path is empty, and
  Node's `extname` gives such a hidden file no extension, so its title
  fallback is `.md`.
- The handler passes the whole history on, and it takes the last message as
  the query whatever its role.
- The context holds only each hit's title and content, not its URL.
- The provider's frames are parsed inside LangChain, not in the handler.
- The index cache is a plain variable. A failed load logs and leaves it
  empty, so the next call loads again.

## Model

| member | source | states |
|---|---|---|
| FileTree.GetFiles | scripts/build-index.mjs:20-27 | every listed path lies below the directory being walked |
| FileTree.GetFilesComplete | scripts/build-index.mjs:20-27 | a path is listed if and only if it names a non-directory entry of the tree: directories are recursed into, never listed |
| FileTree.GetFilesNoDuplicates | scripts/build-index.mjs:20-27 | when names within a directory are distinct, no path is listed twice, and there are as many paths as non-directory entries |
| FileTree.ReadOnlyFiles | scripts/build-index.mjs:45 | for `Read`, the model of `readFileSync`: reading succeeds only on a path that names a file; a missing entry or a directory throws |
| FileTree.ReadFiles | scripts/build-index.mjs:45 | for `Read`: on a tree with distinct names whose files are all readable, every file's path reads successfully |
| Paths.LastIndexOf | scripts/build-index.mjs:48 | the index found holds the character and no later position does; no index means the character is absent |
| Paths.Extname | scripts/build-index.mjs:48 | Node's rule: the extension is non-empty if and only if the name has a dot after its first character and is not `..`; it is then a suffix of the name that starts at a dot and holds no other dot, so it runs from the last dot; it is never the whole name |
| Paths.Stem | scripts/build-index.mjs:48 | the name minus its extension, which put back gives the name again |
| Paths.StemOfDocName | scripts/build-index.mjs:48 | a name that is more than `.md`/`.mdx` loses exactly that extension (`a.md.mdx` gives `a.md`) |
| Paths.StemOfBareExtension | scripts/build-index.mjs:48 | a hidden file named just `.md`/`.mdx` keeps its whole name as fallback title |
| Paths.ResolveEndsWith | scripts/build-index.mjs:42 | the absolute path ends with a separator-free suffix if and only if the file's own name does |
| FrontMatter.FindTitleLine | scripts/build-index.mjs:47 | the position found is a line start followed by `title:`, and no earlier position is |
| FrontMatter.SkipSpace | scripts/build-index.mjs:47 | greedy `\s*`: the run consumed is all whitespace, line breaks included, and the next character is not whitespace |
| FrontMatter.LineEnd | scripts/build-index.mjs:47 | greedy `.*` then `$`: the span has no line terminator and ends at one or at the end of the text |
| FrontMatter.MatchTitle | scripts/build-index.mjs:47 | the match returned meets the independent description of the leftmost match |
| FrontMatter.NoMatchIffNoTitleLine | scripts/build-index.mjs:47 | there is no match if and only if no line starts with `title:` |
| FrontMatter.TitleSpec | scripts/build-index.mjs:47-48 | for `Title`: a title line always yields a match; the title is the trailing-trimmed capture of the unique match whenever a title line exists, even when that capture is empty; the file-name fallback is used only when none exists; such a title has no line break |
| FrontMatter.TitleWithoutLine | scripts/build-index.mjs:47-48 | a text with no line starting with `title:` gets the file name minus its extension |
| FrontMatter.TitleOfMatch | scripts/build-index.mjs:47-48 | whenever the pattern matches, the title is its capture with trailing whitespace trimmed, the capture never opening with whitespace |
| FrontMatter.TitleOfLeadingKey | scripts/build-index.mjs:47-48 | for text `title:` + blanks + value + rest-of-text, the title is the value with trailing blanks trimmed; blanks may span line breaks, so a bare `title:` takes the next line's text, and nothing after the key gives `""` |
| FrontMatter.NoKeyLineFallsBack | scripts/build-index.mjs:47-48 | a one-line text not opening with `title:` (for instance an indented key) gets the file-name fallback |
| Text.TrimEnd | scripts/build-index.mjs:48 | removes exactly the trailing run of ECMAScript whitespace: a prefix of the input, ending in a non-space, with only whitespace cut off |
| Text.TrimStart | scripts/build-index.mjs:48 | removes exactly the leading run of ECMAScript whitespace: a suffix of the input, starting with a non-space, with only whitespace cut off |
| Text.Trim | scripts/build-index.mjs:48 | `.trim()`: the stretch of the input left after removing all leading and all trailing whitespace; it neither starts nor ends with whitespace |
| Text.JoinLength | app/api/chat/route.ts:44 | for `JoinWith`, the model of `join`: n parts give exactly their total length plus n - 1 separators |
| Text.JoinEnds | app/api/chat/route.ts:44 | for `JoinWith`: the join starts with the first part and ends with the last |
| Text.JoinAppend | app/api/chat/route.ts:44 | for `JoinWith`: joining two non-empty runs of parts is joining each and putting one separator between them |
| DocUrl.NormalizeSeparators | scripts/build-index.mjs:51 | every backslash becomes `/`, every other character is kept, and no backslash remains |
| DocUrl.StripDocExt | scripts/build-index.mjs:51 | the result is a prefix shorter by 0, 3 or 4 characters, and shorter if and only if the path ends with `.md` or `.mdx` |
| DocUrl.StripAddedExt | scripts/build-index.mjs:51 | stripping undoes adding one `.md`/`.mdx`, and removes only one |
| DocUrl.NormalizeJoin | scripts/build-index.mjs:51 | on either platform separator, the normalised relative path is the names joined by `/` |
| DocUrl.DocUrlOf | scripts/build-index.mjs:51-52 | the URL starts with `/docs/` and has no backslash; it is exactly `/docs/` if and only if the URL path is `index` or empty, and otherwise it is `/docs/` plus the URL path |
| DocUrl.UrlOfDocPath | scripts/build-index.mjs:52 | a markdown file at relative path `p` other than `index` gets `/docs/p`, so `a/index.mdx` gets `/docs/a/index` |
| DocUrl.UrlOfRootIndex | scripts/build-index.mjs:52 | the root `index.md`/`index.mdx` gets `/docs/` with its trailing slash |
| DocUrl.UrlCollisions | scripts/build-index.mjs:51-52 | two files share a URL if and only if their URL paths are equal or both are among `index` and the empty path |
| Indexer.IndexedFiles | scripts/build-index.mjs:42 | a path passes if and only if it was listed and its absolute path ends in `.mdx` or `.md`; filtering adds no duplicates |
| Indexer.IndexedFilesAppend | scripts/build-index.mjs:42 | filtering keeps walk order: filtering two runs one after the other is filtering each and concatenating the results |
| Indexer.RecordFor | scripts/build-index.mjs:47-58 | a record keeps the file's text as its content, and its URL starts with `/docs/` and holds no backslash |
| Indexer.IndexedExactlyOnce | scripts/build-index.mjs:20-42 | with distinct names, the files indexed are exactly the tree's files whose names end in `.md`/`.mdx`, each once |
| Indexer.Insert | scripts/build-index.mjs:54-58 | insertion appends the record and keeps every earlier record |
| Indexer.InsertAll | scripts/build-index.mjs:44-59 | the loop succeeds if and only if every file can be read; it then holds one record per file, in order, each derived from that file's text |
| Indexer.BuildIndex | scripts/build-index.mjs:41-59 | the build yields one record per indexed file, in walk order, or fails as a whole when an indexed file cannot be read |
| Indexer.RecordProperties | scripts/build-index.mjs:44-58 | a record's content is the raw text unchanged, its URL starts with `/docs/`, and its title follows the title rule |
| Indexer.ReadableTreeBuilds | scripts/build-index.mjs:44-45 | on a tree with distinct names whose files are all readable, every indexed file reads, so the build cannot fail |
| IndexCache.GetIndex | app/api/chat/route.ts:15-25 | the value returned is the slot afterwards; only an empty slot loads; a filled slot is kept; an empty slot is filled if and only if the restore succeeds, and then with the restored index |
| IndexCache.Run | app/api/chat/route.ts:15-25 | successive calls return one value each; from a filled slot every call returns it, and once a call returns an index the next call returns the same index |
| IndexCache.FirstRestored | app/api/chat/route.ts:17-20 | every outcome before the index found failed, and the outcome at it restores |
| IndexCache.WarmSlotIsReturned | app/api/chat/route.ts:16 | once the slot is filled, every call returns its value and none loads |
| IndexCache.ColdRun | app/api/chat/route.ts:13-25 | from an empty slot, calls return null up to the first successful restore and that index ever after; exactly the calls up to that first success load |
| IndexCache.Sticky | app/api/chat/route.ts:16 | once a call has returned an index, every later call returns the same one |
| IndexCache.RetryAfterFailure | app/api/chat/route.ts:17-24 | a call that returned null left the slot empty, so the next call loads and gets the index if it can now be restored |
| ChatRequest.ToHistoryMessage | app/api/chat/route.ts:34 | the text is the message's content, and the message is a human one if and only if the role is `user` |
| ChatRequest.History | app/api/chat/route.ts:33-35 | the history has one entry per message but the last, in order, with content copied and human exactly for role `user` |
| ChatRequest.Split | app/api/chat/route.ts:28-35 | an empty message list is the handler's error; otherwise the query is the last message's content and the history the rest |
| ChatRequest.SplitKeepsContents | app/api/chat/route.ts:29-35 | splitting loses nothing: the history's texts followed by the query are exactly the messages' contents, in order |
| ChatRequest.RenderHit | app/api/chat/route.ts:43 | the block is `Source: ` and the title, then `\nContent: ` and the content, with nothing else in it |
| ChatRequest.RenderHits | app/api/chat/route.ts:42-43 | one rendering per hit, in hit order |
| ChatRequest.Grounding | app/api/chat/route.ts:42-44 | no hits give `""`; otherwise the context begins with the first hit's block, ends with the last one's, and is as long as the blocks plus one separator per pair of neighbours |
| ChatRequest.GroundingStep | app/api/chat/route.ts:42-44 | each further hit adds exactly one separator and its own block after the context of the hits before it |
| ChatRequest.GroundingShape | app/api/chat/route.ts:41-44 | for one, two or three hits the context is spelled out block by block, so there are at most two separators |
| ChatRequest.GroundingAppend | app/api/chat/route.ts:42-44 | the context of two runs of hits is their contexts joined by one separator |
| ChatRequest.BuildContext | app/api/chat/route.ts:38-45 | no index gives `""`; no hits give `""`; otherwise the length is bounded by the blocks plus two separators |
| ChatRequest.Post | app/api/chat/route.ts:27-45 | an empty message list fails before the cache is touched; otherwise the query is the last content, the history is the role-mapped list of the other messages, and the slot moves as `getOramaDB` moves it; an available index gives the grounding of the search hits for the query, and a failed cold load gives an empty context and an empty slot |
| Relay.Pump | app/api/chat/route.ts:91-97 | one enqueue per upstream chunk in arrival order, then exactly one close; the text delivered is the concatenation of the chunks |

## Left out

- Writing the index: `persist`, `mkdirSync` and `writeFileSync` are file-system and library I/O. The model stops at the sequence of inserted records.
- Orama's `create`, `insert`, `search` and `restore` are library internals:
  - `insert` is an append;
  - `search` is an opaque function assumed to respect its hit limit;
  - the restored database is an opaque handle.
- LangChain's prompt template, `ChatOpenAI`, `RunnableSequence` and the provider's stream framing run inside the library. The prompt text is a constant.
- `TextEncoder`: the chunks are relayed as text, not as UTF-8 bytes.
- Environment variables, console logging, and HTTP request/response objects are left out. So are request bodies whose `messages` is missing or not an array of `{role, content}`.
- An upstream stream that throws mid-way is not modelled. Only a stream that ends normally is.
- `readdirSync` failures are not modelled. In the code, a missing `content/docs` or a directory that cannot be listed throws and aborts the build. In the model a directory always lists its entries; only reading a file can fail.
- Concurrency around `getOramaDB` is not modelled. Two overlapping first requests can each load, and calls are treated one after another.
- `path.resolve` edge cases are not modelled: `.` and `..` segments, and a root of `/`. File names are taken as given by the directory listing, never containing the platform separator.
- ChatRequest.BuildContext: states a length bound rather than the exact text. `GroundingShape` gives the exact text for each possible number of hits.
