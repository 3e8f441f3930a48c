# Tag-bounded content injection

The documentation generator keeps its generated text inside the Markdown snippets of a
documentation tree. Each generated region is delimited by an HTML comment marker
`<!--tag-->`: a region starts just after the first occurrence of the marker in a file
and stops at the next occurrence. `findTag` walks the content directory recursively and
reports one `Match` (file, start, stop) per file whose first marker is not at offset 0.
`overwriteGenerated` then rewrites each matched file as head `[0, start)`, followed by
`\n content \n`, followed by tail `[stop, end)`. When no file carries the tag, it only
emits a diagnostic.

This project models that engine over byte sequences:

- `wrappers.dfy` defines `Option` and `Result`.
- `byte_search.dfy` (module `ByteSearch`) defines bytes, marker occurrences and `IndexOf`.
  `IndexOf` is the substring search that `Buffer.indexOf` performs. It is proved to
  return the least occurrence at or after its starting offset.
- `file_tree.dfy` (module `FileTree`) defines the documentation tree:
  - A directory is the sequence of its entries, in listing order.
  - A path is the list of its components, so `${dir}/${name}` becomes `dir + [name]`.
  - `Files` flattens a tree into the map from path to file bytes.
- `tag_locator.dfy` (module `TagLocator`) models `findTag`:
  - `FileMatch` is the per-file search.
  - `DirMatches`/`EntryMatches` give the recursive specification of the walk.
  - The method `FindTag` is the loop over a directory's entries, proved equal to
    `DirMatches`.
  - Lemmas relate the walk's result to the files of the tree.
- `content_injector.dfy` (module `ContentInjector`) models `overwriteGenerated`:
  - the splice, both as written and checked;
  - the method `OverwriteGenerated`, proved equal to injecting every file of the tree
    at its own match;
  - its loop `RewriteMatches`;
  - the "no matches, no writes" property;
  - the fixed-point property: a second injection of the same content changes nothing.

## Model

| member | source | states |
|---|---|---|
| ByteSearch.IndexOf | scripts/src/index.ts:36-41 | `buf.indexOf(marker, from)` gives the least offset at or after `from` where the marker occurs. `None` (`indexOf`'s `-1`) means no offset at or after `from` has it. |
| ByteSearch.OccurrencesApart | scripts/src/index.ts:41 | Take a marker that cannot overlap itself. Within one marker length of an occurrence there is no other occurrence. So the search for the closer, which starts one byte after the opener, skips the whole opener. |
| TagLocator.FileMatch | scripts/src/index.ts:35-46 | A file yields no match exactly when the marker is absent or its first occurrence is at offset 0. Otherwise the match has that file's name, and `start` is the end of the first occurrence, with `1 + |marker| <= start <= |file|`. `stop` is the next occurrence strictly after the opener, or `-1` when there is none. |
| TagLocator.Marker | scripts/src/index.ts:24 | The marker is `<!--` then the tag's bytes then `-->`, `|tag| + 7` bytes long. |
| TagLocator.FindTag | scripts/src/index.ts:23-51 | The walk returns, in entry order, the matches of every entry. A subdirectory is searched recursively and a regular file on its own (`DirMatches`). |
| TagLocator.MarkerOverlapFree | scripts/src/index.ts:24 | When the tag has no `<` byte, the marker `<!--tag-->` has no proper suffix equal to a prefix. |
| TagLocator.StopAfterStart | scripts/src/index.ts:41-45 | Take a marker that cannot overlap itself and a file with a second occurrence. Then `start <= stop <= |file| - |marker|`. |
| TagLocator.DirMatchesAreFileMatches | scripts/src/index.ts:26-50 | In a tree whose directories do not repeat names, every match names a file of the tree and is that file's own match. Every tagged file has its match in the list. No file is named twice, so each file yields at most one match. |
| TagLocator.MatchesOfUnion | scripts/src/index.ts:29-33 | Two match lists, each complete for a set of files, join into one list that is complete for the union of the disjoint sets. |
| FileTree.FilesUnder | scripts/src/index.ts:30 | Every file found under `dir` has the path `dir + [name]` as a prefix, for one of `dir`'s own entries. |
| ContentInjector.SpliceAsWritten | scripts/src/index.ts:70-72 | The splice as written, with `Buffer.subarray`'s index clamping: whatever `stop` is, the head up to the clamped `start` is kept and `\n content \n` follows it. Its tail is `subarray(stop)`, which `MissingCloserKeepsLastByte` and `SpliceAgreesWithSource` pin down. |
| ContentInjector.Splice | scripts/src/index.ts:70-72 | The checked splice fails exactly when the region is not `start <= stop <= |file|`, and names the file in its error. |
| ContentInjector.SplicePreserves | scripts/src/index.ts:69-73 | A spliced file has length `start + |content| + 2 + (|old| - stop)`. Its bytes before `start` and from `stop` on are the old ones, with exactly `\n content \n` between them. |
| ContentInjector.SpliceAgreesWithSource | scripts/src/index.ts:70-72 | On a valid region, the checked splice equals the `subarray`/`concat` splice of `overwriteGenerated`. |
| ContentInjector.MissingCloserKeepsLastByte | scripts/src/index.ts:71 | When the file has no closing marker, the splice as written keeps the head, the framed content and the file's last byte only. The checked splice reports the region as malformed. |
| ContentInjector.MissingCloserExample | scripts/src/index.ts:36-72 | `X<!--T-->ab` with tag `T` yields the match (9, -1). As written, it becomes `X<!--T-->\nn\nb`. |
| ContentInjector.OverwriteGenerated | scripts/src/index.ts:56-75 | The files afterwards are every file of the tree injected at its own match. The "no tags" diagnostic is given exactly when the walk finds no match, and then nothing is reported malformed. The files skipped as malformed are exactly the tagged files without a valid region. |
| ContentInjector.RewriteMatches | scripts/src/index.ts:68-74 | Rewriting the matches one after another, each file read afresh, gives `RewriteAll`. The files skipped are `MalformedNames`. |
| ContentInjector.RewriteAllAt | scripts/src/index.ts:68-74 | Matches that name distinct files rewrite each of those files once, from its original bytes. The set of files is kept, and every other file is left as it was. |
| ContentInjector.RewriteAllIsInjected | scripts/src/index.ts:68-74 | Rewriting a complete match list equals injecting every file at its own match. |
| ContentInjector.MalformedMatches | scripts/src/index.ts:68-74 | A file is reported malformed exactly when it is tagged and its match has no closer after the opener. |
| ContentInjector.NoMatchesUntagged | scripts/src/index.ts:60-65 | A complete match list is empty exactly when no file is tagged. Then injection changes no file. |
| ContentInjector.NoMatchesNoWrites | scripts/src/index.ts:60-65 | When the walk of a tree finds nothing, no file of the tree changes. |
| ContentInjector.UntaggedFilesUnchanged | scripts/src/index.ts:68-74 | A file that no match names keeps its bytes. |
| ContentInjector.FramedFree | scripts/src/index.ts:72 | Content free of the marker stays free of it once framed by newlines, because the marker neither starts nor ends with a newline. |
| ContentInjector.FileMatchDetermined | scripts/src/index.ts:36-45 | A first marker at offset `i >= 1` and the next one at `stop` determine the file's match: `(i + |marker|, stop)`. |
| ContentInjector.RelocateAfterInject | scripts/src/index.ts:36-45 | Take a self-overlap-free marker and content free of it. After a splice, the walk finds the same `start`, and a `stop` just after the injected bytes. |
| ContentInjector.InjectFileIdempotent | scripts/src/index.ts:69-73 | Injecting the same content into a file a second time gives the bytes of the first injection. |
| ContentInjector.InjectedIdempotent | scripts/src/index.ts:56-75 | Injection over the whole tree is a fixed point: a second run with the same content changes no file. |

## Left out

- Filesystem access is not modelled: `readdirSync`, `statSync`, `readFileSync` and `writeFileSync`.
  - The tree is given as a value, and the listing order is the order of its entry sequence.
  - `OverwriteGenerated` returns the new map from path to bytes instead of writing files.
  - I/O errors are not modelled.
- Paths are component lists, not strings joined with `/`.
- `OverwriteGenerated` requires that no directory lists a name twice, which every real filesystem guarantees. Without this, two entries could flatten to one path.
- The tree has no symbolic or hard links: every file is reached by exactly one path, and no directory contains itself.
  - `statSync` at scripts/src/index.ts:31 follows links. A linked file, or a file under a linked directory, would yield two matches computed from the same bytes. The loop at scripts/src/index.ts:68-74 would then splice the already rewritten file a second time at stale offsets. `ContentInjector.RewriteAllAt` (each file rewritten once, from its original bytes) does not cover that case.
  - A link to an ancestor directory would make `findTag` recurse until `statSync` fails. The model's walk always terminates.
- `async`/`await` are not modelled, because the code runs strictly in sequence.
- The `console.error` diagnostic is modelled as the returned flag `noTags`.
- The hard-coded content directory `../wormhole-docs/.snippets/text` is not modelled; it becomes the parameter `contentDir`.
- The driver at scripts/src/index.ts:77-150 and the modules it calls (`./config`, `./details`, `./card`) are not part of this model. They only produce the strings to be injected.
- Tag and content are taken as already-encoded bytes; UTF-8 encoding is not modelled.
  - `findTag` adds `fullTag.length`, which counts UTF-16 code units, to a byte offset.
  - For a tag with non-ASCII characters, that `start` would differ from the model's, which uses the marker's byte length.
- `ByteSearch.IndexOf` does not model Node's answers for an empty pattern. The marker always has at least seven bytes.
- `ContentInjector.Splice` also treats a closer that overlaps the opener (`stop < start`) as malformed.
  - This can happen only when the tag contains `<`.
  - As written, `subarray(stop)` would then repeat the bytes between `stop` and `start`.
- `ContentInjector.InjectedIdempotent` needs a marker that cannot overlap itself and content that does not contain it. This is a sufficient condition for the fixed point, not a necessary one: for example, a file without a valid region is a fixed point anyway.

## Findings

| source | as written | input that shows it | evidently intended | confidence | as-written member | corrected member |
|---|---|---|---|---|---|---|
| scripts/src/index.ts:71 | A file with an opening marker but no closing one gets `stop = -1`. `oldFile.subarray(-1)` is then the file's last byte, so everything after the opener except that byte is replaced and no closing marker remains. | file `X<!--T-->ab`, tag `T`, content `n` becomes `X<!--T-->\nn\nb` | a region without a closing marker is left alone and reported | not executed | ContentInjector.SpliceAsWritten, ContentInjector.MissingCloserExample | ContentInjector.Splice, ContentInjector.OverwriteGenerated |
