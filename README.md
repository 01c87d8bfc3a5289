# obsidian-to-bookstack: the reconciliation engine in Dafny

This project models the engine of obsidian-to-bookstack. The engine pairs a local
Obsidian vault with a remote BookStack instance. The vault is a directory tree of
shelves, books, chapters and Markdown pages. Local and remote entities share no id:
an entity is found on the other side by hashing the concatenation of its name with
the names of its ancestors.

The model covers:

- the entity classes (`Shelf`, `Book`, `Chapter`, `Page`), their constructors with
  the `from_client` flag, the loops that read a directory listing into children, and
  every `get_full_path_str`;
- the remote client (`BookstackClient`): its lists, its four lookup maps, their
  builders and `_retrieve_from_client_map`;
- the local client (`Bookstack`): `_build_object_for_delete`, `delete`,
  `purge_local`, `purge_remote`, `update_remote`, `sync_remote` and `sync_local`.

Modules, leaf first:

- `Base`: `Option`, `Result`, and the Python exceptions the code can raise (`Fault`).
- `Paths`: POSIX `os.path.join`, `os.path.splitext` and `str.split('/')`.
- `Artifacts`: the four entity classes. `os.listdir` is replaced by an `Entry` tree, in
  which a directory carries its own listing and a file carries the text `open().read()`
  would return.
- `Identity`: the strings the map builders and the lookup hash. Also `KeyedMap`, a dict
  filled in list order (the last entity wins), and `LastSlot`, an independent
  description of that dict.
- `Remote`: `BookstackClient` as a class whose methods rebuild its lists and maps.
- `DeleteTargets`: the lookup objects rebuilt from split path strings, and the round
  trip `get_full_path_str` → split → rebuild → key.
- `Effects`: the vault on disk as two path sets (`Disk`), `os.remove`/`shutil.rmtree`,
  and `Op`, one trace event per call into code outside the model.
- `Plans`: each operation of the local client as a function of the state it starts
  from (`DeleteEffect`, `RemoveEach`, `DeleteEach`, `UpdateEach`, the sync plans). The
  purge-order, update-rule and barrier properties are proved as lemmas about these
  functions.
- `Local`: `Bookstack` as a class. It has the two entity lists, the disk and the trace.
  Each method is proved to produce exactly the state its `Plans` function describes.

Inputs the code obtains from outside become parameters:

- what the collectors return, as `Snapshot`s;
- the missing sets, as a function from kind to a sequence of entities;
- the books `_create_remote_missing_books` reports, as `created`;
- `os.stat`'s modification times, as `mtimes`: integer microseconds by path, with an
  absent path meaning the file does not exist;
- the remote `updated_at`, already converted to integer microseconds.

`con_hash` is an arbitrary function `string -> Digest` fixed in the client.

Behaviours of the code worth knowing:

- **Push phases.** `sync_remote` refreshes the client and then the local side before
  re-associating books. It refreshes the client again after that, and once more after
  pages.
- **Bulk loops stop at the first exception.** An exception inside a bulk loop ends the
  whole operation:
  - `os.remove` on a directory during a purge;
  - a `KeyError` in `update_remote`;
  - an `IndexError` in `purge_remote`.

  Only the `KeyError` of the remote lookup in `delete` is caught, and it ends with a
  warning.
- **Both update flags.** `update_remote` takes both flags. `remote` takes precedence
  (if/elif); they are not mutually exclusive.
- **Hidden entries are kept.** Only `Shelf._set_books` skips names starting with ".".
  `Book._set_pages` makes every directory a chapter, and `Chapter._set_pages` does
  not ask whether an entry is a directory.
- **Missing ancestors are not rejected.** A book without a shelf, or a page without a
  book, is keyed by its bare name. Only a chapter without a book fails: it is left out
  of the chapter map, and looking it up raises `AttributeError`.
- **Keys can collide.** Keys are plain concatenations without a delimiter, so two
  different name paths can collide (`Identity.ConcatenationCollides`).
- **A dot in a remote page name breaks the round trip.** Such a page's name is split by
  `splitext` as if it had an extension, so purging it looks the page up under the
  stem's key (`DeleteTargets.DottedPageMissesItself`). Either nothing is found, or a
  different page with that key is deleted: purging "v1.2" deletes its sibling "v1"
  (`Plans.DottedPageDeletesSibling`).

## Model

| member | source | states |
|---|---|---|
| `Paths.Join` | obsidian_to_bookstack/bookstack/artifacts.py:36 | `os.path.join(a, b)` ends with b; an absolute b replaces a; otherwise the result starts with a |
| `Paths.JoinAll` | obsidian_to_bookstack/bookstack/bookstack.py:199 | `os.path.join(a, *ps)` is a with no parts, and otherwise ends with the last part |
| `Paths.Split` | obsidian_to_bookstack/bookstack/bookstack.py:196 | `str.split(sep)` gives at least one part, no part holds the separator, and joining the parts with the separator gives back the string |
| `Paths.RFind` | obsidian_to_bookstack/bookstack/artifacts.py:187 | the index of the last occurrence of the character, or -1; no later position holds it |
| `Paths.SplitExt` | obsidian_to_bookstack/bookstack/artifacts.py:187 | `splitext`: stem + extension is the name; a non-empty extension starts with the only dot in it, has no separator, and some non-dot character of the last component comes before it (`SplitExtAtLastDot` gives the converse) |
| `Paths.SplitExtAtLastDot` | obsidian_to_bookstack/bookstack/artifacts.py:187 | conversely, when the last dot of the name has a non-dot character of the last component before it, the split is made at that dot |
| `Paths.Stem` | obsidian_to_bookstack/bookstack/artifacts.py:187 | `splitext(p)[0]` is a prefix of p that, followed by the extension, gives p back |
| `Paths.Ext` | obsidian_to_bookstack/bookstack/artifacts.py:93 | `splitext(p)[1]` is a suffix of p; when not empty it starts with its only dot and holds no separator |
| `Paths.SplitSepJoin` | obsidian_to_bookstack/bookstack/bookstack.py:196 | splitting a separator-join of separator-free names gives the names back |
| `Paths.JoinAllIsSepJoin` | obsidian_to_bookstack/bookstack/bookstack.py:199 | `os.path.join(root, *parts)` of plain names is root, separator, then the parts joined by the separator |
| `Paths.JoinSepJoin` | obsidian_to_bookstack/bookstack/artifacts.py:109 | joining one more plain name onto a joined path is the join of the extended list |
| `Paths.NoDotNoExt` | obsidian_to_bookstack/bookstack/bookstack.py:105 | a name without a dot has no extension |
| `Paths.MarkdownExt` | obsidian_to_bookstack/bookstack/artifacts.py:93 | the extension of a separator-free name is ".md" exactly when the name ends in ".md" and a non-dot character precedes that suffix |
| `Artifacts.FilterKeeps` | obsidian_to_bookstack/bookstack/artifacts.py:31-42 | the filtered children are entries of the listing that the rule accepts, and every accepted entry is among them |
| `Artifacts.ChapterDirStep` | obsidian_to_bookstack/bookstack/artifacts.py:81-91 | a directory entry of a book adds exactly one chapter built from it and leaves the page list as it was |
| `Artifacts.BookPageStep` | obsidian_to_bookstack/bookstack/artifacts.py:92-102 | a ".md" file entry of a book adds exactly one page built from it and leaves the chapter list as it was |
| `Artifacts.BookSkipStep` | obsidian_to_bookstack/bookstack/artifacts.py:92-93 | any other entry of a book changes neither list |
| `Artifacts.ShelfBookStep` | obsidian_to_bookstack/bookstack/artifacts.py:31-42 | a visible directory entry of a shelf adds exactly one book built from it, after the earlier ones |
| `Artifacts.ChapterPageStep` | obsidian_to_bookstack/bookstack/artifacts.py:140-149 | a ".md" entry of a chapter adds exactly one page built from it, after the earlier ones |
| `Artifacts.Shelf.constructor` | obsidian_to_bookstack/bookstack/artifacts.py:8-24 | name, path and details are as given; from the client the shelf has no books; otherwise it has one loaded book per visible directory of its listing, in listing order |
| `Artifacts.Shelf.SetBooks` | obsidian_to_bookstack/bookstack/artifacts.py:29-44 | one book per directory not starting with ".", in listing order, each with the directory's name, the joined path, this shelf as its shelf, and its own chapters and pages loaded |
| `Artifacts.Book.constructor` | obsidian_to_bookstack/bookstack/artifacts.py:51-70 | fields as given; from the client the chapters are the ones passed in and there are no pages; otherwise both lists are what the listing yields |
| `Artifacts.Book.SetPages` | obsidian_to_bookstack/bookstack/artifacts.py:75-105 | the chapters are exactly the directories of the listing (hidden ones included), the pages exactly its ".md" files, both in listing order, with the book's shelf, this book, joined paths and loaded contents |
| `Artifacts.Chapter.constructor` | obsidian_to_bookstack/bookstack/artifacts.py:114-133 | fields as given; from the client there are no pages; otherwise the pages are what the listing yields |
| `Artifacts.Chapter.SetPages` | obsidian_to_bookstack/bookstack/artifacts.py:138-151 | the pages are exactly the ".md" entries of the listing, in order, with no shelf, the chapter's book and this chapter |
| `Artifacts.Page.constructor` | obsidian_to_bookstack/bookstack/artifacts.py:160-177 | fields as given; the content is the file's text when the path is non-empty and "" otherwise |
| `Artifacts.Shelf.FullPath` | obsidian_to_bookstack/bookstack/artifacts.py:46-47 | a shelf's full path is its lineage, its name alone |
| `Artifacts.Book.FullPath` | obsidian_to_bookstack/bookstack/artifacts.py:107-110 | a book's full path ends with its name, and is the name alone without a shelf |
| `Artifacts.Chapter.FullPath` | obsidian_to_bookstack/bookstack/artifacts.py:153-156 | a chapter's full path ends with its name, and is the name alone without a book |
| `Artifacts.Page.FullPath` | obsidian_to_bookstack/bookstack/artifacts.py:186-192 | a page's full path ends with the stem of its name, and is that stem alone without a chapter or book |
| `Artifacts.ShelfPath` | obsidian_to_bookstack/bookstack/artifacts.py:46-47 | a shelf's full path is its name, and splitting it gives its lineage |
| `Artifacts.BookPath` | obsidian_to_bookstack/bookstack/artifacts.py:107-110 | a book's full path is its lineage (shelf name if any, then its name) joined by the separator, and splitting gives the lineage back |
| `Artifacts.ChapterPath` | obsidian_to_bookstack/bookstack/artifacts.py:153-156 | a chapter's full path goes through its book only, and splitting gives the lineage back |
| `Artifacts.PagePath` | obsidian_to_bookstack/bookstack/artifacts.py:186-192 | a page's full path is the chapter path, else the book path, else nothing, followed by the stem of its name, and splitting gives the lineage back |
| `Identity.ShelfMapName` | obsidian_to_bookstack/bookstack/bookstack.py:56-58 | a shelf is keyed by its name |
| `Identity.BookMapName` | obsidian_to_bookstack/bookstack/bookstack.py:60-69 | a book is keyed by its name followed by its shelf's name, or by the name alone |
| `Identity.PageMapName` | obsidian_to_bookstack/bookstack/bookstack.py:71-86 | a page with a book and a chapter is keyed by its name, the book's name and the chapter's name; with a book only, by its name and the book's name; without a book, by its name alone |
| `Identity.ChapterMapName` | obsidian_to_bookstack/bookstack/bookstack.py:88-95 | a chapter has a key exactly when it has a book, and the key is its name followed by the book's name |
| `Identity.KeyedMap` | obsidian_to_bookstack/bookstack/bookstack.py:62-67 | filling a dict from a list in order gives at most one entry per element |
| `Identity.KeyedMapDomain` | obsidian_to_bookstack/bookstack/bookstack.py:62-67 | a digest is in the filled dict exactly when some entity of the list is stored under it |
| `Identity.KeyedMapLastWins` | obsidian_to_bookstack/bookstack/bookstack.py:73-84 | an entity that no later entity of the list collides with is the one stored under its digest |
| `Identity.KeyedMapValues` | obsidian_to_bookstack/bookstack/bookstack.py:62-67 | every stored entity comes from the list and sits under its own digest |
| `Identity.LastSlot` | obsidian_to_bookstack/bookstack/bookstack.py:62-67 | the index of the last entity of the list stored under the digest, or -1; no later entity is stored under it |
| `Identity.KeyedMapIsLast` | obsidian_to_bookstack/bookstack/bookstack.py:62-67 | the filled dict is exactly "the last entity stored under each digest" |
| `Identity.ChapterMapHasBooks` | obsidian_to_bookstack/bookstack/bookstack.py:88-95 | the chapter map holds no chapter without a book |
| `Identity.LookupName` | obsidian_to_bookstack/bookstack/bookstack.py:102-127 | the lookup string fails exactly for a chapter without a book (AttributeError) |
| `Identity.LookupAgreesWithMap` | obsidian_to_bookstack/bookstack/bookstack.py:102-127 | lookup and map building hash the same string for shelves, books and chapters with a book, and for pages without an extension |
| `Identity.LocalPageFindsRemote` | obsidian_to_bookstack/bookstack/bookstack.py:104-114 | a local page whose stem, book and chapter names equal a remote page's is looked up under that remote page's map string |
| `Identity.ConcatenationCollides` | obsidian_to_bookstack/bookstack/bookstack.py:65 | book "ab" on shelf "c" and book "a" on shelf "bc" have different lineages but the same map string |
| `Remote.BookstackClient.constructor` | obsidian_to_bookstack/bookstack/bookstack.py:20-29 | the lists are what the collectors return and every map is the list-order fill of its list |
| `Remote.BookstackClient.Refresh` | obsidian_to_bookstack/bookstack/bookstack.py:49-54 | the lists are the new snapshot and the maps are rebuilt from them |
| `Remote.BookstackClient.SetArtifacts` | obsidian_to_bookstack/bookstack/bookstack.py:37-41 | the four lists are the snapshot's and the four maps are left as they were |
| `Remote.BookstackClient.SetMaps` | obsidian_to_bookstack/bookstack/bookstack.py:43-47 | the lists are unchanged and each map is the list-order fill of its list |
| `Remote.BookstackClient.BuildShelfMap` | obsidian_to_bookstack/bookstack/bookstack.py:56-58 | the comprehension equals the list-order fill keyed by shelf name |
| `Remote.BookstackClient.BuildBookMap` | obsidian_to_bookstack/bookstack/bookstack.py:60-69 | the loop builds the list-order fill keyed by name + shelf name, or the bare name |
| `Remote.BookstackClient.BuildPageMap` | obsidian_to_bookstack/bookstack/bookstack.py:71-86 | the loop builds the list-order fill keyed by name + book + chapter, else name + book, else name |
| `Remote.BookstackClient.BuildChapterMap` | obsidian_to_bookstack/bookstack/bookstack.py:88-95 | the loop builds the list-order fill keyed by name + book name, skipping chapters without a book |
| `Remote.BookstackClient.Find` | obsidian_to_bookstack/bookstack/bookstack.py:108-127 | indexing the map of a kind returns an entity of that kind, or KeyError |
| `Remote.BookstackClient.Retrieve` | obsidian_to_bookstack/bookstack/bookstack.py:102-127 | the result has the object's kind; failures are KeyError or AttributeError, the latter exactly when the lookup string cannot be built |
| `Remote.ShelfComprehension` | obsidian_to_bookstack/bookstack/bookstack.py:58 | the dict comprehension and the list-order fill are the same map |
| `Remote.FindIsLastMatch` | obsidian_to_bookstack/bookstack/bookstack.py:56-95 | with valid maps, finding a name returns the last entity of the list stored under its digest, and KeyError exactly when there is none |
| `Remote.RetrieveFindsCounterpart` | obsidian_to_bookstack/bookstack/bookstack.py:104-114 | a local page finds the remote page with the same stem, book and chapter names when no later remote page shares its digest |
| `Remote.FindReturnsHeld` | obsidian_to_bookstack/bookstack/bookstack.py:102-127 | a successful find returns an entity the client holds; a chapter found always has a book |
| `DeleteTargets.TargetOf` | obsidian_to_bookstack/bookstack/bookstack.py:172-192 | too few parts raise IndexError; otherwise the target has the requested kind, is built from a prefix of the parts, and is a chapter page exactly when a page has four parts |
| `DeleteTargets.RealisedLookup` | obsidian_to_bookstack/bookstack/bookstack.py:215-221 | the rebuilt lookup object has the target's kind and is looked up under the target's name |
| `DeleteTargets.TargetName` | obsidian_to_bookstack/bookstack/bookstack.py:104-114 | the rebuilt object's lookup string starts with the own name of the target, the stem for a page |
| `DeleteTargets.ShelfRoundTrip` | obsidian_to_bookstack/bookstack/bookstack.py:338-339 | a shelf's full path rebuilds into the shelf's own target, whose name is the shelf's map string |
| `DeleteTargets.BookRoundTrip` | obsidian_to_bookstack/bookstack/bookstack.py:338-339 | a shelved book's full path rebuilds into its own target, whose name is its map string |
| `DeleteTargets.ChapterRoundTrip` | obsidian_to_bookstack/bookstack/bookstack.py:338-339 | a chapter of a shelved book rebuilds into its own target, whose name is its map string |
| `DeleteTargets.PageTarget` | obsidian_to_bookstack/bookstack/bookstack.py:183-191 | a shelved page's full path rebuilds into a book-page or chapter-page target with the page's stem |
| `DeleteTargets.LineageTarget` | obsidian_to_bookstack/bookstack/bookstack.py:183-191 | the lineage of a shelved page, taken as parts, rebuilds into that page's target |
| `DeleteTargets.PageRoundTrip` | obsidian_to_bookstack/bookstack/bookstack.py:338-339 | a remote page without an extension rebuilds into a target whose name is the page's own map string |
| `DeleteTargets.LocalPageRoundTrip` | obsidian_to_bookstack/bookstack/bookstack.py:196 | a local page rebuilds into a target looked up under the same string as the page itself, when stripping the extension twice changes nothing |
| `DeleteTargets.PageTargetLookup` | obsidian_to_bookstack/bookstack/bookstack.py:104-114 | the target's name of a shelved page is its lookup string, under the same condition |
| `DeleteTargets.DottedPageMissesItself` | obsidian_to_bookstack/bookstack/artifacts.py:187 | the remote page "v1.2" of book "b" on shelf "s" rebuilds into a target whose name is not the page's map string |
| `DeleteTargets.DottedPageTarget` | obsidian_to_bookstack/bookstack/bookstack.py:183-191 | the full path of page "v1.2" of book "b" on shelf "s" rebuilds into the book-page target for "v1" |
| `DeleteTargets.ShelflessPageCannotBeRebuilt` | obsidian_to_bookstack/bookstack/bookstack.py:191 | a page of a book without a shelf has two parts, and rebuilding it raises IndexError |
| `Effects.RemoveTree` | obsidian_to_bookstack/bookstack/bookstack.py:212 | rmtree removes the path and everything below it, and keeps everything not below it |
| `Effects.RemoveLocal` | obsidian_to_bookstack/bookstack/bookstack.py:198-212 | the local half fails (IsADirectoryError) exactly for a page path that is a directory but not a file; otherwise a page removal takes out that file alone and a tree removal is rmtree of the directory when it exists; one removal is traced unless the entity was already gone, in which case nothing changes |
| `Plans.LocalPaths` | obsidian_to_bookstack/bookstack/bookstack.py:286 | the `path` of every item, in order |
| `Plans.RemoveEach` | obsidian_to_bookstack/bookstack/bookstack.py:285-289 | a removal loop only shrinks the disk, and is inert once a fault has stopped the run |
| `Plans.RemoveEachTrace` | obsidian_to_bookstack/bookstack/bookstack.py:285-289 | a removal loop only appends removals at its level, and does nothing once a fault stopped the run |
| `Plans.RemoveEachDisk` | obsidian_to_bookstack/bookstack/bookstack.py:295-299 | a removal loop only shrinks the disk; when it finishes none of its paths is left; it can stop only with IsADirectoryError on pages; every path not covered by one of its paths survives |
| `Plans.RemoveEachKeeps` | obsidian_to_bookstack/bookstack/bookstack.py:285-319 | whether or not it finishes, a removal loop keeps every file that is not one of its paths or below one, and every directory likewise (all directories for pages) |
| `Plans.PurgeLocalRun` | obsidian_to_bookstack/bookstack/bookstack.py:274-319 | purge_local only shrinks the disk, and is inert once a fault has stopped the run |
| `Plans.PurgeLocalOrder` | obsidian_to_bookstack/bookstack/bookstack.py:279-319 | purge_local only appends removals, and every removal of a deeper level precedes every removal of a shallower one |
| `Plans.PurgeLocalClears` | obsidian_to_bookstack/bookstack/bookstack.py:274-319 | a purge_local that finishes leaves no missing entity on disk at any level; it can stop only with IsADirectoryError; every file and directory not at or below a missing path survives |
| `Plans.PurgeLocalKeeps` | obsidian_to_bookstack/bookstack/bookstack.py:274-319 | even when a fault stops it, purge_local keeps every file and directory not at or below a missing path |
| `Plans.DeleteRemoteOutcomes` | obsidian_to_bookstack/bookstack/bookstack.py:214-248 | the remote half: IndexError exactly for too few parts; a raise or a missing key sends nothing; a missing key is reported exactly when the rebuilt target is not found; only KeyError and IndexError are raised |
| `Plans.DeleteRemoteSends` | obsidian_to_bookstack/bookstack/bookstack.py:228-248 | a remote delete is sent only for the entity found under the rebuilt target, with that entity's id, and exactly once |
| `Plans.DeleteLocalFirst` | obsidian_to_bookstack/bookstack/bookstack.py:194-226 | the local half runs first; it fails exactly when delete raises IsADirectoryError, and then nothing else happens; otherwise its removal begins the trace and its disk is the result |
| `Plans.FullPaths` | obsidian_to_bookstack/bookstack/bookstack.py:339 | the full path string of every item, in order |
| `Plans.DeleteEffectLevel` | obsidian_to_bookstack/bookstack/bookstack.py:194-248 | a delete only removes and deletes at its own level |
| `Plans.DeleteEach` | obsidian_to_bookstack/bookstack/bookstack.py:336-339 | one purge_remote level only shrinks the disk, and is inert once a fault has stopped the run |
| `Plans.PurgeRemoteRun` | obsidian_to_bookstack/bookstack/bookstack.py:321-339 | purge_remote only shrinks the disk, and is inert once a fault has stopped the run |
| `Plans.DeleteEachTrace` | obsidian_to_bookstack/bookstack/bookstack.py:336-339 | one purge_remote level only appends removals and deletes at that level |
| `Plans.PurgeRemoteNested` | obsidian_to_bookstack/bookstack/bookstack.py:328-339 | over levels listed deeper first, purge_remote's removals and deletes never go from a shallower level back to a deeper one |
| `Plans.PurgeRemoteOrder` | obsidian_to_bookstack/bookstack/bookstack.py:326-333 | purge_remote's pages → chapters → books → shelves order makes every deletion of a deeper level precede every one of a shallower level |
| `Plans.PurgedShelfFindsItself` | obsidian_to_bookstack/bookstack/bookstack.py:336-339 | deleting a remote shelf by its full path finds that shelf |
| `Plans.PurgedBookFindsItself` | obsidian_to_bookstack/bookstack/bookstack.py:336-339 | deleting a shelved remote book by its full path finds that book |
| `Plans.PurgedChapterFindsItself` | obsidian_to_bookstack/bookstack/bookstack.py:336-339 | deleting a remote chapter of a shelved book by its full path finds that chapter |
| `Plans.PurgedPageFindsItself` | obsidian_to_bookstack/bookstack/bookstack.py:336-339 | deleting a shelved remote page without an extension by its full path finds that page |
| `Plans.PageFound` | obsidian_to_bookstack/bookstack/bookstack.py:108-127 | a remote page that no later page shares a key with is what finding its map string returns |
| `Plans.DottedPageDeletesSibling` | obsidian_to_bookstack/bookstack/bookstack.py:183-248 | with pages "v1" (id 7) and then "v1.2" in book "b" on shelf "s", deleting "v1.2" by its full path sends a delete for page 7, its sibling |
| `Plans.PurgedItemDeletesItself` | obsidian_to_bookstack/bookstack/bookstack.py:220-248 | when the rebuilt target finds an entity with an id, delete sends exactly one delete with that id after the local removal |
| `Plans.Decide` | obsidian_to_bookstack/bookstack/bookstack.py:356-367 | push exactly when `remote` and the local time is ahead by more than five seconds; pull exactly when only `local` and the remote time is ahead by more than five seconds |
| `Plans.DecideBoundary` | obsidian_to_bookstack/bookstack/bookstack.py:357-367 | exactly five seconds is not enough in either direction; one microsecond more is |
| `Plans.DecideRemoteFirst` | obsidian_to_bookstack/bookstack/bookstack.py:356-364 | with `remote` set, `local` is not looked at and no pull happens |
| `Plans.DecideMirror` | obsidian_to_bookstack/bookstack/bookstack.py:356-367 | push for times (a, b) exactly when pull for times (b, a) |
| `Plans.UpdateStep` | obsidian_to_bookstack/bookstack/bookstack.py:345-372 | one page fails exactly when its file, its remote page or that page's updated_at is missing (FileNotFoundError for the file); otherwise it yields a push, a pull or nothing exactly as the five-second rule decides, and never more than one op |
| `Plans.UpdateEach` | obsidian_to_bookstack/bookstack/bookstack.py:341-375 | update_remote never touches the disk, and is inert once a fault has stopped the run |
| `Plans.UpdateEachJustified` | obsidian_to_bookstack/bookstack/bookstack.py:341-372 | update_remote only appends to the trace and never touches the disk; every push and pull it emits is justified by the rule for the page and the remote page it is looked up as; with neither flag it emits nothing |
| `Plans.UpdateEachComplete` | obsidian_to_bookstack/bookstack/bookstack.py:341-375 | update_remote finishes exactly when every page gets through, and then it has emitted, page after page, exactly the push or pull the rule asks for |
| `Plans.UpdateWithoutFlags` | obsidian_to_bookstack/bookstack/bookstack.py:356-367 | with neither flag, update_remote leaves the trace as it was |
| `Plans.SyncRemotePlan` | obsidian_to_bookstack/bookstack/bookstack.py:255-265 | sync_remote makes nine calls, starting with the creation of the missing shelves and ending with a client refresh |
| `Plans.SyncRemoteTopDown` | obsidian_to_bookstack/bookstack/bookstack.py:257-265 | remote creation never goes from a deeper level to a shallower one, and the last step is a client refresh |
| `Plans.SyncRemoteRefreshesBeforeDeep` | obsidian_to_bookstack/bookstack/bookstack.py:257-264 | every creation of shelves or books precedes every creation of chapters or pages, with a client refresh between them |
| `Plans.SyncRemoteRebindsAfterRefresh` | obsidian_to_bookstack/bookstack/bookstack.py:257-261 | books are re-associated with shelves only after a client refresh and a local refresh that follow the shelf and book creation, and exactly the created books are passed |
| `Plans.SyncRemoteRefreshCount` | obsidian_to_bookstack/bookstack/bookstack.py:255-265 | sync_remote refreshes the client exactly three times |
| `Plans.SyncRemoteRefreshFollows` | obsidian_to_bookstack/bookstack/bookstack.py:255-265 | every remote creation is followed by a client refresh with only creations in between |
| `Plans.SyncLocalPlan` | obsidian_to_bookstack/bookstack/bookstack.py:267-272 | sync_local makes four local creations, one per level, shelves first and pages last |
| `Plans.SyncLocalTopDown` | obsidian_to_bookstack/bookstack/bookstack.py:267-272 | sync_local creates each level exactly once, shallower levels strictly first |
| `Local.Bookstack.constructor` | obsidian_to_bookstack/bookstack/bookstack.py:133-143 | a remote client holding the remote snapshot with valid maps, the local lists from the collectors, no missing books and an empty trace |
| `Local.Bookstack.Refresh` | obsidian_to_bookstack/bookstack/bookstack.py:159-170 | the local lists are what the collectors return |
| `Local.Bookstack.BuildObjectForDelete` | obsidian_to_bookstack/bookstack/bookstack.py:172-192 | IndexError exactly when the parts are too few for the kind; otherwise a lookup object realising the target: parents set, no shelf on chapters and pages, a chapter page for four parts |
| `Local.Bookstack.RemoveEntity` | obsidian_to_bookstack/bookstack/bookstack.py:198-212 | the disk and the trace become what the local half describes, or stay as they were on its fault |
| `Local.Bookstack.Delete` | obsidian_to_bookstack/bookstack/bookstack.py:194-248 | the disk, the trace and the outcome are those of `DeleteEffect`: the local half, then the remote half |
| `Local.Bookstack.DeleteRemotely` | obsidian_to_bookstack/bookstack/bookstack.py:214-248 | the trace and the outcome are those of the remote half |
| `Local.Bookstack.RemoveEachPath` | obsidian_to_bookstack/bookstack/bookstack.py:285-289 | the loop ends in the state `RemoveEach` describes |
| `Local.Bookstack.PurgeLocal` | obsidian_to_bookstack/bookstack/bookstack.py:274-319 | purge_local ends in the state `PurgeLocalRun` describes |
| `Local.Bookstack.DeleteEachPath` | obsidian_to_bookstack/bookstack/bookstack.py:336-339 | the loop ends in the state `DeleteEach` describes |
| `Local.Bookstack.PurgeRemote` | obsidian_to_bookstack/bookstack/bookstack.py:321-339 | purge_remote ends in the state `PurgeRemoteRun` over pages, chapters, books, shelves describes |
| `Local.Bookstack.UpdateRemote` | obsidian_to_bookstack/bookstack/bookstack.py:341-375 | update_remote ends in the state `UpdateEach` over the local pages describes |
| `Local.Bookstack.SyncRemote` | obsidian_to_bookstack/bookstack/bookstack.py:255-265 | the trace grows by sync_remote's plan; the missing books are the created ones; the local lists and the client are those of the last refreshes, with valid maps |
| `Local.Bookstack.SyncLocal` | obsidian_to_bookstack/bookstack/bookstack.py:267-272 | the trace grows by sync_local's plan |

## Left out

- Network: HTTP through urllib3, `_make_request`, `_get_from_client`, `_get_temp_book_map` and the remote collectors' paging are not modelled. `_delete_from_bookstack` is the trace event `DeletedRemote(kind, id)`; the kind stands for the endpoint.
- Collectors: the local and remote collectors (`_get_missing_set`, every `create_*_missing_*`, `update_shelf_books`, `update_local_content`, `update`) are not part of this model. Their results are parameters and their calls are trace events. A missing set is a Python set whose iteration order is not fixed, so it is a sequence in any order.
- Content pushed and pulled: the page text sent by `update_local_content`, and the bytes `update` returns and `update_remote` writes, are not modelled; only the push or pull event is traced.
- `updated_pages` and the "No pages changed" message of `update_remote` are console output only.
- Console logging and the `verbose` flag are not modelled, and neither is `__str__`.
- Time conversion: `datetime.strptime`, `utcfromtimestamp` and the float `st_mtime` are replaced by integer microseconds.
- `con_hash` internals are not modelled: it is any function.
- The `client` handle on entities is not modelled; only the collectors read it. `excluded` is carried by the local client but never read, since only the collectors use it. `client_books` is never read by the core.
- Mutable default arguments (`details={}`, `chapters=[]`) are shared between calls in Python. The model gives each entity its own value.
- `_build_object_for_delete`'s final `return None` and the `if not lookup_obj` / `if not endpoint` branches of `delete` cannot be reached with the four item kinds, so none of them is modelled.
- `Effects.RemoveLocal`: disk paths are compared as plain strings. Trailing separators, "." and "..", and symbolic links are not resolved. So `delete` given an existing directory with a trailing "/" (such as "s/b/") finds no local entry and removes nothing locally, where `os.path.isdir` and `shutil.rmtree` would remove the directory. `Effects.RemoveTree`'s notion of "below a path" has the same limit.
- `os.remove` on a directory is modelled as Linux's `IsADirectoryError`.
- `Page._get_content` reads a file; the model takes the text from the `Entry` listing.
- Opening a directory as a page is not modelled. `Chapter._set_pages` calls `open()` on every entry named like a ".md" page, so a directory with such a name would raise there. The members below require that no such directory exists, and that exception is not modelled:
- `Artifacts.Chapter.SetPages` requires that no directory of its listing is named like a ".md" page.
- `Artifacts.Chapter.constructor` carries the same requirement when it reads from disk.
- `Artifacts.Book.SetPages` requires the same of every chapter directory of its listing.
- `Artifacts.Book.constructor` carries the same requirement when it reads from disk.
- `Artifacts.Shelf.SetBooks` requires the same of every book directory of its listing.
- `Artifacts.Shelf.constructor` carries the same requirement when it reads from disk.
- `__main__.py` (command-line wiring, configuration and the database init) is not part of this model.
