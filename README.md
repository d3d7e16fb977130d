# mdserve: tracked files and change classification, in Dafny

mdserve serves Markdown files as HTML and live-reloads connected browsers
when a file changes. In single-file mode it tracks the one file named on
the command line. In directory mode it tracks every Markdown file directly
inside one base directory. This project models the engine behind that:

- **Registry.** The `MarkdownState` registry maps a bare file name to a
  tracked file: its path, the modification time last seen and its rendered
  HTML. It has five operations: `new`, `get_sorted_filenames`,
  `refresh_file`, `add_tracked_file` and `rescan_directory`.
- **Scanner.** `scan_markdown_files` lists the Markdown files in one
  directory, non-recursively and sorted.
- **Filters.** `is_markdown_file`, `is_image_file` and
  `guess_image_content_type`.
- **Classifier.** `detect_file_change` and `send_change_message` turn the
  old and new sets of tracked names into one wire message.
- **Router.** `handle_file_event`, `handle_rename_event`,
  `handle_markdown_file_change` and `handle_md_remove` decide what to do
  with a raw watcher event. `rescan_and_detect_changes` is the body of the
  delayed rescan.

How the model is built:

- **File system.** It is an explicit snapshot value, `FileSystem.Snapshot`,
  with one map each for metadata, contents and directory listings.
- **Rendering.** `markdown_to_html` is an arbitrary total function
  `render: string -> string`. It never fails in the source either.
- **Rust's `?` operator.** It becomes Dafny's `:-` on a `Result`.
- **The registry.** Each operation is stated twice:
  - as a pure function of the old map and the snapshot (module `Registry`);
  - as a method of the class `State.MarkdownState`, which updates its
    `trackedFiles` map in place and ensures that the result and the new map
    are exactly what that function gives.

  The properties are proved as lemmas about the functions. The class
  invariant `Valid()` says that every key is the file name of its stored
  path. Every operation of the source keeps it. `TrackUntracked`, the
  loop inside `RescanDirectory`, is covered through that caller.
  `Router.RefreshTargetsEventFile` uses the invariant: the entry a change
  event refreshes lives at a path with the event path's file name.
- **Loops.** The scanner's loop, the loop of `new`, the loop of
  `rescan_directory` and the loop of `handle_file_event` are `while` loops.
  Their invariants tie each prefix of the input to the specifying function.
- **Router.** An event is decided by a pure function that returns an
  `Action`: nothing, refresh, add, schedule a rescan, or send Reload.
  `Router.Apply` carries the action out on the state. The 200 ms delayed
  rescan is counted as a number of scheduled rescans. Running one is
  `Router.RescanAndDetectChanges`.

Modules: `Wrappers` (Option/Result), `Paths` (`file_name`, `extension`,
`join`, ASCII case folding), `Sorting` (string order and sort), `Filters`,
`FileSystem`, `Scanner`, `Registry`, `State`, `Protocol`
(`ServerMessage`), `Classifier`, `Router`.

## Model

| member | source | states |
|---|---|---|
| Filters.IsMarkdownFile | src/app.rs:80-85 | a Markdown path has an extension; `Filters.MarkdownByExtension` and `Filters.NoExtensionNoMatch` fix the verdict for every file name |
| Filters.MarkdownByExtension | src/app.rs:80-85 | a file name stem.ext is Markdown exactly when ext, ASCII-lower-cased, is "md" or "markdown" (covers "test.MD", "test.MarkDown" and the rest of the unit test) |
| Filters.NoExtensionNoMatch | src/app.rs:826-844 | a name with no dot after its first character ("README", "test") is neither Markdown nor an image, and its content type is application/octet-stream |
| Filters.MarkdownHasFileName | src/app.rs:267-275 | a Markdown path always has a file name, so the early return on a missing file name is never taken for one |
| Filters.IsImageFile | src/app.rs:742-752 | an image path has an extension (a missing one becomes "", which is on no list); `Filters.ImageByExtension` fixes the verdict for every file name |
| Filters.ImageByExtension | src/app.rs:742-771 | a file name stem.ext is an image exactly when lower-cased ext is one of png, jpg, jpeg, gif, svg, webp, bmp, ico, and the content type is the one for that extension: image/png, image/jpeg (for jpg and jpeg), image/gif, image/svg+xml, image/webp, image/bmp or image/x-icon |
| Filters.GuessImageContentType | src/app.rs:754-771 | the result is application/octet-stream exactly when the path is not an image file, and otherwise an "image/" type; `Filters.ImageByExtension` gives the exact type per extension |
| Scanner.ScanMarkdownFiles | src/app.rs:63-78 | the loop over the listing returns exactly the specification `MarkdownFilesIn`: the first unreadable item aborts it, and the kept paths are sorted |
| Scanner.CollectFailsFromPrefix | src/app.rs:66-67 | once an item of the listing fails, later items cannot change the result |
| Scanner.CollectFailsIffUnreadable | src/app.rs:66-67 | the loop fails exactly when some item is unreadable, with that directory's entry error |
| Scanner.CollectContents | src/app.rs:66-73 | on success the loop keeps exactly the listed regular files that pass `is_markdown_file`, joined onto the directory |
| Scanner.CollectNoDup | src/app.rs:63-78 | a listing with distinct names yields no path twice |
| Scanner.ScanFailsIff | src/app.rs:63-78 | the scan fails exactly when the directory cannot be listed or one of its items cannot be read |
| Scanner.ScanResult | src/app.rs:899-935 | the result is sorted and holds exactly the kept listed files, each once and each a direct child of the directory |
| Scanner.CollectReadsOnlyListing | src/app.rs:66-73 | the loop depends only on the listing and on whether each listed item is a regular file; nothing else in the file system, such as contents, other paths or subdirectories, can change its result |
| Scanner.ScanDoesNotRecurse | src/app.rs:63-78 | two file systems that agree on this directory's listing and on which listed items are regular files give the same scan, whatever else they hold |
| Scanner.NestedFileIsIgnored | src/app.rs:921-935 | adding a file, with any metadata and contents, one level down inside a subdirectory leaves the scan of the directory unchanged: the scan is not recursive |
| Scanner.NestedPathIsNoChild | src/app.rs:924-927 | a path one level down inside a subdirectory is never the path of a listed item joined onto the directory |
| Sorting.LexLeqTotal | src/app.rs:75 | the lexicographic order on strings used by `sort` is total |
| Sorting.LexLeqTransitive | src/app.rs:75 | that order is transitive |
| Sorting.LexLeqAntisymmetric | src/app.rs:75 | that order is antisymmetric |
| Sorting.Sort | src/app.rs:75 | the result is sorted and a permutation of the input |
| Sorting.SortKeepsElements | src/app.rs:135-139 | sorting keeps the set of elements and keeps them distinct |
| Sorting.SortedIsUnique | src/app.rs:135-139 | two sorted duplicate-free lists with the same elements are equal, so the sorted name list does not depend on hash order |
| Registry.Initial | src/app.rs:104-121 | a successful start-up holds at most one entry per given path (a name given twice is stored once); `Registry.InitialTracksAll` states that it succeeds exactly on readable inputs and then tracks exactly their names |
| Registry.LoadOrdersAgree | src/app.rs:106-170 | both read orders (metadata, mtime, contents at start-up, lines 106-108; metadata, contents, mtime when adding, lines 163-170, and in the rescan loop, lines 218-229) succeed exactly on readable files and then load the same entry |
| Registry.InitialFailsFromPrefix | src/app.rs:104-107 | during start-up, the first file that cannot be read decides the error |
| Registry.InitialSucceedsIff | src/app.rs:104-108 | start-up succeeds exactly when every given file has metadata, a modification time and readable contents |
| Registry.InitialTracksAll | src/app.rs:101-129 | start-up succeeds exactly when every given file is readable; it then tracks exactly their file names, each key matching its path's file name |
| Registry.InitialTracksNames | src/app.rs:104-121 | after a successful start-up the keys are exactly the given files' names, each key is its path's file name, and each entry is the load of a given path |
| Registry.InitialStepTracks | src/app.rs:104-121 | one pass of the start-up loop, inserting the next loaded file under its name, extends a registry of the earlier paths to one of all of them |
| Registry.RefreshOnlyAdvances | src/app.rs:141-154 | refresh keeps the key set; it changes the entry only when the mtime is strictly newer and the file is readable, and then stores the new mtime and HTML; an untracked name is no error; mtimes never decrease; on error nothing changes |
| Registry.RefreshFailsIff | src/app.rs:141-154 | refresh fails exactly when metadata or mtime is unavailable, or the file is newer and cannot be read |
| Registry.RefreshIdempotent | src/app.rs:141-154 | a second refresh on the same snapshot gives the same result and registry |
| Registry.AddInsertsOnlyNew | src/app.rs:156-176 | adding a tracked name changes nothing and succeeds; an unreadable file changes nothing and fails; otherwise exactly one key is added, loaded from the path, and all other entries are kept |
| Registry.Retain | src/app.rs:203-204 | `retain` keeps exactly the keys among the scanned names, with unchanged entries |
| Registry.TrackIfNewOnlyAdds | src/app.rs:208-231 | one iteration of the add loop keeps every entry and adds at most the scanned path's own name, loaded from that path; a readable untracked path is added |
| Registry.AddUntrackedKeeps | src/app.rs:207-239 | the add loop keeps every existing entry and adds only names of scanned paths, each loaded from its path |
| Registry.AddUntrackedTracksAll | src/app.rs:207-239 | when every untracked scanned path is readable, every scanned name is tracked after the loop |
| Registry.AddUntrackedTracksReadable | src/app.rs:207-239 | a scanned path that fails to load is skipped with `continue`, not fatal: every readable scanned path is tracked under its file name after the loop, whatever happens to the others |
| Registry.AddUntrackedOnlyAdds | src/app.rs:207-239 | the add loop keeps every existing entry and adds only names of scanned paths that loaded; when every untracked scanned path is readable, every scanned name ends up tracked |
| Registry.RescanReconciles | src/app.rs:180-242 | rescan returns Ok(false) with no change in single-file mode or when the name sets agree. A failed scan leaves the map unchanged. Otherwise it returns Ok(true), the tracked keys are a subset of the scanned names, surviving entries are unchanged, each new entry is loaded from a scanned path, and every scanned file that can be read is tracked even when another one fails to load |
| Registry.RescanSettles | src/app.rs:180-242 | when every new file was readable, an immediate second rescan of the same snapshot returns Ok(false) |
| Registry.RefreshKeepsKeysMatchingPaths | src/app.rs:141-150 | a refresh keeps every key equal to the file name of its path |
| Registry.AddKeepsKeysMatchingPaths | src/app.rs:157-166 | an add stores the new entry under the file name of its path and keeps that true of every key |
| Registry.RescanKeepsKeysMatchingPaths | src/app.rs:207-231 | a rescan keeps every key equal to the file name of its path |
| State.MarkdownState.constructor | src/app.rs:124-129 | the fields hold the given values |
| State.MarkdownState.New | src/app.rs:101-129 | the loop builds exactly the start-up registry, failing exactly when start-up fails |
| State.MarkdownState.GetSortedFilenames | src/app.rs:135-139 | returns the tracked names, sorted, each exactly once |
| State.MarkdownState.KeyOrder | src/app.rs:339-343 | returns every tracked name exactly once, in some order |
| State.MarkdownState.RefreshFile | src/app.rs:141-154 | the result and the new map are those of `Registry.Refreshed` |
| State.MarkdownState.AddTrackedFile | src/app.rs:156-176 | the result and the new map are those of `Registry.WithAdded` |
| State.MarkdownState.RescanDirectory | src/app.rs:180-242 | the result and the new map are those of `Registry.Rescanned` |
| State.MarkdownState.TrackUntracked | src/app.rs:207-239 | the loop with its `continue` branches leaves exactly the map `Registry.AddUntracked` gives |
| Classifier.DetectFileChange | src/app.rs:298-321 | a reported rename goes from a name only in the old set to a name only in the new set, and a reported removal names a name only in the old set; `Classifier.DetectFileChangeClassifies` and `Classifier.ClassificationIsDetermined` fix which kind is reported |
| Classifier.Minus | src/app.rs:302-303 | the difference holds exactly the elements of the first list that are absent from the second, without duplicates |
| Classifier.DistinctCount | src/app.rs:306 | a duplicate-free list has as many elements as its set |
| Classifier.DetectFileChangeClassifies | src/app.rs:298-321 | exactly one name added and one removed gives Renamed(removed, added); otherwise a non-empty removed set gives Removed(a removed name); otherwise Other |
| Classifier.ClassificationIsDetermined | src/app.rs:298-321 | the kind of change, and a rename's names, depend only on the two name sets, not on hash order |
| Classifier.SendChangeMessage | src/app.rs:323-336 | the message reports exactly the classified change (rename, removal, or Reload for Other) |
| Classifier.OnlyRenameAnnouncesSwap | src/app.rs:306-312 | when one name left and one arrived, FileRenamed from the one to the other is the only message that announces the change |
| Classifier.OnlyRemovalAnnouncesDeletion | src/app.rs:314-319 | when one name left and none arrived, FileRemoved of that name is the only announcing message |
| Classifier.UnrelatedSwapIsRename | src/app.rs:306-312 | {a.md, b.md} becoming {a.md, c.md} is reported as a rename from b.md to c.md: only the counts are checked, never the contents |
| Classifier.TwoAdditionsReload | src/app.rs:314-320 | {a.md} becoming {a.md, b.md, c.md} is reported as Reload |
| Router.MarkdownChangeAction | src/app.rs:267-290 | adds only an untracked name, in directory mode; refreshes only a tracked name matching the path's file name |
| Router.MarkdownChangeEffect | src/app.rs:267-290 | a non-Markdown path does nothing. A tracked name is refreshed, with Reload sent exactly when the refresh succeeded. An untracked name is added in directory mode, with Reload exactly when the add succeeded, and ignored in single-file mode |
| Router.RefreshTargetsEventFile | src/app.rs:267-278 | with the registry invariant that every key is its path's file name, the entry a change event refreshes is stored under a path with the event path's file name |
| Router.RenameAction | src/app.rs:371-402 | a rename action that adds always names a path with a file name |
| Router.RenameInDirectoryModeOnlySchedules | src/app.rs:376-380 | in directory mode a name-change event only schedules a rescan: no registry change, no message |
| Router.RenameInSingleFileMode | src/app.rs:382-401 | in single-file mode: Both acts on paths[1], To on paths[0], Any on paths[0] only if it exists; From, Other or a missing index do nothing; only a refresh can result |
| Router.PathAction | src/app.rs:432-449 | an action that adds always names a path with a file name |
| Router.MarkdownEventAction | src/app.rs:432-441 | a Markdown path is refreshed or added only on creation or data change; only a removal in directory mode schedules a rescan; it never sends a bare Reload |
| Router.MarkdownRemovalDefersToRescan | src/app.rs:408-415 | removing a Markdown file schedules a rescan in directory mode and does nothing in single-file mode |
| Router.ImageChangeAction | src/app.rs:442-449 | a non-Markdown path sends Reload exactly when it is an existing image file and the event is a create, modify or remove. A removed image that is no longer a file sends nothing |
| Router.PerformOnlyGrows | src/app.rs:141-176 | one action never drops a tracked name or moves an mtime backwards; only an add changes the key set, only a scheduled rescan changes the rescan count |
| Router.MarkdownActionsAddOnlyInDirectoryMode | src/app.rs:280-289 | in single-file mode no path decision adds a file or schedules a rescan |
| Router.PathsOnlyGrow | src/app.rs:430-450 | handling an event's paths never drops a tracked name and never moves an mtime backwards; in single-file mode the key set is unchanged and no rescan is scheduled |
| Router.EventsNeverDropFiles | src/app.rs:422-453 | the same, for a whole event including name changes |
| Router.Apply | src/app.rs:267-290 | carrying out an action leaves the registry, the messages and the scheduled rescans given by `Perform` |
| Router.HandleFileEvent | src/app.rs:422-453 | the new registry, the messages sent and the rescans scheduled are those of `EventOutcome`, and every key still equals its path's file name |
| Router.HandlePaths | src/app.rs:430-450 | the loop over the paths ends in the state given by `PathsOutcome`; each decision sees the registry as the previous paths left it |
| Router.HandlePath | src/app.rs:431-449 | one iteration decides on the path against the current registry and performs that decision |
| Router.RescanAndDetectChanges | src/app.rs:338-359 | the registry becomes the rescanned one; a message is sent exactly when the rescan returned Ok(true), and it announces the change between the old and new name sets |
| Router.RemovalIsAnnounced | tests/integration_test.rs:834-865 | deleting one tracked file makes the rescan report a change, drop that name, and announce only FileRemoved of it |
| Router.RenameIsAnnounced | tests/integration_test.rs:868-901 | renaming a tracked file to a readable new name makes the rescan report a change and announce only FileRenamed from the old to the new name |

## Left out

- Concurrency and timing are not modelled: the tokio runtime, the `Arc<Mutex<_>>` locking, `tokio::spawn`, the 200 ms sleep, and the broadcast and mpsc channels. Each state operation is atomic. A scheduled rescan is a count in `Router.Effect`, and running one is a separate call.
- `rescan_and_detect_changes` reads the old names under one lock and rescans under a second one (src/app.rs:339-346). The model takes both under one step, so another event slipping in between is not modelled.
- The notify watcher, `fs::metadata`, `fs::read_to_string`, `read_dir` and `canonicalize` are operating-system I/O. They are replaced by the `Snapshot` value, whose maps say which reads succeed.
- Watcher sub-kinds (`CreateKind`, `RemoveKind`, `DataChange`, `MetadataKind`) are dropped. The decisions only look at the outer kind and at `ModifyKind::Data` and `ModifyKind::Name`.
- `markdown_to_html` and `wrap_tables_for_scroll` are not modelled. They wrap the external `markdown` crate, which is not part of this model. Both are represented by the arbitrary function `render`, which cannot fail, as in the source.
- Modification times are integers compared with `>`. `SystemTime` as such is not modelled.
- Paths are strings with '/' separators. Windows prefixes and root components are not modelled.
- Sorting compares strings by code point. This equals `PathBuf`'s component-wise order for paths that share the scanned directory as prefix, which every scanned path does.
- `is_image_file` and `guess_image_content_type` lower-case with Unicode `to_lowercase`, which the model replaces with ASCII lower-casing. The only non-ASCII character whose lower case is ASCII is KELVIN SIGN (to "k"), and no image extension contains "k", so both give the same verdict.
- `to_string_lossy` is the identity here: names are Dafny strings.
- `add_tracked_file` unwraps `file_name()` before anything else (src/app.rs:157), so a path without a file name always panics there. `Registry.WithAdded` requires a file name, which is exactly the condition under which the source returns.
- `MarkdownState::new` unwraps `file_name()` only after the three reads of the path (src/app.rs:106-111). A nameless path whose reads fail therefore returns that error, and one whose reads succeed panics. `Registry.Initial` and `State.MarkdownState.New` require every path to have a file name, so this error-before-panic case is not modelled. Every caller passes named paths: src/main.rs:29-43 passes either one path that `is_file()` accepts or the paths `scan_markdown_files` built by joining a listed name onto the directory.
- Not modelled because they are web plumbing:
  - HTTP routing and handlers: `new_router`, `serve_markdown`, `serve_html_root`, `serve_file`, `render_markdown`, the mermaid and ETag serving, and `serve_static_file_inner` with its path-prefix check at src/app.rs:706.
  - Template rendering, the WebSocket loops and `ClientMessage`.
  - `show_navigation`.
- `format_host` is not modelled. It relies on the standard library's IPv6 parser.
- `src/main.rs` (argument parsing and start-up) and `build.rs` (the frontend build) are not part of this model.
- `tests/integration_test.rs` mostly exercises HTTP and WebSocket behaviour, and part of it targets an API that `src/app.rs` does not have. The model follows `src/app.rs` in three places:
  - the tests expect a `FileAdded` message (tests/integration_test.rs:800-831), but `ServerMessage` has no such variant, and a created file in directory mode is added and announced with `Reload`;
  - they exercise `/api/files` routes;
  - they expect a recursive scan (tests/integration_test.rs:302-338), but `scan_markdown_files` reads a single directory and the watcher is non-recursive.
- Registry.RefreshIdempotent: refreshing twice against the same snapshot is idempotent, including failures. This does not say the registry ends up current: a failed refresh leaves the old entry in place.
- Router.RenameAction and Router.PathAction: their own contracts only guarantee that an added path has a file name. Their full behaviour is stated by `Router.RenameInSingleFileMode`, `Router.RenameInDirectoryModeOnlySchedules`, `Router.MarkdownEventAction`, `Router.MarkdownRemovalDefersToRescan` and `Router.ImageChangeAction`.
