/** The registry of tracked files (`MarkdownState::tracked_files`) as a map
    value, and what each of `MarkdownState`'s operations does to it, stated
    as functions of the old map and the file system snapshot. The class in
    module State performs these operations in place. */
module Registry {
  import opened Wrappers
  import opened Paths
  import opened FileSystem
  import opened Scanner

  /** One tracked document: where it lives, the modification time last seen,
      and its rendered HTML. */
  datatype TrackedFile = TrackedFile(path: Path, lastModified: int, html: string)

  /** Keyed by bare file name, not by a path relative to the root. */
  type Files = map<string, TrackedFile>

  /** The value an operation returns together with the registry it leaves. */
  datatype Transition<T> = Transition(result: Result<T, IoError>, files: Files)

  /** Every key is the file name of the path stored under it. */
  ghost predicate KeysMatchPaths(files: Files) {
    forall name :: name in files ==> FileName(files[name].path) == Some(name)
  }

  /** The file names of a list of paths (paths without one are skipped). */
  function NamesOf(paths: seq<Path>): set<string> {
    set p | p in paths && FileName(p).Some? :: FileName(p).value
  }

  /** `MarkdownState::new` reads a file in this order: metadata,
      modification time, contents; `render` is `markdown_to_html`. */
  function LoadAtStartup(fs: Snapshot, p: Path, render: string -> string): Result<TrackedFile, IoError> {
    var meta :- GetMetadata(fs, p);
    var lastModified :- Modified(meta, p);
    var content :- ReadToString(fs, p);
    Ok(TrackedFile(p, lastModified, render(content)))
  }

  /** `add_tracked_file` and `rescan_directory` read in this order:
      metadata, contents, modification time. */
  function LoadOnDemand(fs: Snapshot, p: Path, render: string -> string): Result<TrackedFile, IoError> {
    var meta :- GetMetadata(fs, p);
    var content :- ReadToString(fs, p);
    var lastModified :- Modified(meta, p);
    Ok(TrackedFile(p, lastModified, render(content)))
  }

  /** A file can be loaded when its metadata, its modification time and its
      contents can all be read. */
  ghost predicate Readable(fs: Snapshot, p: Path) {
    p in fs.meta && fs.meta[p].modified.Some? && p in fs.contents
  }

  /** Both read orders succeed on exactly the readable files and then load
      the same entry; the order only decides which error is reported. */
  lemma LoadOrdersAgree(fs: Snapshot, p: Path, render: string -> string)
    ensures LoadAtStartup(fs, p, render).Ok? <==> Readable(fs, p)
    ensures LoadOnDemand(fs, p, render).Ok? <==> Readable(fs, p)
    ensures Readable(fs, p) ==>
      LoadAtStartup(fs, p, render) == LoadOnDemand(fs, p, render)
        == Ok(TrackedFile(p, fs.meta[p].modified.value, render(fs.contents[p])))
  {
  }

  // ---------------------------------------------------------------------
  // MarkdownState::new

  /** The registry `MarkdownState::new` builds from `paths`, in order; the
      first file that cannot be loaded makes the whole start-up fail. */
  function Initial(fs: Snapshot, paths: seq<Path>, render: string -> string): (r: Result<Files, IoError>)
    requires forall i :: 0 <= i < |paths| ==> FileName(paths[i]).Some?
    ensures r.Ok? ==> |r.value| <= |paths|
    decreases |paths|
  {
    if paths == [] then Ok(map[])
    else
      var files :- Initial(fs, paths[..|paths| - 1], render);
      var p := paths[|paths| - 1];
      var tracked :- LoadAtStartup(fs, p, render);
      Ok(files[FileName(p).value := tracked])
  }

  /** The first file that fails to load decides the outcome of start-up. */
  lemma {:induction false} InitialFailsFromPrefix(fs: Snapshot, paths: seq<Path>, i: nat, render: string -> string)
    requires i <= |paths|
    requires forall j :: 0 <= j < |paths| ==> FileName(paths[j]).Some?
    requires Initial(fs, paths[..i], render).Err?
    ensures Initial(fs, paths, render) == Initial(fs, paths[..i], render)
    decreases |paths|
  {
    if i < |paths| {
      var init := paths[..|paths| - 1];
      assert init[..i] == paths[..i];
      InitialFailsFromPrefix(fs, init, i, render);
    } else {
      assert paths[..i] == paths;
    }
  }

  /** Start-up succeeds exactly when every given file can be loaded. */
  lemma {:induction false} InitialSucceedsIff(fs: Snapshot, paths: seq<Path>, render: string -> string)
    requires forall i :: 0 <= i < |paths| ==> FileName(paths[i]).Some?
    ensures Initial(fs, paths, render).Ok? <==> forall p :: p in paths ==> Readable(fs, p)
    decreases |paths|
  {
    if paths != [] {
      var init := paths[..|paths| - 1];
      var p := paths[|paths| - 1];
      InitialSucceedsIff(fs, init, render);
      LoadOrdersAgree(fs, p, render);
      assert paths == init + [p];
      forall q | q in init ensures q in paths { }
    }
  }

  /** Start-up succeeds exactly when every given file can be loaded; it then
      tracks every given file under its file name, each entry loaded from
      one of the given paths. */
  lemma InitialTracksAll(fs: Snapshot, paths: seq<Path>, render: string -> string)
    requires forall i :: 0 <= i < |paths| ==> FileName(paths[i]).Some?
    ensures Initial(fs, paths, render).Ok? <==> forall p :: p in paths ==> Readable(fs, p)
    ensures Initial(fs, paths, render).Ok? ==>
      var files := Initial(fs, paths, render).value;
      && files.Keys == NamesOf(paths)
      && KeysMatchPaths(files)
      && forall name :: name in files ==>
           files[name].path in paths && LoadAtStartup(fs, files[name].path, render) == Ok(files[name])
  {
    InitialSucceedsIff(fs, paths, render);
    if Initial(fs, paths, render).Ok? {
      InitialTracksNames(fs, paths, render);
    }
  }

  /** A successful start-up tracks every given file under its file name,
      each entry loaded from one of the given paths. */
  lemma {:induction false} InitialTracksNames(fs: Snapshot, paths: seq<Path>, render: string -> string)
    requires forall i :: 0 <= i < |paths| ==> FileName(paths[i]).Some?
    requires Initial(fs, paths, render).Ok?
    ensures var files := Initial(fs, paths, render).value;
      && files.Keys == NamesOf(paths)
      && KeysMatchPaths(files)
      && forall name :: name in files ==>
           files[name].path in paths && LoadAtStartup(fs, files[name].path, render) == Ok(files[name])
    decreases |paths|
  {
    if paths != [] {
      var init := paths[..|paths| - 1];
      var p := paths[|paths| - 1];
      forall i | 0 <= i < |init| ensures FileName(init[i]).Some? {
        assert init[i] == paths[i];
      }
      InitialTracksNames(fs, init, render);
      assert paths == init + [p];
      InitialStepTracks(fs, Initial(fs, init, render).value, init, p, render);
    }
  }

  /** One step of the start-up loop: loading the next path into a registry
      that tracks exactly the earlier paths gives one that tracks them all. */
  lemma InitialStepTracks(fs: Snapshot, before: Files, init: seq<Path>, p: Path, render: string -> string)
    requires FileName(p).Some? && LoadAtStartup(fs, p, render).Ok?
    requires before.Keys == NamesOf(init) && KeysMatchPaths(before)
    requires forall name :: name in before ==>
               before[name].path in init && LoadAtStartup(fs, before[name].path, render) == Ok(before[name])
    ensures var files := before[FileName(p).value := LoadAtStartup(fs, p, render).value];
      && files.Keys == NamesOf(init + [p])
      && KeysMatchPaths(files)
      && forall name :: name in files ==>
           files[name].path in init + [p] && LoadAtStartup(fs, files[name].path, render) == Ok(files[name])
  {
    var paths := init + [p];
    var files := before[FileName(p).value := LoadAtStartup(fs, p, render).value];
    forall q | q in init ensures q in paths { }
    forall name ensures name in files.Keys <==> name in NamesOf(paths) {
      if name in NamesOf(paths) {
        var q :| q in paths && FileName(q).Some? && FileName(q).value == name;
        if q != p {
          assert q in init;
        }
      }
    }
  }

  // ---------------------------------------------------------------------
  // MarkdownState::refresh_file

  /** `refresh_file(name)`: for a tracked name, re-render from disk when the
      file's modification time is strictly newer than the stored one. */
  function Refreshed(files: Files, fs: Snapshot, render: string -> string, name: string): Transition<()> {
    if name !in files then Transition(Ok(()), files)
    else
      var tracked := files[name];
      match GetMetadata(fs, tracked.path)
      case Err(e) => Transition(Err(e), files)
      case Ok(meta) =>
        match Modified(meta, tracked.path)
        case Err(e) => Transition(Err(e), files)
        case Ok(current) =>
          if current > tracked.lastModified then
            match ReadToString(fs, tracked.path)
            case Err(e) => Transition(Err(e), files)
            case Ok(content) =>
              Transition(Ok(()), files[name := tracked.(html := render(content), lastModified := current)])
          else Transition(Ok(()), files)
  }

  /** Refreshing keeps the key set and every other entry. The entry for
      `name` changes only when the file's modification time is strictly
      newer and its contents can be read; then it carries the new time and
      the new HTML. An untracked name is no error. The stored modification
      time never decreases. */
  lemma RefreshOnlyAdvances(files: Files, fs: Snapshot, render: string -> string, name: string)
    ensures var t := Refreshed(files, fs, render, name);
      && t.files.Keys == files.Keys
      && (forall k :: k in files && k != name ==> t.files[k] == files[k])
      && (forall k :: k in files ==> t.files[k].path == files[k].path)
      && (forall k :: k in files ==> t.files[k].lastModified >= files[k].lastModified)
      && (name !in files ==> t == Transition(Ok(()), files))
      && (t.result.Err? ==> t.files == files)
      && (name in files ==>
            var p := files[name].path;
            (t.files[name] != files[name] <==>
               Readable(fs, p) && fs.meta[p].modified.value > files[name].lastModified
               && files[name] != TrackedFile(p, fs.meta[p].modified.value, render(fs.contents[p])))
            && (Readable(fs, p) && fs.meta[p].modified.value > files[name].lastModified ==>
                  t == Transition(Ok(()), files[name := TrackedFile(p, fs.meta[p].modified.value, render(fs.contents[p]))])))
  {
  }

  /** The refresh either fails or succeeds exactly as the reads say:
      metadata and modification time are always read, contents only when
      the file is newer. */
  lemma RefreshFailsIff(files: Files, fs: Snapshot, render: string -> string, name: string)
    requires name in files
    ensures var p := files[name].path;
      Refreshed(files, fs, render, name).result.Err? <==>
        p !in fs.meta || fs.meta[p].modified.None?
        || (fs.meta[p].modified.value > files[name].lastModified && p !in fs.contents)
  {
  }

  /** A second refresh against the same snapshot returns what the first did
      and changes nothing more. */
  lemma RefreshIdempotent(files: Files, fs: Snapshot, render: string -> string, name: string)
    ensures var t := Refreshed(files, fs, render, name);
      Refreshed(t.files, fs, render, name) == t
  {
    var t := Refreshed(files, fs, render, name);
    if name in files {
      assert name in t.files && t.files[name].path == files[name].path;
    }
  }

  // ---------------------------------------------------------------------
  // MarkdownState::add_tracked_file

  /** `add_tracked_file(p)`: track `p` under its file name unless that name
      is already tracked. */
  function WithAdded(files: Files, fs: Snapshot, render: string -> string, p: Path): Transition<()>
    requires FileName(p).Some?
  {
    var name := FileName(p).value;
    if name in files then Transition(Ok(()), files)
    else
      match LoadOnDemand(fs, p, render)
      case Err(e) => Transition(Err(e), files)
      case Ok(tracked) => Transition(Ok(()), files[name := tracked])
  }

  /** Adding leaves the registry as it was when the name is already tracked
      (and reports success) or when a read fails (and reports the error);
      otherwise it adds exactly the one new key, loaded from `p`, and keeps
      every other entry. */
  lemma AddInsertsOnlyNew(files: Files, fs: Snapshot, render: string -> string, p: Path)
    requires FileName(p).Some?
    ensures var name := FileName(p).value;
      var t := WithAdded(files, fs, render, p);
      && (name in files ==> t == Transition(Ok(()), files))
      && (name !in files && !Readable(fs, p) ==> t.result.Err? && t.files == files)
      && (name !in files && Readable(fs, p) ==>
            && t.result.Ok?
            && t.files.Keys == files.Keys + {name}
            && t.files[name] == TrackedFile(p, fs.meta[p].modified.value, render(fs.contents[p]))
            && forall k :: k in files ==> t.files[k] == files[k])
  {
    LoadOrdersAgree(fs, p, render);
  }

  // ---------------------------------------------------------------------
  // MarkdownState::rescan_directory

  /** `retain`: keep the entries whose key is among `names`. */
  function Retain(files: Files, names: set<string>): (r: Files)
    ensures r.Keys == files.Keys * names
    ensures forall k :: k in r ==> r[k] == files[k]
  {
    map k | k in files && k in names :: files[k]
  }

  /** The loop of `rescan_directory` after the `retain`: for each scanned
      path in order, track it unless its name is tracked already or one of
      its reads fails. */
  function AddUntracked(files: Files, paths: seq<Path>, fs: Snapshot, render: string -> string): Files
    decreases |paths|
  {
    if paths == [] then files
    else TrackIfNew(AddUntracked(files, paths[..|paths| - 1], fs, render), paths[|paths| - 1], fs, render)
  }

  /** One iteration of that loop. */
  function TrackIfNew(files: Files, p: Path, fs: Snapshot, render: string -> string): Files {
    match FileName(p)
    case None => files
    case Some(name) =>
      if name in files then files
      else
        match LoadOnDemand(fs, p, render)
        case Err(_) => files
        case Ok(tracked) => files[name := tracked]
  }

  /** One iteration only adds, and only the scanned path's own name, loaded
      from that path; a readable path's name is tracked afterwards. */
  lemma TrackIfNewOnlyAdds(files: Files, p: Path, fs: Snapshot, render: string -> string)
    ensures var r := TrackIfNew(files, p, fs, render);
      && files.Keys <= r.Keys
      && (forall k :: k in files ==> r[k] == files[k])
      && (forall k :: k in r && k !in files ==>
            FileName(p) == Some(k) && r[k].path == p && LoadOnDemand(fs, p, render) == Ok(r[k]))
      && (FileName(p).Some? && Readable(fs, p) ==> FileName(p).value in r)
  {
    LoadOrdersAgree(fs, p, render);
  }

  /** The loop only adds: existing entries stay as they were, and each new
      key is the file name of a scanned path that loaded. */
  lemma {:induction false} AddUntrackedKeeps(files: Files, paths: seq<Path>, fs: Snapshot, render: string -> string)
    ensures var r := AddUntracked(files, paths, fs, render);
      && files.Keys <= r.Keys <= files.Keys + NamesOf(paths)
      && (forall k :: k in files ==> r[k] == files[k])
      && (forall k :: k in r && k !in files ==>
            FileName(r[k].path) == Some(k) && r[k].path in paths && LoadOnDemand(fs, r[k].path, render) == Ok(r[k]))
    decreases |paths|
  {
    if paths != [] {
      var init := paths[..|paths| - 1];
      var p := paths[|paths| - 1];
      AddUntrackedKeeps(files, init, fs, render);
      TrackIfNewOnlyAdds(AddUntracked(files, init, fs, render), p, fs, render);
      assert paths == init + [p];
      forall q | q in init ensures q in paths { }
      assert NamesOf(init) <= NamesOf(paths);
    }
  }

  /** When every scanned path with an untracked name loads, every scanned
      name ends up tracked. */
  lemma {:induction false} AddUntrackedTracksAll(files: Files, paths: seq<Path>, fs: Snapshot, render: string -> string)
    requires forall p :: p in paths && FileName(p).Some? && FileName(p).value !in files ==> Readable(fs, p)
    ensures NamesOf(paths) <= AddUntracked(files, paths, fs, render).Keys
    decreases |paths|
  {
    if paths != [] {
      var init := paths[..|paths| - 1];
      var p := paths[|paths| - 1];
      var sofar := AddUntracked(files, init, fs, render);
      AddUntrackedTracksAll(files, init, fs, render);
      AddUntrackedKeeps(files, init, fs, render);
      TrackIfNewOnlyAdds(sofar, p, fs, render);
      var r := AddUntracked(files, paths, fs, render);
      forall name | name in NamesOf(paths) ensures name in r {
        var q :| q in paths && FileName(q).Some? && FileName(q).value == name;
        if q != p {
          assert q in init;
        }
      }
    }
  }

  /** A file that fails to load is skipped, not fatal: every scanned path
      that can be read ends up tracked under its name, whatever happens to
      the paths around it. */
  lemma {:induction false} AddUntrackedTracksReadable(files: Files, paths: seq<Path>, fs: Snapshot, render: string -> string)
    ensures forall p :: p in paths && FileName(p).Some? && Readable(fs, p) ==>
              FileName(p).value in AddUntracked(files, paths, fs, render)
    decreases |paths|
  {
    if paths != [] {
      var init := paths[..|paths| - 1];
      var p := paths[|paths| - 1];
      AddUntrackedTracksReadable(files, init, fs, render);
      TrackIfNewOnlyAdds(AddUntracked(files, init, fs, render), p, fs, render);
      forall q | q in paths && FileName(q).Some? && Readable(fs, q)
        ensures FileName(q).value in AddUntracked(files, paths, fs, render)
      {
        if q != p {
          assert q in init;
        }
      }
    }
  }

  /** The two together. */
  lemma AddUntrackedOnlyAdds(files: Files, paths: seq<Path>, fs: Snapshot, render: string -> string)
    ensures var r := AddUntracked(files, paths, fs, render);
      && files.Keys <= r.Keys <= files.Keys + NamesOf(paths)
      && (forall k :: k in files ==> r[k] == files[k])
      && (forall k :: k in r && k !in files ==>
            FileName(r[k].path) == Some(k) && r[k].path in paths && LoadOnDemand(fs, r[k].path, render) == Ok(r[k]))
      && ((forall p :: p in paths && FileName(p).Some? && FileName(p).value !in files ==> Readable(fs, p)) ==>
            r.Keys == files.Keys + NamesOf(paths))
  {
    AddUntrackedKeeps(files, paths, fs, render);
    if forall p :: p in paths && FileName(p).Some? && FileName(p).value !in files ==> Readable(fs, p) {
      AddUntrackedTracksAll(files, paths, fs, render);
    }
  }

  /** `rescan_directory`: in directory mode, reconcile the registry with a
      fresh scan of the base directory; report whether the name sets
      differed. */
  function Rescanned(files: Files, fs: Snapshot, baseDir: Path, isDirectoryMode: bool,
                     render: string -> string): Transition<bool>
  {
    if !isDirectoryMode then Transition(Ok(false), files)
    else
      match MarkdownFilesIn(fs, baseDir)
      case Err(e) => Transition(Err(e), files)
      case Ok(current) =>
        var names := NamesOf(current);
        if names == files.Keys then Transition(Ok(false), files)
        else Transition(Ok(true), AddUntracked(Retain(files, names), current, fs, render))
  }

  /** Rescanning does nothing in single-file mode, when the scan fails, or
      when the scanned names are the tracked keys. Otherwise it reports a
      change, drops every key the scan no longer lists, keeps the surviving
      entries unchanged and tracks only scanned names, each new one loaded
      from a scanned path; every scanned file that can be read is tracked,
      even when another one fails to load. */
  lemma RescanReconciles(files: Files, fs: Snapshot, baseDir: Path, isDirectoryMode: bool,
                         render: string -> string)
    ensures var t := Rescanned(files, fs, baseDir, isDirectoryMode, render);
      && (!isDirectoryMode ==> t == Transition(Ok(false), files))
      && (isDirectoryMode && MarkdownFilesIn(fs, baseDir).Err? ==> t.result.Err? && t.files == files)
      && (t.result == Ok(false) ==> t.files == files)
      && (isDirectoryMode && MarkdownFilesIn(fs, baseDir).Ok? ==>
            var current := MarkdownFilesIn(fs, baseDir).value;
            && (t.result == Ok(false) <==> NamesOf(current) == files.Keys)
            && (t.result == Ok(true) <==> NamesOf(current) != files.Keys)
            && (t.result == Ok(true) ==>
                  && t.files.Keys <= NamesOf(current)
                  && files.Keys * NamesOf(current) <= t.files.Keys
                  && (forall k :: k in files && k in NamesOf(current) ==> t.files[k] == files[k])
                  && (forall k :: k in t.files && k !in files ==>
                        t.files[k].path in current && LoadOnDemand(fs, t.files[k].path, render) == Ok(t.files[k]))
                  && (forall p :: p in current && FileName(p).Some? && Readable(fs, p) ==>
                        FileName(p).value in t.files)))
  {
    if isDirectoryMode && MarkdownFilesIn(fs, baseDir).Ok? {
      var current := MarkdownFilesIn(fs, baseDir).value;
      var names := NamesOf(current);
      if names != files.Keys {
        AddUntrackedOnlyAdds(Retain(files, names), current, fs, render);
        AddUntrackedTracksReadable(Retain(files, names), current, fs, render);
      }
    }
  }

  /** When every file a rescan tried to add could be read, an immediate
      second rescan against the same snapshot finds nothing to do. */
  lemma RescanSettles(files: Files, fs: Snapshot, baseDir: Path, render: string -> string)
    requires MarkdownFilesIn(fs, baseDir).Ok?
    requires forall p :: p in MarkdownFilesIn(fs, baseDir).value && FileName(p).Some? && FileName(p).value !in files
               ==> Readable(fs, p)
    ensures var t := Rescanned(files, fs, baseDir, true, render);
      Rescanned(t.files, fs, baseDir, true, render) == Transition(Ok(false), t.files)
  {
    var current := MarkdownFilesIn(fs, baseDir).value;
    var names := NamesOf(current);
    if names != files.Keys {
      var kept := Retain(files, names);
      AddUntrackedOnlyAdds(kept, current, fs, render);
    }
  }

  /** Refreshing keeps each key equal to the file name of its path. */
  lemma RefreshKeepsKeysMatchingPaths(files: Files, fs: Snapshot, render: string -> string, name: string)
    requires KeysMatchPaths(files)
    ensures KeysMatchPaths(Refreshed(files, fs, render, name).files)
  {
    RefreshOnlyAdvances(files, fs, render, name);
  }

  /** Adding keeps each key equal to the file name of its path. */
  lemma AddKeepsKeysMatchingPaths(files: Files, fs: Snapshot, render: string -> string, p: Path)
    requires KeysMatchPaths(files)
    requires FileName(p).Some?
    ensures KeysMatchPaths(WithAdded(files, fs, render, p).files)
  {
    AddInsertsOnlyNew(files, fs, render, p);
  }

  /** Rescanning keeps each key equal to the file name of its path. */
  lemma RescanKeepsKeysMatchingPaths(files: Files, fs: Snapshot, baseDir: Path, isDirectoryMode: bool,
                                     render: string -> string)
    requires KeysMatchPaths(files)
    ensures KeysMatchPaths(Rescanned(files, fs, baseDir, isDirectoryMode, render).files)
  {
    if isDirectoryMode && MarkdownFilesIn(fs, baseDir).Ok? {
      var current := MarkdownFilesIn(fs, baseDir).value;
      var names := NamesOf(current);
      if names != files.Keys {
        AddUntrackedOnlyAdds(Retain(files, names), current, fs, render);
        AddUntrackedTracksReadable(Retain(files, names), current, fs, render);
      }
    }
  }
}
