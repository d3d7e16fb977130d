/** `MarkdownState`: the shared registry object. Its methods update the
    `trackedFiles` map in place, each one as the matching function of
    module Registry says. */
module State {
  import opened Wrappers
  import opened Paths
  import opened Sorting
  import opened FileSystem
  import opened Scanner
  import opened Registry

  class MarkdownState {
    const baseDir: Path
    const isDirectoryMode: bool
    /** `markdown_to_html`, an arbitrary rendering that never fails. */
    const render: string -> string
    var trackedFiles: Files

    ghost predicate Valid()
      reads this
    {
      KeysMatchPaths(trackedFiles)
    }

    constructor (baseDir: Path, files: Files, isDirectoryMode: bool, render: string -> string)
      requires KeysMatchPaths(files)
      ensures Valid()
      ensures this.baseDir == baseDir && this.isDirectoryMode == isDirectoryMode && this.render == render
      ensures trackedFiles == files
    {
      this.baseDir := baseDir;
      this.isDirectoryMode := isDirectoryMode;
      this.render := render;
      trackedFiles := files;
    }

    /** `MarkdownState::new`: load every given file, in order; any failed
        read is fatal. `unwrap` on the file name is the caller's promise
        that every path has one. */
    static method New(fs: Snapshot, baseDir: Path, filePaths: seq<Path>, isDirectoryMode: bool,
                      render: string -> string) returns (r: Result<MarkdownState, IoError>)
      requires forall i :: 0 <= i < |filePaths| ==> FileName(filePaths[i]).Some?
      ensures r.Ok? <==> Initial(fs, filePaths, render).Ok?
      ensures r.Err? ==> r.error == Initial(fs, filePaths, render).error
      ensures r.Ok? ==>
        && fresh(r.value) && r.value.Valid()
        && r.value.trackedFiles == Initial(fs, filePaths, render).value
        && r.value.baseDir == baseDir && r.value.isDirectoryMode == isDirectoryMode
        && r.value.render == render
    {
      var files: Files := map[];
      var i := 0;
      while i < |filePaths|
        invariant 0 <= i <= |filePaths|
        invariant Initial(fs, filePaths[..i], render) == Ok(files)
      {
        assert filePaths[..i + 1][..i] == filePaths[..i];
        if Initial(fs, filePaths[..i + 1], render).Err? {
          InitialFailsFromPrefix(fs, filePaths, i + 1, render);
        }
        var filePath := filePaths[i];
        var metadata :- GetMetadata(fs, filePath);
        var lastModified :- Modified(metadata, filePath);
        var content :- ReadToString(fs, filePath);
        files := files[FileName(filePath).value := TrackedFile(filePath, lastModified, render(content))];
        i := i + 1;
      }
      assert filePaths[..i] == filePaths;
      InitialTracksAll(fs, filePaths, render);
      var state := new MarkdownState(baseDir, files, isDirectoryMode, render);
      return Ok(state);
    }

    /** `get_sorted_filenames`: the tracked names in ascending order. The
        order the map hands its keys out in does not matter: a sorted
        sequence without duplicates is fixed by its elements. */
    method GetSortedFilenames() returns (names: seq<string>)
      ensures Sorted(names) && NoDup(names)
      ensures forall n :: n in names <==> n in trackedFiles
    {
      var keys := KeyOrder();
      names := Sort(keys);
      SortKeepsElements(keys);
      assert forall n :: n in names <==> n in Elems(names);
    }

    /** `tracked_files.keys().cloned().collect()`: the keys, each once, in
        whatever order the hash map yields them. */
    method KeyOrder() returns (keys: seq<string>)
      ensures NoDup(keys)
      ensures forall n :: n in keys <==> n in trackedFiles
    {
      keys := [];
      var rest := trackedFiles.Keys;
      while rest != {}
        invariant NoDup(keys)
        invariant forall n :: n in keys <==> n in trackedFiles && n !in rest
        invariant rest <= trackedFiles.Keys
        decreases rest
      {
        var n :| n in rest;
        keys := keys + [n];
        rest := rest - {n};
      }
    }

    /** `refresh_file`. */
    method RefreshFile(fs: Snapshot, filename: string) returns (r: Result<(), IoError>)
      requires Valid()
      modifies this
      ensures Valid()
      ensures Transition(r, trackedFiles) == Refreshed(old(trackedFiles), fs, render, filename)
    {
      RefreshKeepsKeysMatchingPaths(trackedFiles, fs, render, filename);
      if filename in trackedFiles {
        var tracked := trackedFiles[filename];
        var metadata :- GetMetadata(fs, tracked.path);
        var currentModified :- Modified(metadata, tracked.path);
        if currentModified > tracked.lastModified {
          var content :- ReadToString(fs, tracked.path);
          trackedFiles := trackedFiles[filename := tracked.(html := render(content), lastModified := currentModified)];
        }
      }
      return Ok(());
    }

    /** `add_tracked_file`. */
    method AddTrackedFile(fs: Snapshot, filePath: Path) returns (r: Result<(), IoError>)
      requires Valid()
      requires FileName(filePath).Some?
      modifies this
      ensures Valid()
      ensures Transition(r, trackedFiles) == WithAdded(old(trackedFiles), fs, render, filePath)
    {
      AddKeepsKeysMatchingPaths(trackedFiles, fs, render, filePath);
      var filename := FileName(filePath).value;
      if filename in trackedFiles {
        return Ok(());
      }
      var metadata :- GetMetadata(fs, filePath);
      var content :- ReadToString(fs, filePath);
      var lastModified :- Modified(metadata, filePath);
      trackedFiles := trackedFiles[filename := TrackedFile(filePath, lastModified, render(content))];
      return Ok(());
    }

    /** `rescan_directory`. */
    method RescanDirectory(fs: Snapshot) returns (r: Result<bool, IoError>)
      requires Valid()
      modifies this
      ensures Valid()
      ensures Transition(r, trackedFiles) == Rescanned(old(trackedFiles), fs, baseDir, isDirectoryMode, render)
    {
      RescanKeepsKeysMatchingPaths(trackedFiles, fs, baseDir, isDirectoryMode, render);
      if !isDirectoryMode {
        return Ok(false);
      }
      var currentFiles :- ScanMarkdownFiles(fs, baseDir);
      var currentFilenames := NamesOf(currentFiles);
      if currentFilenames == trackedFiles.Keys {
        return Ok(false);
      }
      trackedFiles := Retain(trackedFiles, currentFilenames);
      TrackUntracked(fs, currentFiles);
      return Ok(true);
    }

    /** The loop of `rescan_directory` that follows the `retain`: track each
        scanned path in order, skipping it when it has no file name, when
        its name is tracked already or when one of its reads fails. */
    method TrackUntracked(fs: Snapshot, currentFiles: seq<Path>)
      modifies this
      ensures trackedFiles == AddUntracked(old(trackedFiles), currentFiles, fs, render)
    {
      ghost var retained := trackedFiles;
      var i := 0;
      while i < |currentFiles|
        invariant 0 <= i <= |currentFiles|
        invariant trackedFiles == AddUntracked(retained, currentFiles[..i], fs, render)
      {
        assert currentFiles[..i + 1][..i] == currentFiles[..i];
        ghost var next := TrackIfNew(trackedFiles, currentFiles[i], fs, render);
        assert AddUntracked(retained, currentFiles[..i + 1], fs, render) == next;
        var filePath := currentFiles[i];
        i := i + 1;
        if FileName(filePath).None? {
          continue;
        }
        var filename := FileName(filePath).value;
        if filename in trackedFiles {
          continue;
        }
        var metadata := GetMetadata(fs, filePath);
        if metadata.Err? {
          continue;
        }
        var content := ReadToString(fs, filePath);
        if content.Err? {
          continue;
        }
        var html := render(content.value);
        var lastModified := Modified(metadata.value, filePath);
        if lastModified.Err? {
          continue;
        }
        trackedFiles := trackedFiles[filename := TrackedFile(filePath, lastModified.value, html)];
      }
      assert currentFiles[..i] == currentFiles;
    }
  }
}
