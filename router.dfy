/** The file-watcher side: deciding what a raw notify event asks for
    (`handle_file_event`, `handle_rename_event`,
    `handle_markdown_file_change`, `handle_md_remove`) and carrying it out on
    the shared state. The decisions are functions returning an Action; the
    200 ms delayed rescan becomes the ScheduleRescan action, and the rescan
    it eventually runs is `RescanAndDetectChanges`. */
module Router {
  import opened Wrappers
  import opened Paths
  import opened Sorting
  import opened FileSystem
  import opened Filters
  import opened Scanner
  import opened Registry
  import opened Protocol
  import opened Classifier
  import opened State

  /** notify's event kinds, as far as the server tells them apart. */
  datatype RenameMode = RenameAny | RenameTo | RenameFrom | RenameBoth | RenameOther
  datatype ModifyKind = ModifyAny | ModifyData | ModifyMetadata | ModifyName(mode: RenameMode) | ModifyOther
  datatype EventKind = AnyKind | Access | Create | Modify(change: ModifyKind) | Remove | OtherKind
  datatype Event = Event(kind: EventKind, paths: seq<Path>)

  /** What handling one path of an event does: refresh a tracked file
      (Reload on success), add a new one (Reload on success), arm the
      delayed rescan, send Reload outright, or nothing. */
  datatype Action = NoAction | Refresh(name: string) | Add(path: Path) | ScheduleRescan | SendReload

  /** The decision of `handle_markdown_file_change(path)`. */
  function MarkdownChangeAction(path: Path, tracked: set<string>, isDirectoryMode: bool): (a: Action)
    ensures a.Add? ==> a.path == path && FileName(path).Some? && FileName(path).value !in tracked && isDirectoryMode
    ensures a.Refresh? ==> FileName(path) == Some(a.name) && a.name in tracked
  {
    if !IsMarkdownFile(path) then NoAction
    else
      match FileName(path)
      case None => NoAction
      case Some(filename) =>
        if filename in tracked then Refresh(filename)
        else if isDirectoryMode then Add(path)
        else NoAction
  }

  /** The decision of `handle_rename_event`. */
  function RenameAction(mode: RenameMode, paths: seq<Path>, tracked: set<string>, isDirectoryMode: bool,
                        fs: Snapshot): (a: Action)
    ensures a.Add? ==> FileName(a.path).Some?
  {
    if isDirectoryMode then ScheduleRescan
    else
      match mode
      case RenameBoth => if |paths| > 1 then MarkdownChangeAction(paths[1], tracked, false) else NoAction
      case RenameTo => if |paths| > 0 then MarkdownChangeAction(paths[0], tracked, false) else NoAction
      case RenameAny =>
        if |paths| > 0 && Exists(fs, paths[0]) then MarkdownChangeAction(paths[0], tracked, false) else NoAction
      case RenameFrom => NoAction
      case RenameOther => NoAction
  }

  /** The decision `handle_file_event` takes for one path of an event that
      is not a name change: Markdown files go to
      `handle_markdown_file_change` (creation, data change) or
      `handle_md_remove` (removal); an existing image file sends Reload. */
  function PathAction(kind: EventKind, path: Path, tracked: set<string>, isDirectoryMode: bool,
                      fs: Snapshot): (a: Action)
    ensures a.Add? ==> FileName(a.path).Some?
  {
    if IsMarkdownFile(path) then
      match kind
      case Create => MarkdownChangeAction(path, tracked, isDirectoryMode)
      case Modify(ModifyData) => MarkdownChangeAction(path, tracked, isDirectoryMode)
      case Remove => if isDirectoryMode then ScheduleRescan else NoAction
      case _ => NoAction
    else if IsFile(fs, path) && IsImageFile(path) then
      match kind
      case Modify(_) => SendReload
      case Create => SendReload
      case Remove => SendReload
      case _ => NoAction
    else NoAction
  }

  /** The registry, the messages broadcast so far and the number of delayed
      rescans armed so far. */
  datatype Effect = Effect(files: Files, messages: seq<ServerMessage>, rescans: nat)

  /** Carrying out one action. */
  function Perform(e: Effect, a: Action, fs: Snapshot, render: string -> string): Effect
    requires a.Add? ==> FileName(a.path).Some?
  {
    match a
    case NoAction => e
    case Refresh(name) =>
      var t := Refreshed(e.files, fs, render, name);
      Effect(t.files, e.messages + (if t.result.Ok? then [Reload] else []), e.rescans)
    case Add(path) =>
      var t := WithAdded(e.files, fs, render, path);
      Effect(t.files, e.messages + (if t.result.Ok? then [Reload] else []), e.rescans)
    case ScheduleRescan => e.(rescans := e.rescans + 1)
    case SendReload => e.(messages := e.messages + [Reload])
  }

  /** `handle_file_event`'s loop over the first `n` paths of an event: each
      decision sees the registry as the previous paths left it. */
  function PathsOutcome(e: Effect, kind: EventKind, paths: seq<Path>, n: nat, isDirectoryMode: bool,
                        fs: Snapshot, render: string -> string): Effect
    requires n <= |paths|
  {
    if n == 0 then e
    else
      var before := PathsOutcome(e, kind, paths, n - 1, isDirectoryMode, fs, render);
      Perform(before, PathAction(kind, paths[n - 1], before.files.Keys, isDirectoryMode, fs), fs, render)
  }

  /** Everything `handle_file_event` does with one event. */
  function EventOutcome(files: Files, isDirectoryMode: bool, ev: Event, fs: Snapshot,
                        render: string -> string): Effect
  {
    var start := Effect(files, [], 0);
    match ev.kind
    case Modify(ModifyName(mode)) =>
      Perform(start, RenameAction(mode, ev.paths, files.Keys, isDirectoryMode, fs), fs, render)
    case _ => PathsOutcome(start, ev.kind, ev.paths, |ev.paths|, isDirectoryMode, fs, render)
  }

  // ---------------------------------------------------------------------
  // Properties of the decisions

  /** `handle_markdown_file_change`: a non-Markdown path is ignored; a
      tracked name is refreshed and Reload is sent only when the refresh
      succeeded; an untracked name is added in directory mode, with Reload
      only when the add succeeded, and ignored in single-file mode. No
      rescan is ever armed. */
  lemma MarkdownChangeEffect(files: Files, path: Path, isDirectoryMode: bool, fs: Snapshot,
                             render: string -> string)
    ensures var e := Perform(Effect(files, [], 0), MarkdownChangeAction(path, files.Keys, isDirectoryMode), fs, render);
      && e.rescans == 0
      && (!IsMarkdownFile(path) ==> e == Effect(files, [], 0))
      && (IsMarkdownFile(path) ==>
            var name := FileName(path).value;
            && (name in files ==>
                  var t := Refreshed(files, fs, render, name);
                  e.files == t.files && (e.messages == [Reload] <==> t.result.Ok?) && (t.result.Err? ==> e.messages == []))
            && (name !in files && isDirectoryMode ==>
                  var t := WithAdded(files, fs, render, path);
                  e.files == t.files && (e.messages == [Reload] <==> t.result.Ok?) && (t.result.Err? ==> e.messages == [])
                  && (t.result.Ok? <==> Readable(fs, path)))
            && (name !in files && !isDirectoryMode ==> e == Effect(files, [], 0)))
  {
    if IsMarkdownFile(path) {
      MarkdownHasFileName(path);
      LoadOrdersAgree(fs, path, render);
    }
  }

  /** The registry's invariant is what makes a refresh hit the right file:
      when every key is the file name of its stored path, the entry a
      change event refreshes is stored under a path with the same file
      name as the event's path. */
  lemma RefreshTargetsEventFile(files: Files, path: Path, isDirectoryMode: bool)
    requires KeysMatchPaths(files)
    requires MarkdownChangeAction(path, files.Keys, isDirectoryMode).Refresh?
    ensures var name := MarkdownChangeAction(path, files.Keys, isDirectoryMode).name;
      name in files && FileName(files[name].path) == FileName(path)
  {
  }

  /** In directory mode a name-change event only arms the delayed rescan:
      the registry is untouched and nothing is sent. */
  lemma RenameInDirectoryModeOnlySchedules(files: Files, mode: RenameMode, paths: seq<Path>, fs: Snapshot,
                                           render: string -> string)
    ensures EventOutcome(files, true, Event(Modify(ModifyName(mode)), paths), fs, render) == Effect(files, [], 1)
  {
  }

  /** In single-file mode a name-change event never arms a rescan and never
      adds a file; it can only refresh the tracked file named by the path it
      inspects: the second path for a "both" rename, the first for a "to"
      rename, the first for an unspecified rename when that path exists.
      A "from" or other rename, or a missing path, does nothing. */
  lemma RenameInSingleFileMode(mode: RenameMode, paths: seq<Path>, tracked: set<string>, fs: Snapshot)
    ensures var a := RenameAction(mode, paths, tracked, false, fs);
      && (a == NoAction || a.Refresh?)
      && (mode == RenameFrom || mode == RenameOther ==> a == NoAction)
      && (mode == RenameBoth && |paths| < 2 ==> a == NoAction)
      && (mode != RenameBoth && |paths| == 0 ==> a == NoAction)
      && (mode == RenameAny && |paths| > 0 && !Exists(fs, paths[0]) ==> a == NoAction)
      && (a.Refresh? ==>
            a.name in tracked &&
            var target := if mode == RenameBoth then paths[1] else paths[0];
            IsMarkdownFile(target) && FileName(target) == Some(a.name))
      && (mode == RenameBoth && |paths| > 1 && IsMarkdownFile(paths[1]) && FileName(paths[1]).value in tracked ==>
            a == Refresh(FileName(paths[1]).value))
      && (mode == RenameTo && |paths| > 0 && IsMarkdownFile(paths[0]) && FileName(paths[0]).value in tracked ==>
            a == Refresh(FileName(paths[0]).value))
      && ((mode == RenameAny && |paths| > 0 && Exists(fs, paths[0]) && IsMarkdownFile(paths[0])
            && FileName(paths[0]).value in tracked) ==> a == Refresh(FileName(paths[0]).value))
  {
  }

  /** Removing a Markdown file is never handled on the spot: in directory
      mode it arms the delayed rescan, in single-file mode it is ignored. */
  lemma MarkdownRemovalDefersToRescan(path: Path, tracked: set<string>, isDirectoryMode: bool, fs: Snapshot)
    requires IsMarkdownFile(path)
    ensures PathAction(Remove, path, tracked, isDirectoryMode, fs) == if isDirectoryMode then ScheduleRescan else NoAction
  {
  }

  /** For a path that is not Markdown, the event sends Reload exactly when
      the path is an existing regular image file and the event is a
      creation, a modification or a removal; otherwise nothing happens. A
      removed image is usually no regular file any more, so its removal
      sends nothing. */
  lemma ImageChangeAction(kind: EventKind, path: Path, tracked: set<string>, isDirectoryMode: bool, fs: Snapshot)
    requires !IsMarkdownFile(path)
    ensures var a := PathAction(kind, path, tracked, isDirectoryMode, fs);
      && (a == SendReload <==> IsFile(fs, path) && IsImageFile(path) && (kind.Create? || kind.Modify? || kind.Remove?))
      && (a == NoAction || a == SendReload)
      && (kind == Remove && !IsFile(fs, path) ==> a == NoAction)
  {
  }

  /** For a Markdown path only a creation or a data change can refresh or
      add it; a removal can only arm a rescan, and no Markdown event sends
      Reload without touching the registry. */
  lemma MarkdownEventAction(kind: EventKind, path: Path, tracked: set<string>, isDirectoryMode: bool, fs: Snapshot)
    requires IsMarkdownFile(path)
    ensures var a := PathAction(kind, path, tracked, isDirectoryMode, fs);
      && a != SendReload
      && (a.Refresh? || a.Add? ==> kind == Create || kind == Modify(ModifyData))
      && (a == ScheduleRescan <==> kind == Remove && isDirectoryMode)
      && (kind == Create || kind == Modify(ModifyData) ==> a == MarkdownChangeAction(path, tracked, isDirectoryMode))
  {
  }

  /** One action never stops tracking a file and never moves a stored
      modification time backwards; only an add changes the key set and only
      a scheduled rescan changes the rescan count. */
  lemma PerformOnlyGrows(e: Effect, a: Action, fs: Snapshot, render: string -> string)
    requires a.Add? ==> FileName(a.path).Some?
    ensures var r := Perform(e, a, fs, render);
      && e.files.Keys <= r.files.Keys
      && (forall k :: k in e.files ==> r.files[k].path == e.files[k].path
                                        && r.files[k].lastModified >= e.files[k].lastModified)
      && (!a.Add? ==> r.files.Keys == e.files.Keys)
      && (!a.ScheduleRescan? ==> r.rescans == e.rescans)
  {
    match a {
      case Refresh(name) => RefreshOnlyAdvances(e.files, fs, render, name);
      case Add(p) => AddInsertsOnlyNew(e.files, fs, render, p);
      case _ =>
    }
  }

  /** In single-file mode the decision on a path never adds a file and
      never schedules a rescan. */
  lemma MarkdownActionsAddOnlyInDirectoryMode(kind: EventKind, path: Path, tracked: set<string>,
                                              isDirectoryMode: bool, fs: Snapshot)
    ensures var a := PathAction(kind, path, tracked, isDirectoryMode, fs);
      !isDirectoryMode ==> !a.Add? && !a.ScheduleRescan?
  {
  }

  /** Handling the paths of an event never stops tracking a file and never
      moves a stored modification time backwards; only a rescan removes
      entries. */
  lemma {:induction false} PathsOnlyGrow(e: Effect, kind: EventKind, paths: seq<Path>, n: nat, isDirectoryMode: bool,
                                         fs: Snapshot, render: string -> string)
    requires n <= |paths|
    ensures var r := PathsOutcome(e, kind, paths, n, isDirectoryMode, fs, render);
      && e.files.Keys <= r.files.Keys
      && (forall k :: k in e.files ==> r.files[k].path == e.files[k].path
                                        && r.files[k].lastModified >= e.files[k].lastModified)
      && (!isDirectoryMode ==> r.files.Keys == e.files.Keys && r.rescans == e.rescans)
  {
    if n > 0 {
      var before := PathsOutcome(e, kind, paths, n - 1, isDirectoryMode, fs, render);
      PathsOnlyGrow(e, kind, paths, n - 1, isDirectoryMode, fs, render);
      var a := PathAction(kind, paths[n - 1], before.files.Keys, isDirectoryMode, fs);
      PerformOnlyGrows(before, a, fs, render);
      MarkdownActionsAddOnlyInDirectoryMode(kind, paths[n - 1], before.files.Keys, isDirectoryMode, fs);
    }
  }

  /** One event never stops tracking a file, never moves a stored
      modification time backwards, and in single-file mode never changes
      the set of tracked names nor arms a rescan. */
  lemma EventsNeverDropFiles(files: Files, isDirectoryMode: bool, ev: Event, fs: Snapshot,
                             render: string -> string)
    ensures var r := EventOutcome(files, isDirectoryMode, ev, fs, render);
      && files.Keys <= r.files.Keys
      && (forall k :: k in files ==> r.files[k].path == files[k].path
                                      && r.files[k].lastModified >= files[k].lastModified)
      && (!isDirectoryMode ==> r.files.Keys == files.Keys && r.rescans == 0)
  {
    match ev.kind {
      case Modify(ModifyName(mode)) =>
        var a := RenameAction(mode, ev.paths, files.Keys, isDirectoryMode, fs);
        match a {
          case Refresh(name) => RefreshOnlyAdvances(files, fs, render, name);
          case Add(p) => AddInsertsOnlyNew(files, fs, render, p);
          case _ =>
        }
      case _ => PathsOnlyGrow(Effect(files, [], 0), ev.kind, ev.paths, |ev.paths|, isDirectoryMode, fs, render);
    }
  }

  // ---------------------------------------------------------------------
  // Carrying the decisions out on the shared state

  /** Apply one action to the state, on top of the messages already sent
      and the rescans already scheduled. */
  method Apply(state: MarkdownState, action: Action, fs: Snapshot, sent: seq<ServerMessage>, armed: nat)
    returns (messages: seq<ServerMessage>, rescans: nat)
    requires state.Valid()
    requires action.Add? ==> FileName(action.path).Some?
    modifies state
    ensures state.Valid()
    ensures Effect(state.trackedFiles, messages, rescans)
         == Perform(Effect(old(state.trackedFiles), sent, armed), action, fs, state.render)
  {
    messages, rescans := sent, armed;
    match action {
      case NoAction =>
      case Refresh(name) =>
        var r := state.RefreshFile(fs, name);
        if r.Ok? {
          messages := messages + [Reload];
        }
      case Add(path) =>
        var r := state.AddTrackedFile(fs, path);
        if r.Ok? {
          messages := messages + [Reload];
        }
      case ScheduleRescan =>
        rescans := rescans + 1;
      case SendReload =>
        messages := messages + [Reload];
    }
  }

  /** `handle_file_event`. */
  method HandleFileEvent(state: MarkdownState, ev: Event, fs: Snapshot)
    returns (messages: seq<ServerMessage>, rescans: nat)
    requires state.Valid()
    modifies state
    ensures state.Valid()
    ensures Effect(state.trackedFiles, messages, rescans)
         == EventOutcome(old(state.trackedFiles), state.isDirectoryMode, ev, fs, state.render)
  {
    if ev.kind.Modify? && ev.kind.change.ModifyName? {
      var action := RenameAction(ev.kind.change.mode, ev.paths, state.trackedFiles.Keys, state.isDirectoryMode, fs);
      messages, rescans := Apply(state, action, fs, [], 0);
    } else {
      messages, rescans := HandlePaths(state, ev.kind, ev.paths, fs);
    }
  }

  /** `handle_file_event`'s loop over the paths of an event that is not a
      name change. */
  method HandlePaths(state: MarkdownState, kind: EventKind, paths: seq<Path>, fs: Snapshot)
    returns (messages: seq<ServerMessage>, rescans: nat)
    requires state.Valid()
    modifies state
    ensures state.Valid()
    ensures Effect(state.trackedFiles, messages, rescans)
         == PathsOutcome(Effect(old(state.trackedFiles), [], 0), kind, paths, |paths|, state.isDirectoryMode, fs, state.render)
  {
    messages, rescans := [], 0;
    ghost var start := Effect(state.trackedFiles, [], 0);
    var i := 0;
    while i < |paths|
      invariant 0 <= i <= |paths|
      invariant state.Valid()
      invariant Effect(state.trackedFiles, messages, rescans)
             == PathsOutcome(start, kind, paths, i, state.isDirectoryMode, fs, state.render)
    {
      messages, rescans := HandlePath(state, kind, paths[i], fs, messages, rescans);
      i := i + 1;
    }
  }

  /** One iteration of `handle_file_event`'s loop: decide on the path with
      the registry as it is now, then act. */
  method HandlePath(state: MarkdownState, kind: EventKind, path: Path, fs: Snapshot,
                    sent: seq<ServerMessage>, armed: nat)
    returns (messages: seq<ServerMessage>, rescans: nat)
    requires state.Valid()
    modifies state
    ensures state.Valid()
    ensures Effect(state.trackedFiles, messages, rescans)
         == Perform(Effect(old(state.trackedFiles), sent, armed),
                    PathAction(kind, path, old(state.trackedFiles).Keys, state.isDirectoryMode, fs), fs, state.render)
  {
    var action := PathAction(kind, path, state.trackedFiles.Keys, state.isDirectoryMode, fs);
    messages, rescans := Apply(state, action, fs, sent, armed);
  }

  /** The body of the delayed rescan (`rescan_and_detect_changes`): snapshot
      the tracked names, rescan, and when the rescan reports a change,
      classify it and broadcast one message. */
  method RescanAndDetectChanges(state: MarkdownState, fs: Snapshot) returns (message: Option<ServerMessage>)
    requires state.Valid()
    modifies state
    ensures state.Valid()
    ensures var t := Rescanned(old(state.trackedFiles), fs, state.baseDir, state.isDirectoryMode, state.render);
      state.trackedFiles == t.files && (message.Some? <==> t.result == Ok(true))
    ensures message.Some? ==> Announces(old(state.trackedFiles).Keys, state.trackedFiles.Keys, message.value)
  {
    var oldFiles := state.KeyOrder();
    var changed := state.RescanDirectory(fs);
    if changed.Err? || !changed.value {
      return None;
    }
    var newFiles := state.KeyOrder();
    var changeType := DetectFileChange(oldFiles, newFiles);
    DetectFileChangeClassifies(oldFiles, newFiles);
    assert Elems(oldFiles) == old(state.trackedFiles).Keys;
    assert Elems(newFiles) == state.trackedFiles.Keys;
    message := Some(SendChangeMessage(changeType));
  }

  // ---------------------------------------------------------------------
  // What the delayed rescan announces

  /** A tracked file renamed on disk (its old name gone from the listing,
      its new, readable name present, nothing else changed) is announced as
      FileRenamed from the old name to the new one. */
  lemma RenameIsAnnounced(files: Files, fs: Snapshot, baseDir: Path, render: string -> string,
                          oldName: string, newName: string)
    requires MarkdownFilesIn(fs, baseDir).Ok?
    requires oldName in files && newName !in files
    requires NamesOf(MarkdownFilesIn(fs, baseDir).value) == files.Keys - {oldName} + {newName}
    requires forall p :: p in MarkdownFilesIn(fs, baseDir).value && FileName(p) == Some(newName) ==> Readable(fs, p)
    ensures var t := Rescanned(files, fs, baseDir, true, render);
      && t.result == Ok(true)
      && t.files.Keys == files.Keys - {oldName} + {newName}
      && forall m :: Announces(files.Keys, t.files.Keys, m) <==> m == FileRenamed(oldName, newName)
  {
    var current := MarkdownFilesIn(fs, baseDir).value;
    var names := NamesOf(current);
    assert oldName !in names;
    var kept := Retain(files, names);
    assert kept.Keys == files.Keys - {oldName};
    AddUntrackedOnlyAdds(kept, current, fs, render);
    var newKeys := files.Keys - {oldName} + {newName};
    assert Rescanned(files, fs, baseDir, true, render).files.Keys == newKeys;
    OnlyRenameAnnouncesSwap(files.Keys, newKeys, oldName, newName);
  }

  /** A tracked file deleted on disk (and nothing else changed) is announced
      as FileRemoved with its name. */
  lemma RemovalIsAnnounced(files: Files, fs: Snapshot, baseDir: Path, render: string -> string, name: string)
    requires MarkdownFilesIn(fs, baseDir).Ok?
    requires name in files
    requires NamesOf(MarkdownFilesIn(fs, baseDir).value) == files.Keys - {name}
    ensures var t := Rescanned(files, fs, baseDir, true, render);
      && t.result == Ok(true)
      && t.files.Keys == files.Keys - {name}
      && forall m :: Announces(files.Keys, t.files.Keys, m) <==> m == FileRemoved(name)
  {
    var current := MarkdownFilesIn(fs, baseDir).value;
    var names := NamesOf(current);
    var kept := Retain(files, names);
    AddUntrackedOnlyAdds(kept, current, fs, render);
    var newKeys := files.Keys - {name};
    assert Rescanned(files, fs, baseDir, true, render).files.Keys == newKeys;
    OnlyRemovalAnnouncesDeletion(files.Keys, newKeys, name);
  }
}
