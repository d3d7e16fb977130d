/** `scan_markdown_files`: the Markdown files directly inside one directory,
    sorted. */
module Scanner {
  import opened Wrappers
  import opened Paths
  import opened Sorting
  import opened FileSystem
  import opened Filters

  /** Whether the scanner keeps the listing item `name` of `dir`. */
  predicate Keeps(fs: Snapshot, dir: Path, name: string) {
    IsFile(fs, Join(dir, name)) && IsMarkdownFile(Join(dir, name))
  }

  /** The scanner's loop over the listing, in listing order: the kept paths,
      or the error of the first unreadable item. */
  function CollectMarkdown(fs: Snapshot, dir: Path, entries: seq<DirEntry>): Result<seq<Path>, IoError>
    decreases |entries|
  {
    if entries == [] then Ok([])
    else
      var found :- CollectMarkdown(fs, dir, entries[..|entries| - 1]);
      match entries[|entries| - 1]
      case Unreadable => Err(EntryFailed(dir))
      case Entry(name) => if Keeps(fs, dir, name) then Ok(found + [Join(dir, name)]) else Ok(found)
  }

  /** What `scan_markdown_files(dir)` returns on the snapshot `fs`. */
  function MarkdownFilesIn(fs: Snapshot, dir: Path): Result<seq<Path>, IoError> {
    if dir !in fs.listings then Err(ReadDirFailed(dir))
    else
      var found :- CollectMarkdown(fs, dir, fs.listings[dir]);
      Ok(Sort(found))
  }

  /** Once the loop has failed on a prefix, the rest of the listing does not
      matter: the first failure is the result. */
  lemma {:induction false} CollectFailsFromPrefix(fs: Snapshot, dir: Path, entries: seq<DirEntry>, i: nat)
    requires i <= |entries|
    requires CollectMarkdown(fs, dir, entries[..i]).Err?
    ensures CollectMarkdown(fs, dir, entries) == CollectMarkdown(fs, dir, entries[..i])
    decreases |entries|
  {
    if i < |entries| {
      var init := entries[..|entries| - 1];
      assert init[..i] == entries[..i];
      CollectFailsFromPrefix(fs, dir, init, i);
    } else {
      assert entries[..i] == entries;
    }
  }

  /** The scanner: one pass over the listing that stops at the first
      unreadable item, then a sort. */
  method ScanMarkdownFiles(fs: Snapshot, dir: Path) returns (r: Result<seq<Path>, IoError>)
    ensures r == MarkdownFilesIn(fs, dir)
  {
    if dir !in fs.listings {
      return Err(ReadDirFailed(dir));
    }
    var entries := fs.listings[dir];
    var mdFiles: seq<Path> := [];
    var i := 0;
    while i < |entries|
      invariant 0 <= i <= |entries|
      invariant CollectMarkdown(fs, dir, entries[..i]) == Ok(mdFiles)
    {
      assert entries[..i + 1][..i] == entries[..i];
      match entries[i] {
        case Unreadable =>
          CollectFailsFromPrefix(fs, dir, entries, i + 1);
          return Err(EntryFailed(dir));
        case Entry(name) =>
          var path := Join(dir, name);
          if IsFile(fs, path) && IsMarkdownFile(path) {
            mdFiles := mdFiles + [path];
          }
      }
      i := i + 1;
    }
    assert entries[..i] == entries;
    return Ok(Sort(mdFiles));
  }

  /** The loop fails exactly when some item of the listing is unreadable. */
  lemma {:induction false} CollectFailsIffUnreadable(fs: Snapshot, dir: Path, entries: seq<DirEntry>)
    ensures CollectMarkdown(fs, dir, entries).Err? <==> Unreadable in entries
    ensures CollectMarkdown(fs, dir, entries).Err? ==> CollectMarkdown(fs, dir, entries).error == EntryFailed(dir)
    decreases |entries|
  {
    if entries != [] {
      var init := entries[..|entries| - 1];
      CollectFailsIffUnreadable(fs, dir, init);
      assert entries == init + [entries[|entries| - 1]];
    }
  }

  /** `p` is a kept item of the listing, joined onto the directory. */
  ghost predicate KeptItem(fs: Snapshot, dir: Path, entries: seq<DirEntry>, p: Path) {
    exists i :: 0 <= i < |entries| && entries[i].Entry? && p == Join(dir, entries[i].name)
                && Keeps(fs, dir, entries[i].name)
  }

  /** On success the loop yields exactly the kept items, each joined onto
      the directory. */
  lemma {:induction false} CollectContents(fs: Snapshot, dir: Path, entries: seq<DirEntry>)
    requires CollectMarkdown(fs, dir, entries).Ok?
    ensures forall p :: p in CollectMarkdown(fs, dir, entries).value <==> KeptItem(fs, dir, entries, p)
    decreases |entries|
  {
    if entries != [] {
      var init := entries[..|entries| - 1];
      var last := entries[|entries| - 1];
      CollectContents(fs, dir, init);
      forall p ensures p in CollectMarkdown(fs, dir, entries).value <==> KeptItem(fs, dir, entries, p) {
        if KeptItem(fs, dir, entries, p) {
          var i :| 0 <= i < |entries| && entries[i].Entry? && p == Join(dir, entries[i].name)
                   && Keeps(fs, dir, entries[i].name);
          if i < |entries| - 1 {
            assert init[i] == entries[i];
            assert KeptItem(fs, dir, init, p);
          }
        }
        if KeptItem(fs, dir, init, p) {
          var i :| 0 <= i < |init| && init[i].Entry? && p == Join(dir, init[i].name)
                   && Keeps(fs, dir, init[i].name);
          assert entries[i] == init[i];
        }
        if last.Entry? && p == Join(dir, last.name) && Keeps(fs, dir, last.name) {
          assert KeptItem(fs, dir, entries, p);
        }
      }
    }
  }

  /** With a well-formed listing the loop yields no path twice. */
  lemma {:induction false} CollectNoDup(fs: Snapshot, dir: Path, entries: seq<DirEntry>)
    requires CollectMarkdown(fs, dir, entries).Ok?
    requires WellFormedListing(entries)
    ensures NoDup(CollectMarkdown(fs, dir, entries).value)
    decreases |entries|
  {
    if entries != [] {
      var init := entries[..|entries| - 1];
      assert WellFormedListing(init);
      CollectNoDup(fs, dir, init);
      var last := entries[|entries| - 1];
      if last.Entry? && Keeps(fs, dir, last.name) {
        var found := CollectMarkdown(fs, dir, init).value;
        CollectContents(fs, dir, init);
        if Join(dir, last.name) in found {
          var i :| 0 <= i < |init| && init[i].Entry? && Join(dir, last.name) == Join(dir, init[i].name)
                   && Keeps(fs, dir, init[i].name);
          JoinInjective(dir, last.name, init[i].name);
          assert false;
        }
      }
    }
  }

  /** `scan_markdown_files` fails exactly when the directory cannot be listed
      or one item of its listing cannot be read: one bad item aborts the
      whole scan. */
  lemma ScanFailsIff(fs: Snapshot, dir: Path)
    ensures MarkdownFilesIn(fs, dir).Err? <==> dir !in fs.listings || Unreadable in fs.listings[dir]
  {
    if dir in fs.listings {
      CollectFailsIffUnreadable(fs, dir, fs.listings[dir]);
    }
  }

  /** On success the result is sorted and holds exactly the regular files
      listed directly in `dir` whose names pass `is_markdown_file`; with a
      well-formed listing it holds each once, and each path's file name is
      an item of the listing, so nothing from a subdirectory appears. */
  lemma ScanResult(fs: Snapshot, dir: Path)
    requires MarkdownFilesIn(fs, dir).Ok?
    ensures var files := MarkdownFilesIn(fs, dir).value;
      && Sorted(files)
      && (forall p :: p in files <==>
            exists i :: 0 <= i < |fs.listings[dir]| && fs.listings[dir][i].Entry?
                        && p == Join(dir, fs.listings[dir][i].name) && Keeps(fs, dir, fs.listings[dir][i].name))
      && (WellFormedListing(fs.listings[dir]) ==> NoDup(files))
      && (WellFormedListing(fs.listings[dir]) ==>
            forall p :: p in files ==> FileName(p).Some? && Entry(FileName(p).value) in fs.listings[dir])
  {
    var entries := fs.listings[dir];
    var found := CollectMarkdown(fs, dir, entries).value;
    var files := MarkdownFilesIn(fs, dir).value;
    CollectContents(fs, dir, entries);
    SortKeepsElements(found);
    assert forall p :: p in files <==> p in found by {
      forall p ensures p in files <==> p in found {
        assert p in Elems(files) <==> p in files;
        assert p in Elems(found) <==> p in found;
      }
    }
    if WellFormedListing(entries) {
      CollectNoDup(fs, dir, entries);
      forall p | p in files ensures FileName(p).Some? && Entry(FileName(p).value) in entries {
        var i :| 0 <= i < |entries| && entries[i].Entry? && p == Join(dir, entries[i].name)
                 && Keeps(fs, dir, entries[i].name);
        FileNameOfJoin(dir, entries[i].name);
      }
    }
  }

  /** The loop looks at nothing but the listing and whether each listed
      item is a regular file: two file systems that agree on that give the
      same result, whatever else they hold (file contents, other
      directories, the files inside subdirectories). */
  lemma {:induction false} CollectReadsOnlyListing(fs1: Snapshot, fs2: Snapshot, dir: Path, entries: seq<DirEntry>)
    requires forall i :: 0 <= i < |entries| && entries[i].Entry? ==>
               IsFile(fs1, Join(dir, entries[i].name)) == IsFile(fs2, Join(dir, entries[i].name))
    ensures CollectMarkdown(fs1, dir, entries) == CollectMarkdown(fs2, dir, entries)
    decreases |entries|
  {
    if entries != [] {
      var init := entries[..|entries| - 1];
      forall i | 0 <= i < |init| && init[i].Entry?
        ensures IsFile(fs1, Join(dir, init[i].name)) == IsFile(fs2, Join(dir, init[i].name))
      {
        assert init[i] == entries[i];
      }
      CollectReadsOnlyListing(fs1, fs2, dir, init);
    }
  }

  /** The scan does not recurse: two file systems with the same listing of
      `dir`, agreeing on which of its items are regular files, give the same
      scan, however their subdirectories differ. */
  lemma ScanDoesNotRecurse(fs1: Snapshot, fs2: Snapshot, dir: Path)
    requires dir in fs1.listings <==> dir in fs2.listings
    requires dir in fs1.listings ==> fs1.listings[dir] == fs2.listings[dir]
    requires dir in fs1.listings ==>
               forall i :: 0 <= i < |fs1.listings[dir]| && fs1.listings[dir][i].Entry? ==>
                 IsFile(fs1, Join(dir, fs1.listings[dir][i].name)) == IsFile(fs2, Join(dir, fs1.listings[dir][i].name))
    ensures MarkdownFilesIn(fs1, dir) == MarkdownFilesIn(fs2, dir)
  {
    if dir in fs1.listings {
      CollectReadsOnlyListing(fs1, fs2, dir, fs1.listings[dir]);
    }
  }

  /** Creating `sub/name` inside a subdirectory `sub` of `dir` (giving it
      metadata and contents) leaves the scan of `dir` unchanged: the nested
      path is no direct child of `dir`. */
  lemma NestedFileIsIgnored(fs: Snapshot, dir: Path, sub: string, name: string, meta: Metadata, content: string)
    requires dir in fs.listings && WellFormedListing(fs.listings[dir])
    requires IsPlainName(sub) && IsPlainName(name)
    ensures var nested := Join(Join(dir, sub), name);
      MarkdownFilesIn(fs.(meta := fs.meta[nested := meta], contents := fs.contents[nested := content]), dir)
        == MarkdownFilesIn(fs, dir)
  {
    var nested := Join(Join(dir, sub), name);
    var fs2 := fs.(meta := fs.meta[nested := meta], contents := fs.contents[nested := content]);
    var entries := fs.listings[dir];
    forall i | 0 <= i < |entries| && entries[i].Entry?
      ensures IsFile(fs2, Join(dir, entries[i].name)) == IsFile(fs, Join(dir, entries[i].name))
    {
      NestedPathIsNoChild(dir, sub, name, entries[i].name);
    }
    CollectReadsOnlyListing(fs2, fs, dir, entries);
  }

  /** `dir/sub/name` is never `dir/e` for plain names `sub`, `name`, `e`. */
  lemma NestedPathIsNoChild(dir: Path, sub: string, name: string, e: string)
    requires IsPlainName(sub) && IsPlainName(name) && IsPlainName(e)
    ensures Join(Join(dir, sub), name) != Join(dir, e)
  {
    FileNameOfJoin(dir, e);
    FileNameOfJoin(Join(dir, sub), name);
    if e == name {
      var q := if dir == [] || dir[|dir| - 1] == '/' then dir else dir + "/";
      assert Join(dir, sub) == q + sub;
      assert |Join(dir, e)| == |q| + |e|;
      assert |Join(Join(dir, sub), name)| == |q| + |sub| + 1 + |name|;
    }
  }
}
