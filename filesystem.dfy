/** The file system as the server sees it at one moment: a snapshot value
    handed to every operation in place of `fs::metadata`,
    `fs::read_to_string` and `fs::read_dir`. */
module FileSystem {
  import opened Wrappers
  import opened Paths

  /** What `fs::metadata` reports. `modified` is None where the platform
      does not record modification times (`Metadata::modified` fails). */
  datatype Metadata = Metadata(isFile: bool, modified: Option<int>)

  /** One item of a directory listing; reading an item can fail. */
  datatype DirEntry = Entry(name: string) | Unreadable

  /** `meta`: paths whose metadata can be read; `contents`: files that read
      as UTF-8 text; `listings`: directories that can be listed. */
  datatype Snapshot = Snapshot(
    meta: map<Path, Metadata>,
    contents: map<Path, string>,
    listings: map<Path, seq<DirEntry>>)

  datatype IoError =
    | MetadataUnavailable(path: Path)
    | ModifiedUnavailable(path: Path)
    | ReadFailed(path: Path)
    | ReadDirFailed(dir: Path)
    | EntryFailed(dir: Path)

  function GetMetadata(fs: Snapshot, p: Path): Result<Metadata, IoError> {
    if p in fs.meta then Ok(fs.meta[p]) else Err(MetadataUnavailable(p))
  }

  function Modified(meta: Metadata, p: Path): Result<int, IoError> {
    match meta.modified
    case Some(t) => Ok(t)
    case None => Err(ModifiedUnavailable(p))
  }

  function ReadToString(fs: Snapshot, p: Path): Result<string, IoError> {
    if p in fs.contents then Ok(fs.contents[p]) else Err(ReadFailed(p))
  }

  /** `Path::is_file`: false when the metadata cannot be read. */
  predicate IsFile(fs: Snapshot, p: Path) {
    p in fs.meta && fs.meta[p].isFile
  }

  /** `Path::exists`. */
  predicate Exists(fs: Snapshot, p: Path) {
    p in fs.meta
  }

  /** What the operating system guarantees of a listing: every name is a
      plain name and no name appears twice. */
  ghost predicate WellFormedListing(entries: seq<DirEntry>) {
    && (forall i :: 0 <= i < |entries| && entries[i].Entry? ==> IsPlainName(entries[i].name))
    && (forall i, j :: 0 <= i < j < |entries| && entries[i].Entry? && entries[j].Entry? ==>
          entries[i].name != entries[j].name)
  }
}
