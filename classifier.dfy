/** The messages the server pushes to its clients, and `detect_file_change`,
    which turns the key sets before and after a rescan into one of them. */
module Protocol {

  /** `ServerMessage`, serialised with a `type` tag. */
  datatype ServerMessage =
    | Reload
    | Pong
    | FileRenamed(oldName: string, newName: string)
    | FileRemoved(name: string)
}

module Classifier {
  import opened Wrappers
  import opened Sorting
  import opened Protocol

  datatype FileChangeType =
    | Renamed(oldName: string, newName: string)
    | Removed(name: string)
    | Other

  /** `a.difference(b)` collected in `a`'s iteration order. A hash set is
      modelled by the sequence it iterates in, so the order is the hash
      set's and no element repeats. */
  function Minus(a: seq<string>, b: seq<string>): (r: seq<string>)
    ensures forall x :: x in r <==> x in a && x !in b
    ensures NoDup(a) ==> NoDup(r)
  {
    if a == [] then []
    else
      var rest := Minus(a[1..], b);
      if a[0] in b then rest else [a[0]] + rest
  }

  /** A sequence without duplicates has as many elements as its set. */
  lemma {:induction false} DistinctCount(s: seq<string>)
    requires NoDup(s)
    ensures |Elems(s)| == |s|
  {
    if s != [] {
      DistinctCount(s[1..]);
      assert Elems(s) == {s[0]} + Elems(s[1..]);
      assert s[0] !in Elems(s[1..]);
    }
  }

  /** `detect_file_change`: exactly one name added and one removed is a
      rename; otherwise any removal reports the first removed name;
      otherwise a generic reload. Only the cardinalities decide. */
  function DetectFileChange(oldFiles: seq<string>, newFiles: seq<string>): (r: FileChangeType)
    ensures r.Renamed? ==>
      r.oldName in oldFiles && r.oldName !in newFiles && r.newName in newFiles && r.newName !in oldFiles
    ensures r.Removed? ==> r.name in oldFiles && r.name !in newFiles
  {
    var added := Minus(newFiles, oldFiles);
    var removed := Minus(oldFiles, newFiles);
    if |added| == 1 && |removed| == 1 then Renamed(removed[0], added[0])
    else if |removed| > 0 then Removed(removed[0])
    else Other
  }

  /** What a classification means on the key sets: with
      added = new - old and removed = old - new. */
  ghost predicate Classifies(oldKeys: set<string>, newKeys: set<string>, c: FileChangeType) {
    var added := newKeys - oldKeys;
    var removed := oldKeys - newKeys;
    match c
    case Renamed(o, n) => added == {n} && removed == {o}
    case Removed(n) => !(|added| == 1 && |removed| == 1) && n in removed
    case Other => !(|added| == 1 && |removed| == 1) && removed == {}
  }

  /** `detect_file_change` classifies its inputs: a rename exactly when one
      name was added and one removed, a removal (of a removed name) exactly
      when that is not so and something was removed, and a reload exactly
      when nothing was removed and it is not a rename. */
  lemma DetectFileChangeClassifies(oldFiles: seq<string>, newFiles: seq<string>)
    requires NoDup(oldFiles) && NoDup(newFiles)
    ensures Classifies(Elems(oldFiles), Elems(newFiles), DetectFileChange(oldFiles, newFiles))
  {
    var added := Minus(newFiles, oldFiles);
    var removed := Minus(oldFiles, newFiles);
    DistinctCount(added);
    DistinctCount(removed);
    assert Elems(added) == Elems(newFiles) - Elems(oldFiles);
    assert Elems(removed) == Elems(oldFiles) - Elems(newFiles);
    if |added| == 1 && |removed| == 1 {
      assert Elems(added) == {added[0]};
      assert Elems(removed) == {removed[0]};
    } else if |removed| > 0 {
      assert removed[0] in Elems(removed);
    }
  }

  /** At most one classification kind fits given key sets, and a rename is
      fully determined by them: the iteration order of the hash sets can
      only change which removed name a removal reports. */
  lemma ClassificationIsDetermined(oldKeys: set<string>, newKeys: set<string>, c1: FileChangeType, c2: FileChangeType)
    requires Classifies(oldKeys, newKeys, c1) && Classifies(oldKeys, newKeys, c2)
    ensures c1.Renamed? == c2.Renamed? && c1.Removed? == c2.Removed? && c1.Other? == c2.Other?
    ensures c1.Renamed? ==> c1 == c2
  {
    if c1.Renamed? && c2.Renamed? {
      assert c1.oldName in {c2.oldName} && c1.newName in {c2.newName};
    }
  }

  /** `send_change_message`'s translation into a wire message. */
  function SendChangeMessage(c: FileChangeType): (m: ServerMessage)
    ensures ChangeOf(m) == Some(c)
  {
    match c
    case Renamed(oldName, newName) => FileRenamed(oldName, newName)
    case Removed(name) => FileRemoved(name)
    case Other => Reload
  }

  /** The change a wire message reports; Pong reports none. */
  function ChangeOf(m: ServerMessage): Option<FileChangeType> {
    match m
    case FileRenamed(oldName, newName) => Some(Renamed(oldName, newName))
    case FileRemoved(name) => Some(Removed(name))
    case Reload => Some(Other)
    case Pong => None
  }

  /** A wire message announces the change between two key sets when it is
      the translation of a classification of them. */
  ghost predicate Announces(oldKeys: set<string>, newKeys: set<string>, m: ServerMessage) {
    ChangeOf(m).Some? && Classifies(oldKeys, newKeys, ChangeOf(m).value)
  }

  /** When exactly one name left and exactly one arrived, the only message
      announcing the change is the rename from the one to the other. */
  lemma OnlyRenameAnnouncesSwap(oldKeys: set<string>, newKeys: set<string>, o: string, n: string)
    requires oldKeys - newKeys == {o} && newKeys - oldKeys == {n}
    ensures forall m :: Announces(oldKeys, newKeys, m) <==> m == FileRenamed(o, n)
  {
    forall m | Announces(oldKeys, newKeys, m) ensures m == FileRenamed(o, n) {
      assert |newKeys - oldKeys| == 1 && |oldKeys - newKeys| == 1;
      var c := ChangeOf(m).value;
      assert c.Renamed?;
      assert c.oldName in {o} && c.newName in {n};
    }
  }

  /** When one name left and none arrived, the only message announcing the
      change is the removal of that name. */
  lemma OnlyRemovalAnnouncesDeletion(oldKeys: set<string>, newKeys: set<string>, n: string)
    requires oldKeys - newKeys == {n} && newKeys - oldKeys == {}
    ensures forall m :: Announces(oldKeys, newKeys, m) <==> m == FileRemoved(n)
  {
    forall m | Announces(oldKeys, newKeys, m) ensures m == FileRemoved(n) {
      assert |newKeys - oldKeys| == 0;
      var c := ChangeOf(m).value;
      assert c.Removed?;
      assert c.name in {n};
    }
  }

  /** Given tracked {a.md, b.md} and a pass after which {a.md, c.md} are
      tracked, the message is FileRenamed{b.md, c.md}, whatever the two
      files contain: the cardinality rule has no content check. */
  lemma UnrelatedSwapIsRename(oldFiles: seq<string>, newFiles: seq<string>)
    requires NoDup(oldFiles) && NoDup(newFiles)
    requires Elems(oldFiles) == {"a.md", "b.md"} && Elems(newFiles) == {"a.md", "c.md"}
    ensures SendChangeMessage(DetectFileChange(oldFiles, newFiles)) == FileRenamed("b.md", "c.md")
  {
    DetectFileChangeClassifies(oldFiles, newFiles);
    assert Elems(newFiles) - Elems(oldFiles) == {"c.md"};
    assert Elems(oldFiles) - Elems(newFiles) == {"b.md"};
  }

  /** Given tracked {a.md} and a pass that adds b.md and c.md, the message
      is a plain Reload, not a rename. */
  lemma TwoAdditionsReload(oldFiles: seq<string>, newFiles: seq<string>)
    requires NoDup(oldFiles) && NoDup(newFiles)
    requires Elems(oldFiles) == {"a.md"} && Elems(newFiles) == {"a.md", "b.md", "c.md"}
    ensures SendChangeMessage(DetectFileChange(oldFiles, newFiles)) == Reload
  {
    DetectFileChangeClassifies(oldFiles, newFiles);
    assert Elems(oldFiles) - Elems(newFiles) == {};
  }
}
