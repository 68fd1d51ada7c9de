/** `listFiles`: the loop over the directory's entries that keeps the
    regular ones whose size could be read, in directory order. The entries
    and the outcome of each `Info()` call are inputs. */
module Listing {
  import opened Wrappers
  import opened SizeFormat

  /** A directory entry as `os.ReadDir` returns it: its name, whether it is
      a directory, and what its `Info()` call yields (a size, or an error). */
  datatype DirEntry = DirEntry(name: string, isDir: bool, info: Result<int64>)

  /** One row of the listing page: the name and the formatted size. */
  datatype FileInfo = FileInfo(name: string, size: SizeLabel)

  /** The entries the loop keeps. */
  predicate Listable(e: DirEntry) {
    !e.isDir && e.info.Ok?
  }

  /** The row for a kept entry: its name and `formatSize` of its size. */
  function Describe(e: DirEntry): FileInfo
    requires Listable(e)
  {
    FileInfo(e.name, Label(e.info.value))
  }

  /** The listing of `entries`, described entry by entry. */
  function Listed(entries: seq<DirEntry>): seq<FileInfo>
  {
    if entries == [] then []
    else if Listable(entries[0]) then [Describe(entries[0])] + Listed(entries[1..])
    else Listed(entries[1..])
  }

  /** Listing a concatenation lists each part in turn, so the listing keeps
      directory order. */
  lemma {:induction false} ListedAppend(a: seq<DirEntry>, b: seq<DirEntry>)
    ensures Listed(a + b) == Listed(a) + Listed(b)
    decreases |a|
  {
    if a == [] {
      assert a + b == b;
    } else {
      assert (a + b)[1..] == a[1..] + b;
      ListedAppend(a[1..], b);
    }
  }

  /** Every listed row describes a listable entry of the directory. */
  lemma {:induction false} ListedSound(entries: seq<DirEntry>, f: FileInfo)
    requires f in Listed(entries)
    ensures exists e :: e in entries && Listable(e) && f == Describe(e)
    decreases |entries|
  {
    if Listable(entries[0]) && f == Describe(entries[0]) {
      assert entries[0] in entries;
    } else {
      ListedSound(entries[1..], f);
      var e :| e in entries[1..] && Listable(e) && f == Describe(e);
      assert e in entries;
    }
  }

  /** Every listable entry of the directory is listed. */
  lemma {:induction false} ListedComplete(entries: seq<DirEntry>, e: DirEntry)
    requires e in entries && Listable(e)
    ensures Describe(e) in Listed(entries)
    decreases |entries|
  {
    if e != entries[0] {
      assert e in entries[1..];
      ListedComplete(entries[1..], e);
    }
  }

  /** Directories and entries whose `Info()` failed contribute nothing. */
  lemma {:induction false} ListedSkips(entries: seq<DirEntry>)
    requires forall i :: 0 <= i < |entries| ==> !Listable(entries[i])
    ensures Listed(entries) == []
    decreases |entries|
  {
    if entries != [] {
      ListedSkips(entries[1..]);
    }
  }

  /** The loop of `listFiles`, after `os.ReadDir(".")` has produced `dir`:
      a `ReadDir` error is passed on; otherwise each entry that is not a
      directory and whose `Info()` succeeds is appended with its formatted
      size. */
  method ListFiles(dir: Result<seq<DirEntry>>) returns (r: Result<seq<FileInfo>>)
    ensures dir.Err? ==> r == Err(dir.message)
    ensures dir.Ok? ==> r == Ok(Listed(dir.value))
  {
    if dir.Err? {
      return Err(dir.message);
    }
    var entries := dir.value;
    var fileInfoList: seq<FileInfo> := [];
    for i := 0 to |entries|
      invariant fileInfoList == Listed(entries[..i])
    {
      var file := entries[i];
      ListedAppend(entries[..i], [file]);
      assert entries[..i + 1] == entries[..i] + [file];
      if file.isDir {
        continue;
      }
      if file.info.Err? {
        continue;
      }
      var size := FormatSize(file.info.value);
      fileInfoList := fileInfoList + [FileInfo(file.name, size)];
    }
    assert entries[..|entries|] == entries;
    return Ok(fileInfoList);
  }
}
