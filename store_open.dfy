/**
 * The two reading loops the store's constructor runs over an existing file
 * (gatherVariables and the table loop of verifyFiles in
 * src/binaryUtil/BinaryParser.java), each proved against the StoreState
 * function that says what it reads.
 */
module StoreOpen {
  import opened Wrappers
  import opened Thrown
  import opened Layout
  import opened Variables
  import opened StoreState

  /**
   * gatherVariables: entry after entry put into the map under its
   * Variable; an entry past the end of the file ends the open with EndOfFile.
   */
  method GatherVariablesLoop(contents: seq<byte>, n: nat) returns (r: Result<map<VarKey, int>, Exception>)
    ensures r == GatherVariables(contents, n)
  {
    r := GatherLoop(contents, n, ReadVarEntry);
  }

  /**
   * The loop of gatherVariables, for any way of reading one entry: the reads
   * in table order, each result put into the map, until a read fails.
   */
  method GatherLoop(contents: seq<byte>, n: nat, read: (seq<byte>, nat) -> Option<(VarKey, int)>)
    returns (r: Result<map<VarKey, int>, Exception>)
    ensures r == GatherWith(contents, n, read)
  {
    var m: map<VarKey, int> := map[];
    var i := 0;
    while i < n
      invariant 0 <= i <= n
      invariant GatherWith(contents, i, read) == Ok(m)
    {
      var entry := read(contents, i);
      if entry.None? {
        GatherStops(contents, i + 1, n, read);
        return Err(EndOfFile);
      }
      m := m[entry.value.0 := entry.value.1];
      i := i + 1;
    }
    return Ok(m);
  }

  /** The first loop of verifyFiles: the file table read entry by entry, stopping at the first failed read. */
  method VerifyFilesLoop(contents: seq<byte>, availableVars: int, n: nat)
    returns (table: map<string, FileInfo>, read: nat)
    ensures (table, read) == FileTable(contents, availableVars, n)
  {
    table, read := map[], 0;
    while read < n
      invariant read <= n
      invariant FileTable(contents, availableVars, read) == (table, read)
    {
      var entry := SeekFileEntry(contents, availableVars, read);
      if entry.None? {
        FileTableStops(contents, availableVars, read + 1, n);
        return;
      }
      table := TableNext(contents, availableVars, read, table, entry.value);
      read := read + 1;
    }
  }

  /** Once a read has failed, gathering more entries fails the same way. */
  lemma {:induction false} GatherStops(contents: seq<byte>, i: nat, n: nat,
                                       read: (seq<byte>, nat) -> Option<(VarKey, int)>)
    requires 0 < i <= n && GatherWith(contents, i - 1, read).Ok? && read(contents, i - 1).None?
    ensures GatherWith(contents, n, read) == Err(EndOfFile)
    decreases n
  {
    if n > i {
      GatherStops(contents, i, n - 1, read);
    }
  }

  /** The seek to file entry i and the reads of its fields. */
  method SeekFileEntry(contents: seq<byte>, availableVars: int, i: nat) returns (e: Option<FileEntry>)
    ensures e == FileEntryIn(contents, availableVars, i)
  {
    var at := FileEntryAt(availableVars, i);
    if 0 <= at <= |contents| {
      e := ReadFileEntry(contents[at..]);
    } else {
      e := None;
    }
  }

  /** File entry i read and put into the table read so far, under its name. */
  method TableNext(contents: seq<byte>, availableVars: int, i: nat, table: map<string, FileInfo>, e: FileEntry)
    returns (r: map<string, FileInfo>)
    requires FileTable(contents, availableVars, i) == (table, i)
    requires FileEntryIn(contents, availableVars, i) == Some(e)
    ensures FileTable(contents, availableVars, i + 1) == (r, i + 1)
  {
    r := table[e.name := FileInfo(e.lastModified, e.slot)];
  }

  /** Once verifyFiles' loop has stopped, reading further entries changes nothing. */
  lemma {:induction false} FileTableStops(contents: seq<byte>, availableVars: int, i: nat, n: nat)
    requires 0 < i <= n
    requires FileTable(contents, availableVars, i - 1).1 == i - 1
    requires FileEntryIn(contents, availableVars, i - 1).None?
    ensures FileTable(contents, availableVars, n) == FileTable(contents, availableVars, i - 1)
    decreases n - i
  {
    if i < n {
      FileTableStops(contents, availableVars, i, n - 1);
    }
  }
}
