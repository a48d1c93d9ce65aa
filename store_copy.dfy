/**
 * The copying half of grow (copyVariables, copyFiles and CopyData in
 * src/binaryUtil/BinaryParser.java) as loops, each proved against the
 * StoreGrow function that says which writes it queues for the new file.
 */
module StoreCopy {
  import opened Wrappers
  import opened Thrown
  import opened Variables
  import opened Layout
  import opened StoreState
  import opened StoreGrow

  // -------------------------------------------------------- copyVariables

  /** The reads of entry i: its Variable, and its bytes as the new table gets them. */
  method CopyEntry(d: seq<byte>, i: nat, base: int) returns (key: VarKey, entry: seq<byte>)
    requires VarEntryAt(i + 1) <= |d|
    ensures key == EntryKey(d, i) && entry == CopiedEntry(d, i, base)
  {
    var at := VarEntryAt(i);
    var e := DecodeVarEntry(d[at..at + VariableBinarySize]);
    key := Key(EntryVariable(e));
    entry := d[at..at + 102] + EncodeLong(base + 8 * i);
  }

  /**
   * copyVariables over the first n entries: each entry queued for the new
   * table with its new start, and the map from each entry's Variable to it.
   */
  method CopyVariablesLoop(d: seq<byte>, n: nat, base: int) returns (writes: seq<Request>, tempMap: map<VarKey, int>)
    requires n == 0 || VarEntryAt(n) <= |d|
    ensures writes == CopyVariables(d, n, base)
    ensures tempMap == ColumnsOf(EntryKeys(d, n), base)
  {
    writes, tempMap := [], map[];
    ghost var keys: seq<VarKey> := [];
    var i := 0;
    while i < n
      invariant i <= n
      invariant writes == CopyVariables(d, i, base)
      invariant |keys| == i && keys == EntryKeys(d, i) && tempMap == ColumnsOf(keys, base)
    {
      assert VarEntryAt(i + 1) <= VarEntryAt(n);
      writes, tempMap, keys := CopyNext(d, i, base, writes, tempMap, keys);
      i := i + 1;
    }
  }

  /** Entry i queued for the new table and put into the new map. */
  method CopyNext(d: seq<byte>, i: nat, base: int, writes: seq<Request>, tempMap: map<VarKey, int>,
                  ghost keys: seq<VarKey>)
    returns (writes': seq<Request>, tempMap': map<VarKey, int>, ghost keys': seq<VarKey>)
    requires VarEntryAt(i + 1) <= |d|
    requires |keys| == i
    requires writes == CopyVariables(d, i, base) && keys == EntryKeys(d, i) && tempMap == ColumnsOf(keys, base)
    ensures |keys'| == i + 1
    ensures writes' == CopyVariables(d, i + 1, base) && keys' == EntryKeys(d, i + 1) && tempMap' == ColumnsOf(keys', base)
  {
    var key, entry := CopyEntry(d, i, base);
    writes' := writes + [Request(VarEntryAt(i), entry)];
    tempMap', keys' := PutColumn(tempMap, keys, key, base, i);
  }

  /** tempMap.put: the key of the next entry goes to the next column. */
  method PutColumn(tempMap: map<VarKey, int>, ghost keys: seq<VarKey>, k: VarKey, base: int, i: nat)
    returns (tempMap': map<VarKey, int>, ghost keys': seq<VarKey>)
    requires |keys| == i && tempMap == ColumnsOf(keys, base)
    ensures keys' == keys + [k] && tempMap' == ColumnsOf(keys', base)
  {
    tempMap' := tempMap[k := base + 8 * i];
    keys' := keys + [k];
    assert keys'[..|keys|] == keys;
  }

  // ------------------------------------------------------------ copyFiles

  /** The seek to old file entry i and the read of its 62 bytes. */
  method ReadOldFileEntry(d: seq<byte>, oldVars: int, i: nat) returns (bs: Option<seq<byte>>)
    ensures bs == OldFileEntry(d, oldVars, i)
  {
    var at := FileEntryAt(oldVars, i);
    if 0 <= at && at + FileBinarySize <= |d| {
      bs := Some(d[at..at + FileBinarySize]);
    } else {
      bs := None;
    }
  }

  /**
   * copyFiles over the first n entries: each old entry queued for its new
   * place; the first read past the end ends the copy quietly.
   */
  method CopyFilesLoop(d: seq<byte>, oldVars: int, newVars: int, n: nat) returns (writes: seq<Request>)
    ensures writes == CopyFiles(d, oldVars, newVars, n)
  {
    writes := [];
    var i := 0;
    while i < n
      invariant i <= n && |writes| == i
      invariant writes == CopyFiles(d, oldVars, newVars, i)
    {
      var bs := ReadOldFileEntry(d, oldVars, i);
      if bs.None? {
        CopyFilesStops(d, oldVars, newVars, i + 1, n);
        return;
      }
      writes := writes + [Request(FileEntryAt(newVars, i), bs.value)];
      i := i + 1;
    }
  }

  /** Once copyFiles has stopped, further entries add nothing. */
  lemma {:induction false} CopyFilesStops(d: seq<byte>, oldVars: int, newVars: int, i: nat, n: nat)
    requires 0 < i <= n
    requires |CopyFiles(d, oldVars, newVars, i - 1)| == i - 1
    requires OldFileEntry(d, oldVars, i - 1).None?
    ensures CopyFiles(d, oldVars, newVars, n) == CopyFiles(d, oldVars, newVars, i - 1)
    decreases n - i
  {
    if i < n {
      CopyFilesStops(d, oldVars, newVars, i, n - 1);
    }
  }

  // ------------------------------------------------------------- CopyData

  /**
   * Column j of new row i once the Variables in done have been written:
   * what Slot holds there if its owner is among them, zeros otherwise.
   */
  function Partial(d: seq<byte>, oldMap: map<VarKey, int>, newMap: map<VarKey, int>, keys: seq<VarKey>,
                   base: int, readStride: int, i: int, done: set<VarKey>, j: nat): (r: seq<byte>)
    requires j < |keys|
    ensures |r| == 8
  {
    if keys[j] in done then Slot(d, oldMap, newMap, keys, base, readStride, i, j) else Zeros(8)
  }

  /**
   * One row of CopyData: a buffer of usedVars doubles, each stored Variable's
   * value from row i put at its column of the new map; a Variable the new
   * map lacks ends the copy (the null start in the source).
   */
  method CopyRow(d: seq<byte>, oldMap: map<VarKey, int>, newMap: map<VarKey, int>, ghost keys: seq<VarKey>,
                 usedVars: nat, base: int, readStride: int, i: int) returns (row: Option<seq<byte>>)
    requires newMap == ColumnsOf(keys, base) && |keys| == usedVars
    ensures row.None? <==> exists k :: k in oldMap && k !in newMap
    ensures row.Some? ==> row.value == Row(d, oldMap, newMap, keys, base, readStride, i, |keys|)
  {
    var buffer := EmptyRow(d, oldMap, newMap, keys, usedVars, base, readStride, i);
    var pending := oldMap.Keys;
    ghost var done: set<VarKey> := {};
    while pending != {}
      invariant pending + done == oldMap.Keys && pending !! done
      invariant done <= newMap.Keys
      invariant |buffer| == 8 * |keys|
      invariant forall j :: 0 <= j < |keys| ==>
                  buffer[8 * j..8 * j + 8] == Partial(d, oldMap, newMap, keys, base, readStride, i, done, j)
      decreases |pending|
    {
      var k :| k in pending;
      if k !in newMap {
        return None;
      }
      buffer := FillColumn(d, oldMap, newMap, keys, base, readStride, i, done, k, buffer);
      pending, done := pending - {k}, done + {k};
    }
    FinishRow(d, oldMap, newMap, keys, base, readStride, i, done, buffer);
    return Some(buffer);
  }

  /** The zeroed buffer a row starts from: no column written yet. */
  method EmptyRow(d: seq<byte>, oldMap: map<VarKey, int>, newMap: map<VarKey, int>, ghost keys: seq<VarKey>,
                  usedVars: nat, base: int, readStride: int, i: int) returns (buffer: seq<byte>)
    requires |keys| == usedVars
    ensures |buffer| == 8 * |keys|
    ensures forall j :: 0 <= j < |keys| ==>
              buffer[8 * j..8 * j + 8] == Partial(d, oldMap, newMap, keys, base, readStride, i, {}, j)
  {
    buffer := Zeros(8 * usedVars);
    forall j | 0 <= j < |keys|
      ensures buffer[8 * j..8 * j + 8] == Partial(d, oldMap, newMap, keys, base, readStride, i, {}, j)
    {
      assert buffer[8 * j..8 * j + 8] == Zeros(8);
    }
  }

  /** getData for Variable k and row i, put into the buffer at k's new column. */
  method FillColumn(d: seq<byte>, oldMap: map<VarKey, int>, newMap: map<VarKey, int>, ghost keys: seq<VarKey>,
                    base: int, readStride: int, i: int, ghost done: set<VarKey>, k: VarKey, buffer: seq<byte>)
    returns (next: seq<byte>)
    requires newMap == ColumnsOf(keys, base)
    requires k in oldMap && k in newMap && k !in done
    requires |buffer| == 8 * |keys|
    requires forall j :: 0 <= j < |keys| ==>
               buffer[8 * j..8 * j + 8] == Partial(d, oldMap, newMap, keys, base, readStride, i, done, j)
    ensures |next| == |buffer|
    ensures forall j :: 0 <= j < |keys| ==>
              next[8 * j..8 * j + 8] == Partial(d, oldMap, newMap, keys, base, readStride, i, done + {k}, j)
  {
    var bits := ReadDouble(d, oldMap[k] + readStride * i);
    var c := ColumnOf(newMap, keys, base, k);
    var put := PutDouble(buffer, newMap[k] - base, bits);
    FillStep(d, oldMap, newMap, keys, base, readStride, i, done, k, c, buffer, put.value);
    next := put.value;
  }

  /** Where a Variable of the new map keeps its column: the copied entry it came from. */
  method ColumnOf(newMap: map<VarKey, int>, ghost keys: seq<VarKey>, base: int, k: VarKey) returns (j: nat)
    requires newMap == ColumnsOf(keys, base) && k in newMap
    ensures j < |keys| && keys[j] == k && newMap[k] == base + 8 * j
  {
    ColumnsOfKeys(keys, base, k);
    ghost var w :| 0 <= w < |keys| && keys[w] == k && ColumnsOf(keys, base)[k] == base + 8 * w
                   && forall x :: w < x < |keys| ==> keys[x] != k;
    j := (newMap[k] - base) / 8;
  }

  /** Writing Variable k's double at its column fills exactly that column. */
  lemma FillStep(d: seq<byte>, oldMap: map<VarKey, int>, newMap: map<VarKey, int>, keys: seq<VarKey>,
                 base: int, readStride: int, i: int, done: set<VarKey>, k: VarKey, c: nat,
                 buffer: seq<byte>, next: seq<byte>)
    requires newMap == ColumnsOf(keys, base)
    requires k in oldMap && k in newMap && k !in done
    requires c < |keys| && keys[c] == k && newMap[k] == base + 8 * c
    requires |buffer| == 8 * |keys|
    requires forall j :: 0 <= j < |keys| ==>
               buffer[8 * j..8 * j + 8] == Partial(d, oldMap, newMap, keys, base, readStride, i, done, j)
    requires |next| == |buffer| && next[..8 * c] == buffer[..8 * c] && next[8 * c + 8..] == buffer[8 * c + 8..]
    requires next[8 * c..8 * c + 8] == BigEndian(ReadDouble(d, oldMap[k] + readStride * i), 8)
    ensures forall j :: 0 <= j < |keys| ==>
              next[8 * j..8 * j + 8] == Partial(d, oldMap, newMap, keys, base, readStride, i, done + {k}, j)
  {
    forall j | 0 <= j < |keys|
      ensures next[8 * j..8 * j + 8] == Partial(d, oldMap, newMap, keys, base, readStride, i, done + {k}, j)
    {
      FillStepColumn(d, oldMap, newMap, keys, base, readStride, i, done, k, c, buffer, next, j);
    }
  }

  /** FillStep for one column j. */
  lemma FillStepColumn(d: seq<byte>, oldMap: map<VarKey, int>, newMap: map<VarKey, int>, keys: seq<VarKey>,
                       base: int, readStride: int, i: int, done: set<VarKey>, k: VarKey, c: nat,
                       buffer: seq<byte>, next: seq<byte>, j: nat)
    requires k in oldMap && k in newMap && k !in done
    requires c < |keys| && keys[c] == k && newMap[k] == base + 8 * c && j < |keys|
    requires |buffer| == 8 * |keys|
    requires buffer[8 * j..8 * j + 8] == Partial(d, oldMap, newMap, keys, base, readStride, i, done, j)
    requires |next| == |buffer| && next[..8 * c] == buffer[..8 * c] && next[8 * c + 8..] == buffer[8 * c + 8..]
    requires next[8 * c..8 * c + 8] == BigEndian(ReadDouble(d, oldMap[k] + readStride * i), 8)
    ensures next[8 * j..8 * j + 8] == Partial(d, oldMap, newMap, keys, base, readStride, i, done + {k}, j)
  {
    if j == c {
      assert Owns(oldMap, newMap, base, k, c);
    } else {
      OtherBlock(buffer, next, c, j);
      if keys[j] == k {
        assert !Owns(oldMap, newMap, base, keys[j], j);
      }
    }
  }

  /** Once every stored Variable has been written, the buffer is the row. */
  lemma FinishRow(d: seq<byte>, oldMap: map<VarKey, int>, newMap: map<VarKey, int>, keys: seq<VarKey>,
                  base: int, readStride: int, i: int, done: set<VarKey>, buffer: seq<byte>)
    requires done == oldMap.Keys && |buffer| == 8 * |keys|
    requires forall j :: 0 <= j < |keys| ==>
               buffer[8 * j..8 * j + 8] == Partial(d, oldMap, newMap, keys, base, readStride, i, done, j)
    ensures buffer == Row(d, oldMap, newMap, keys, base, readStride, i, |keys|)
  {
    forall j | 0 <= j < |keys|
      ensures buffer[8 * j..8 * j + 8] == Slot(d, oldMap, newMap, keys, base, readStride, i, j)
    {
      assert buffer[8 * j..8 * j + 8] == Partial(d, oldMap, newMap, keys, base, readStride, i, done, j);
      if keys[j] !in done {
        assert keys[j] !in oldMap;
        assert Slot(d, oldMap, newMap, keys, base, readStride, i, j) == Zeros(8);
      }
    }
    RowFromSlots(d, oldMap, newMap, keys, base, readStride, i, |keys|, buffer);
  }

  /** A buffer whose every column is that column's slot is the row. */
  lemma RowFromSlots(d: seq<byte>, oldMap: map<VarKey, int>, newMap: map<VarKey, int>,
                     keys: seq<VarKey>, base: int, readStride: int, i: int, n: nat, buffer: seq<byte>)
    requires n <= |keys| && |buffer| == 8 * n
    requires forall j :: 0 <= j < n ==>
               buffer[8 * j..8 * j + 8] == Slot(d, oldMap, newMap, keys, base, readStride, i, j)
    ensures buffer == Row(d, oldMap, newMap, keys, base, readStride, i, n)
  {
    var row := Row(d, oldMap, newMap, keys, base, readStride, i, n);
    forall j | 0 <= j < n
      ensures buffer[8 * j..8 * j + 8] == row[8 * j..8 * j + 8]
    {
      RowSlot(d, oldMap, newMap, keys, base, readStride, i, n, j);
    }
    SameBlocks(buffer, row, n);
  }

  /** Two buffers of n doubles that agree double by double are equal. */
  lemma SameBlocks(a: seq<byte>, b: seq<byte>, n: nat)
    requires |a| == |b| == 8 * n
    requires forall j :: 0 <= j < n ==> a[8 * j..8 * j + 8] == b[8 * j..8 * j + 8]
    ensures a == b
  {
    forall x | 0 <= x < 8 * n
      ensures a[x] == b[x]
    {
      var j := x / 8;
      assert a[8 * j..8 * j + 8][x - 8 * j] == b[8 * j..8 * j + 8][x - 8 * j];
    }
  }

  /** A put into double c leaves every other double of the buffer as it was. */
  lemma OtherBlock(buffer: seq<byte>, next: seq<byte>, c: nat, j: nat)
    requires |next| == |buffer| && 8 * c + 8 <= |buffer| && 8 * j + 8 <= |buffer| && j != c
    requires next[..8 * c] == buffer[..8 * c] && next[8 * c + 8..] == buffer[8 * c + 8..]
    ensures next[8 * j..8 * j + 8] == buffer[8 * j..8 * j + 8]
  {
    if j < c {
      assert next[8 * j..8 * j + 8] == next[..8 * c][8 * j..8 * j + 8];
      assert buffer[8 * j..8 * j + 8] == buffer[..8 * c][8 * j..8 * j + 8];
    } else {
      assert next[8 * j..8 * j + 8] == next[8 * c + 8..][8 * j - 8 * c - 8..8 * j - 8 * c];
      assert buffer[8 * j..8 * j + 8] == buffer[8 * c + 8..][8 * j - 8 * c - 8..8 * j - 8 * c];
    }
  }

  /**
   * CopyData: for each of the first usedFiles rows, the row buffer built by
   * CopyRow and queued at the new row start. A negative buffer size or a
   * Variable missing from the new map ends the copy.
   */
  method CopyDataLoop(d: seq<byte>, oldMap: map<VarKey, int>, newMap: map<VarKey, int>, ghost keys: seq<VarKey>,
                      base: int, stride: int, readStride: int, usedVars: int, usedFiles: int)
    returns (rows: Option<seq<Request>>)
    requires newMap == ColumnsOf(keys, base) && |keys| == Nat(usedVars)
    ensures rows.None? <==> CopyFails(oldMap, newMap, usedVars, usedFiles)
    ensures rows.Some? ==> rows.value == CopyRows(d, oldMap, newMap, keys, base, stride, readStride, Nat(usedFiles))
  {
    var writes: seq<Request> := [];
    var i := 0;
    while i < usedFiles
      invariant 0 <= i <= Nat(usedFiles)
      invariant writes == CopyRows(d, oldMap, newMap, keys, base, stride, readStride, i)
      invariant i > 0 ==> usedVars >= 0 && forall k :: k in oldMap ==> k in newMap
    {
      if usedVars < 0 {
        return None;
      }
      var row := CopyRow(d, oldMap, newMap, keys, usedVars, base, readStride, i);
      if row.None? {
        return None;
      }
      writes := AppendRow(d, oldMap, newMap, keys, base, stride, readStride, i, writes, row.value);
      i := i + 1;
    }
    return Some(writes);
  }

  /** Row i queued at its start in the new file, after the rows before it. */
  method AppendRow(d: seq<byte>, oldMap: map<VarKey, int>, newMap: map<VarKey, int>, ghost keys: seq<VarKey>,
                   base: int, stride: int, readStride: int, i: nat, writes: seq<Request>, row: seq<byte>)
    returns (next: seq<Request>)
    requires writes == CopyRows(d, oldMap, newMap, keys, base, stride, readStride, i)
    requires row == Row(d, oldMap, newMap, keys, base, readStride, i, |keys|)
    ensures next == CopyRows(d, oldMap, newMap, keys, base, stride, readStride, i + 1)
  {
    next := writes + [Request(base + i * stride, row)];
  }

  // ------------------------------------------------------- the temporary file

  /** The temporary file's worker catching up with its queue before the switch to the new file. */
  method Drain(disk: seq<byte>, queue: seq<Request>) returns (d: seq<byte>)
    ensures d == ApplyAll(disk, queue)
  {
    d := disk;
    var pending := queue;
    while |pending| > 0
      invariant ApplyAll(d, pending) == ApplyAll(disk, queue)
      decreases |pending|
    {
      d := Write(d, pending[0].location, pending[0].data);
      pending := pending[1..];
    }
  }

  // ------------------------------------------------------------ the copy

  /**
   * The try block of grow after writeNewHeader: the new file gets zeroed
   * tables, copyOldRecords and CopyData queue their writes to it, and the
   * temporary worker applies them before ChangePrimaryFile switches over.
   * None when a step throws (the exception is caught in grow). CopyData is
   * handed oldOffset but reads through getData at the stride grow has just
   * set, so the rows are read at 8 * newVars.
   */
  method GrowCopy(ghost s: Store, d: seq<byte>, oldVars: int, oldOffset: int, oldMap: map<VarKey, int>,
                  usedVars: int, usedFiles: int, newVars: int, newFiles: int)
    returns (newDisk: Option<seq<byte>>, newMap: map<VarKey, int>)
    requires Sound(s) && s.availableVars != 0 && s.availableFiles != 0
    requires d == Contents(s) && oldVars == s.availableVars && oldOffset == s.offset && oldMap == s.variableInfo
    requires usedVars == s.usedVars && usedFiles == s.usedFiles && (newVars, newFiles) == NewSizes(s)
    ensures newDisk.None? <==> GrowFails(s)
    ensures newDisk.Some? ==> newVars >= 0 && newFiles >= 0 && newDisk.value == GrownDisk(s, newVars, newFiles)
    ensures newDisk.Some? ==> newMap == NewColumns(s, newVars, newFiles)
  {
    if newVars < 0 || newFiles < 0 {
      return None, map[];
    }
    var base := DataStart(newVars, newFiles);
    var header := [Request(0, EncodeHeader(Header(newVars, usedVars, newFiles, usedFiles)))];
    var varWrites, tempMap := CopyVariablesLoop(d, Nat(usedVars), base);
    var fileWrites := CopyFilesLoop(d, oldVars, newVars, Nat(usedFiles));
    ghost var keys := EntryKeys(d, Nat(usedVars));
    var rows := CopyDataLoop(d, oldMap, tempMap, keys, base, 8 * newVars, 8 * newVars, usedVars, usedFiles);
    if rows.None? {
      return None, tempMap;
    }
    var temp := Drain(Zeros(VariableBinarySize * newVars + FileBinarySize * newFiles),
                      header + varWrites + fileWrites + rows.value);
    return Some(temp), tempMap;
  }

  /** grow after the worker is drained, on the store's value. */
  method GrowDrained(ghost s: Store, t: Store) returns (r: Store, err: Option<Exception>)
    requires Sound(s) && t == Drained(s)
    ensures (r, err) == Grown(s)
  {
    if t.availableVars == 0 || t.availableFiles == 0 {
      return t, Some(Arithmetic);
    }
    var newVars, newFiles := ChooseSizes(s, t);
    var newDisk, newMap := GrowCopy(s, t.disk, t.availableVars, t.offset, t.variableInfo, t.usedVars, t.usedFiles,
                                    newVars, newFiles);
    r := t.(availableVars := newVars, availableFiles := newFiles, offset := 8 * newVars);
    if newDisk.Some? {
      r := r.(disk := newDisk.value, variableInfo := newMap);
    }
    err := None;
    GrownFromCopy(s, newVars, newFiles, newDisk, newMap);
  }

  /** The test of grow on the int quotients used/available. */
  method ChooseSizes(ghost s: Store, t: Store) returns (newVars: int, newFiles: int)
    requires t == Drained(s) && t.availableVars != 0 && t.availableFiles != 0
    ensures s.availableVars != 0 && s.availableFiles != 0 && (newVars, newFiles) == NewSizes(s)
  {
    LoadedIsQuotient(t.usedVars, t.availableVars);
    LoadedIsQuotient(t.usedFiles, t.availableFiles);
    newVars := if Quot(t.usedVars, t.availableVars) >= 1 then GrownVars(t.availableVars) else t.availableVars;
    newFiles := if Quot(t.usedFiles, t.availableFiles) >= 1 then 2 * t.availableFiles else t.availableFiles;
  }

  /** Grown on a store with both tables non-empty, given what the copy produced. */
  lemma GrownFromCopy(s: Store, newVars: int, newFiles: int, newDisk: Option<seq<byte>>, newMap: map<VarKey, int>)
    requires Sound(s) && s.availableVars != 0 && s.availableFiles != 0 && (newVars, newFiles) == NewSizes(s)
    requires newDisk.None? <==> GrowFails(s)
    requires newDisk.Some? ==> newVars >= 0 && newFiles >= 0 && newDisk.value == GrownDisk(s, newVars, newFiles)
    requires newDisk.Some? ==> newMap == NewColumns(s, newVars, newFiles)
    ensures var resized := Drained(s).(availableVars := newVars, availableFiles := newFiles, offset := 8 * newVars);
            Grown(s) == if newDisk.None? then (resized, None)
                        else (resized.(disk := newDisk.value, variableInfo := newMap), None)
  {
  }
}
