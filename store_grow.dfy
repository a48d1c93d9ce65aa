/**
 * grow (src/binaryUtil/BinaryParser.java): the store moved into a larger file.
 * The worker is drained; a table grows when it is full; a new file receives
 * the new header, the variable entries with new column starts, the file
 * entries at their new places and the data rows rearranged by column.
 * An exception inside the copy leaves the store on the old file with the
 * new sizes already set.
 */
module StoreGrow {
  import opened Wrappers
  import opened Thrown
  import opened JavaStrings
  import opened Variables
  import opened Layout
  import opened StoreState

  /** Java's int division, which truncates toward zero. */
  function Quot(a: int, b: int): int
    requires b != 0
  {
    var q := (if a < 0 then -a else a) / (if b < 0 then -b else b);
    if (a < 0) != (b < 0) then -q else q
  }

  /**
   * used/available >= 0.85 is taken on an int quotient, which reaches 0.85
   * only when it is at least 1: both of one sign and used at least as large.
   */
  predicate Loaded(used: int, available: int) {
    used != 0 && (used < 0) == (available < 0)
    && (if used < 0 then -used else used) >= (if available < 0 then -available else available)
  }

  /** Loaded is the test on the truncated quotient. */
  lemma LoadedIsQuotient(used: int, available: int)
    requires available != 0
    ensures Loaded(used, available) <==> Quot(used, available) >= 1
  {
    var a := if used < 0 then -used else used;
    var b := if available < 0 then -available else available;
    assert a / b >= 1 <==> a >= b by {
      if a >= b {
        assert a / b >= b / b;
      }
    }
  }

  /** In a table of positive size, loaded means full. */
  lemma LoadedIffFull(used: int, available: int)
    requires 0 <= used <= available && 0 < available
    ensures Loaded(used, available) <==> used == available
  {
  }

  /** (int)(availableVars * 1.25): a quarter more, rounded toward zero. */
  function GrownVars(availableVars: int): (r: int)
    ensures availableVars >= 4 ==> availableVars < r
    ensures availableVars >= 0 ==> 4 * r <= 5 * availableVars < 4 * r + 4
  {
    Quot(5 * availableVars, 4)
  }

  lemma GrownVarsExample()
    ensures GrownVars(150) == 187 && GrownVars(187) == 233
  {
  }

  // -------------------------------------------------------- copyVariables

  /** Entry i of the old table as written to the new one: bytes 0..102 as they were, then the new start. */
  function CopiedEntry(disk: seq<byte>, i: nat, base: int): seq<byte>
    requires VarEntryAt(i + 1) <= |disk|
  {
    disk[VarEntryAt(i)..VarEntryAt(i) + 102] + EncodeLong(base + 8 * i)
  }

  /** The keys of the first n entries of the old variable table. */
  function EntryKeys(disk: seq<byte>, n: nat): (r: seq<VarKey>)
    requires n == 0 || VarEntryAt(n) <= |disk|
    ensures |r| == n
  {
    if n == 0 then [] else EntryKeys(disk, n - 1) + [EntryKey(disk, n - 1)]
  }

  /**
   * The map copyVariables builds: the Variable of entry i at start base + 8i,
   * a later equal Variable replacing an earlier one.
   */
  function ColumnsOf(keys: seq<VarKey>, base: int): map<VarKey, int> {
    if |keys| == 0 then map[]
    else ColumnsOf(keys[..|keys| - 1], base)[keys[|keys| - 1] := base + 8 * (|keys| - 1)]
  }

  /** The writes copyVariables queues for the first n entries. */
  function CopyVariables(disk: seq<byte>, n: nat, base: int): (r: seq<Request>)
    requires n == 0 || VarEntryAt(n) <= |disk|
    ensures |r| == n
    ensures forall i :: 0 <= i < n ==> r[i] == Request(VarEntryAt(i), CopiedEntry(disk, i, base))
  {
    if n == 0 then []
    else CopyVariables(disk, n - 1, base) + [Request(VarEntryAt(n - 1), CopiedEntry(disk, n - 1, base))]
  }

  /** The new map gives each Variable its own column among the first |keys|, so the invariant holds again. */
  lemma {:induction false} ColumnsOfValid(keys: seq<VarKey>, base: int)
    ensures Columns(ColumnsOf(keys, base), base, |keys|)
  {
    if |keys| > 0 {
      var n := |keys|;
      ColumnsOfValid(keys[..n - 1], base);
      var m := ColumnsOf(keys[..n - 1], base);
      var k := keys[n - 1];
      var m2 := m[k := base + 8 * (n - 1)];
      assert m2 == ColumnsOf(keys, base);
      forall k1, k2 | k1 in m2 && k2 in m2 && m2[k1] == m2[k2]
        ensures k1 == k2
      {
        if k1 != k && k2 != k {
          assert m[k1] == m[k2];
        }
      }
    }
  }

  /**
   * Which Variables the new map holds, and where: exactly the copied keys,
   * each at the column of the last entry carrying it.
   */
  lemma {:induction false} ColumnsOfMembers(keys: seq<VarKey>, base: int, k: VarKey)
    ensures k in ColumnsOf(keys, base) <==> k in keys
  {
    if |keys| > 0 {
      var front := keys[..|keys| - 1];
      ColumnsOfMembers(front, base, k);
      assert k in keys <==> k in front || k == keys[|keys| - 1];
    }
  }

  lemma {:induction false} ColumnsOfKeys(keys: seq<VarKey>, base: int, k: VarKey)
    ensures k in ColumnsOf(keys, base) <==> k in keys
    ensures k in ColumnsOf(keys, base) ==>
              exists j :: 0 <= j < |keys| && keys[j] == k && ColumnsOf(keys, base)[k] == base + 8 * j
                          && forall i :: j < i < |keys| ==> keys[i] != k
  {
    ColumnsOfMembers(keys, base, k);
    if |keys| > 0 {
      var n := |keys|;
      var front := keys[..n - 1];
      ColumnsOfKeys(front, base, k);
      var m := ColumnsOf(keys, base);
      if keys[n - 1] == k {
        assert m[k] == base + 8 * (n - 1);
      } else if k in m {
        var j :| 0 <= j < n - 1 && front[j] == k && ColumnsOf(front, base)[k] == base + 8 * j
                 && forall i :: j < i < n - 1 ==> front[i] != k;
        assert m[k] == base + 8 * j && keys[j] == k;
      }
    }
  }

  // ------------------------------------------------------------ copyFiles

  /** The 62 bytes of old file entry i. */
  function OldFileEntry(disk: seq<byte>, availableVars: int, i: int): Option<seq<byte>> {
    ReadAt(disk, FileEntryAt(availableVars, i), FileBinarySize)
  }

  /**
   * copyFiles over the first n entries: each old entry copied verbatim to its
   * place after the new variable table, stopping quietly at the first entry
   * that cannot be read.
   */
  function CopyFiles(disk: seq<byte>, oldVars: int, newVars: int, n: nat): (r: seq<Request>)
    ensures |r| <= n
    ensures forall i :: 0 <= i < |r| ==>
              OldFileEntry(disk, oldVars, i).Some?
              && r[i] == Request(FileEntryAt(newVars, i), OldFileEntry(disk, oldVars, i).value)
    ensures |r| < n ==> OldFileEntry(disk, oldVars, |r|).None?
  {
    if n == 0 then []
    else
      var prev := CopyFiles(disk, oldVars, newVars, n - 1);
      if |prev| < n - 1 then prev
      else match OldFileEntry(disk, oldVars, n - 1)
        case None => prev
        case Some(bs) => prev + [Request(FileEntryAt(newVars, n - 1), bs)]
  }

  // ------------------------------------------------------------- CopyData

  /** Variable k owns column j of the new rows: it was stored before and the new map puts it there. */
  predicate Owns(oldMap: map<VarKey, int>, newMap: map<VarKey, int>, base: int, k: VarKey, j: int) {
    k in oldMap && k in newMap && newMap[k] == base + 8 * j
  }

  /**
   * Column j of new row i: when the Variable of copied entry j owns the
   * column, its double from row i (read at its old start plus i times the
   * stride); zeros otherwise. Only the Variable of entry j can own column j
   * (SlotOfOwner), so this is what CopyData's walk over the old map leaves there.
   */
  function Slot(disk: seq<byte>, oldMap: map<VarKey, int>, newMap: map<VarKey, int>, keys: seq<VarKey>,
                base: int, stride: int, i: int, j: nat): (r: seq<byte>)
    requires j < |keys|
    ensures |r| == 8
  {
    if Owns(oldMap, newMap, base, keys[j], j) then BigEndian(ReadDouble(disk, oldMap[keys[j]] + stride * i), 8)
    else Zeros(8)
  }

  /** The first n columns of new row i. */
  function Row(disk: seq<byte>, oldMap: map<VarKey, int>, newMap: map<VarKey, int>, keys: seq<VarKey>,
               base: int, stride: int, i: int, n: nat): (r: seq<byte>)
    requires n <= |keys|
    ensures |r| == 8 * n
  {
    if n == 0 then []
    else Row(disk, oldMap, newMap, keys, base, stride, i, n - 1) + Slot(disk, oldMap, newMap, keys, base, stride, i, n - 1)
  }

  lemma PrefixSlice(a: seq<byte>, b: seq<byte>, lo: nat, hi: nat)
    requires lo <= hi <= |a|
    ensures (a + b)[lo..hi] == a[lo..hi]
  {
  }

  /** Column j of a row is that column's slot. */
  lemma {:induction false} RowSlot(disk: seq<byte>, oldMap: map<VarKey, int>, newMap: map<VarKey, int>,
                                   keys: seq<VarKey>, base: int, stride: int, i: int, n: nat, j: nat)
    requires j < n <= |keys|
    ensures Row(disk, oldMap, newMap, keys, base, stride, i, n)[8 * j..8 * j + 8]
            == Slot(disk, oldMap, newMap, keys, base, stride, i, j)
  {
    var prev := Row(disk, oldMap, newMap, keys, base, stride, i, n - 1);
    var slot := Slot(disk, oldMap, newMap, keys, base, stride, i, n - 1);
    assert Row(disk, oldMap, newMap, keys, base, stride, i, n) == prev + slot;
    if j < n - 1 {
      RowSlot(disk, oldMap, newMap, keys, base, stride, i, n - 1, j);
      PrefixSlice(prev, slot, 8 * j, 8 * j + 8);
    } else {
      SuffixSlice(prev, slot);
    }
  }

  lemma SuffixSlice(a: seq<byte>, b: seq<byte>)
    ensures (a + b)[|a|..|a| + |b|] == b
  {
  }

  /**
   * The writes of CopyData for the first n rows, one column per copied entry,
   * written at the new stride; each old value is read at its old start plus
   * readStride times the row number.
   */
  function CopyRows(disk: seq<byte>, oldMap: map<VarKey, int>, newMap: map<VarKey, int>, keys: seq<VarKey>,
                    base: int, stride: int, readStride: int, n: nat): (r: seq<Request>)
    ensures |r| == n
    ensures forall i :: 0 <= i < n ==>
              r[i] == Request(base + i * stride, Row(disk, oldMap, newMap, keys, base, readStride, i, |keys|))
  {
    if n == 0 then []
    else CopyRows(disk, oldMap, newMap, keys, base, stride, readStride, n - 1)
         + [Request(base + (n - 1) * stride, Row(disk, oldMap, newMap, keys, base, readStride, n - 1, |keys|))]
  }

  /**
   * CopyData throws (and grow gives up) when there is a row to copy and either
   * the row buffer's size is negative or a stored Variable is missing from the new map.
   */
  predicate CopyFails(oldMap: map<VarKey, int>, newMap: map<VarKey, int>, usedVars: int, usedFiles: int) {
    usedFiles > 0 && (usedVars < 0 || exists k :: k in oldMap && k !in newMap)
  }

  // ----------------------------------------------------------------- grow

  /** The sizes writeNewHeader chooses: a full table grows, vars by a quarter, files twofold. */
  function NewSizes(s: Store): (r: (int, int))
    requires s.availableVars != 0 && s.availableFiles != 0
  {
    (if Loaded(s.usedVars, s.availableVars) then GrownVars(s.availableVars) else s.availableVars,
     if Loaded(s.usedFiles, s.availableFiles) then 2 * s.availableFiles else s.availableFiles)
  }

  /** The map grow installs: the re-read variable table with columns after the new tables. */
  function NewColumns(s: Store, newVars: int, newFiles: int): map<VarKey, int>
    requires Sound(s)
  {
    ColumnsOf(EntryKeys(Contents(s), Nat(s.usedVars)), DataStart(newVars, newFiles))
  }

  /**
   * The writes queued for the new file, in order: header, variable table,
   * file table, rows. CopyData reads the old rows through getData after
   * grow has already set the new stride, so row i is read at each Variable's
   * old start plus i times the NEW stride (AsWrittenCopyRows); the old stride
   * it is passed as oldOffset goes unread (CorrectedCopyRows).
   */
  ghost function GrowWrites(s: Store, newVars: int, newFiles: int): seq<Request>
    requires Sound(s)
  {
    var d := Contents(s);
    var base := DataStart(newVars, newFiles);
    [Request(0, EncodeHeader(Header(newVars, s.usedVars, newFiles, s.usedFiles)))]
    + CopyVariables(d, Nat(s.usedVars), base)
    + CopyFiles(d, s.availableVars, newVars, Nat(s.usedFiles))
    + CopyRows(d, s.variableInfo, NewColumns(s, newVars, newFiles), EntryKeys(d, Nat(s.usedVars)), base,
               8 * newVars, 8 * newVars, Nat(s.usedFiles))
  }

  /** The file grow leaves behind: zeroed tables of the new sizes with the copy's writes applied. */
  ghost function GrownDisk(s: Store, newVars: nat, newFiles: nat): seq<byte>
    requires Sound(s)
  {
    ApplyAll(Zeros(VariableBinarySize * newVars + FileBinarySize * newFiles), GrowWrites(s, newVars, newFiles))
  }

  /** Whether the copy gives up: a negative table size or a failing CopyData. */
  predicate GrowFails(s: Store)
    requires Sound(s) && s.availableVars != 0 && s.availableFiles != 0
  {
    var (av, af) := NewSizes(s);
    av < 0 || af < 0
    || CopyFails(s.variableInfo, NewColumns(s, av, af), s.usedVars, s.usedFiles)
  }

  /**
   * grow. The division by a zero table size throws out of grow; every other
   * failure is caught inside it, after the new sizes and stride are set and
   * the worker drained, with the old file and map kept. On success the file
   * is the new one: zeros for both tables, then every queued write applied.
   */
  ghost function Grown(s: Store): (r: (Store, Option<Exception>))
    requires Sound(s)
    ensures r.1.Some? <==> s.availableVars == 0 || s.availableFiles == 0
    ensures r.1.Some? ==> r.1.value == Arithmetic
    ensures r.0.queue == [] && r.0.usedVars == s.usedVars && r.0.usedFiles == s.usedFiles
    ensures r.0.fileInfo == s.fileInfo && r.0.loggedInconsistencies == s.loggedInconsistencies
  {
    var drained := Drained(s);
    if s.availableVars == 0 || s.availableFiles == 0 then (drained, Some(Arithmetic))
    else
      var (av, af) := NewSizes(s);
      var resized := drained.(availableVars := av, availableFiles := af, offset := 8 * av);
      if GrowFails(s) then (resized, None)
      else
        (resized.(disk := GrownDisk(s, av, af),
                  variableInfo := NewColumns(s, av, af)), None)
  }

  // ----------------------------------------------------------- properties

  /** The sizes writeNewHeader picks for a valid store. */
  lemma NewSizesOfValid(s: Store)
    requires Valid(s)
    ensures NewSizes(s) == (if s.usedVars == s.availableVars then GrownVars(s.availableVars) else s.availableVars,
                            if s.usedFiles == s.availableFiles then 2 * s.availableFiles else s.availableFiles)
  {
    LoadedIffFull(s.usedVars, s.availableVars);
    LoadedIffFull(s.usedFiles, s.availableFiles);
  }

  /** A table grows only when it is full: by a quarter for variables, twofold for files. */
  lemma GrowSizes(s: Store)
    requires Valid(s)
    ensures var r := Grown(s).0;
            r.availableVars == (if s.usedVars == s.availableVars then GrownVars(s.availableVars) else s.availableVars)
            && r.availableFiles == (if s.usedFiles == s.availableFiles then 2 * s.availableFiles else s.availableFiles)
            && r.offset == 8 * r.availableVars
  {
    LoadedIffFull(s.usedVars, s.availableVars);
    LoadedIffFull(s.usedFiles, s.availableFiles);
  }

  /** With no file stored there is no row to copy, so grow cannot give up. */
  lemma GrowWithoutFilesSucceeds(s: Store)
    requires Valid(s) && s.usedFiles == 0
    ensures !GrowFails(s)
  {
  }

  /** Every write lies inside the file once it has been applied. */
  lemma {:induction false} ApplyAllCovers(disk: seq<byte>, queue: seq<Request>, i: nat)
    requires i < |queue| && queue[i].location >= 0 && |queue[i].data| > 0
    ensures |ApplyAll(disk, queue)| >= queue[i].location + |queue[i].data|
    decreases |queue|
  {
    if i > 0 {
      ApplyAllCovers(Write(disk, queue[0].location, queue[0].data), queue[1..], i - 1);
    }
  }

  /** A grow that does not give up leaves a valid store with room in the full table. */
  lemma GrowKeepsValid(s: Store)
    requires Valid(s) && !GrowFails(s)
    ensures Valid(Grown(s).0)
    ensures Grown(s).0.usedVars < Grown(s).0.availableVars || s.usedVars < s.availableVars
    ensures Grown(s).0.usedFiles < Grown(s).0.availableFiles || s.usedFiles < s.availableFiles
  {
    GrowSizes(s);
    var (av, af) := NewSizes(s);
    var base := DataStart(av, af);
    ColumnsOfValid(EntryKeys(Contents(s), s.usedVars), base);
    var r := Grown(s).0;
    if s.usedVars > 0 {
      var w := GrowWrites(s, av, af);
      var copied := CopyVariables(Contents(s), s.usedVars, base);
      assert w[s.usedVars] == copied[s.usedVars - 1];
      ApplyAllCovers(Zeros(VariableBinarySize * av + FileBinarySize * af), w, s.usedVars);
    }
  }

  /** The file entries are copied verbatim to their new places, as far as the old table can be read. */
  lemma GrowCopiesFileEntries(s: Store, i: nat)
    requires Valid(s) && !GrowFails(s)
    requires i < s.usedFiles && OldFileEntry(Contents(s), s.availableVars, i).Some?
    ensures var (av, af) := NewSizes(s);
            Request(FileEntryAt(av, i), OldFileEntry(Contents(s), s.availableVars, i).value) in GrowWrites(s, av, af)
  {
    var (av, af) := NewSizes(s);
    var f := CopyFiles(Contents(s), s.availableVars, av, s.usedFiles);
    assert i < |f|;
    assert f[i] in f;
  }

  // ------------------------------------------------ the stride CopyData reads at

  /** The only Variable that can own column j of the new map is the one of copied entry j. */
  lemma SlotOfOwner(disk: seq<byte>, oldMap: map<VarKey, int>, keys: seq<VarKey>,
                    base: int, readStride: int, i: int, j: int, k: VarKey)
    requires Owns(oldMap, ColumnsOf(keys, base), base, k, j)
    ensures 0 <= j < |keys| && keys[j] == k
    ensures Slot(disk, oldMap, ColumnsOf(keys, base), keys, base, readStride, i, j)
            == BigEndian(ReadDouble(disk, oldMap[k] + readStride * i), 8)
  {
    ColumnsOfKeys(keys, base, k);
  }

  /** Write w goes to location and holds, index bytes into its row, the double with bits value. */
  predicate RowHolds(w: Request, location: int, index: int, value: nat) {
    w.location == location && 0 <= index && index + 8 <= |w.data|
    && w.data[index..index + 8] == BigEndian(value, 8)
  }

  /** The copied entry whose Variable owns column k of the new map. */
  lemma KeyColumnIndex(keys: seq<VarKey>, base: int, k: VarKey) returns (j: nat)
    requires k in ColumnsOf(keys, base)
    ensures j < |keys| && keys[j] == k && ColumnsOf(keys, base)[k] == base + 8 * j
  {
    ColumnsOfKeys(keys, base, k);
    j :| 0 <= j < |keys| && keys[j] == k && ColumnsOf(keys, base)[k] == base + 8 * j;
  }

  /** Row i of the copy holds, at a kept Variable's new column, its old value read at readStride. */
  lemma CopyRowsColumn(disk: seq<byte>, oldMap: map<VarKey, int>, keys: seq<VarKey>,
                       base: int, stride: int, readStride: int, n: nat, i: nat, k: VarKey)
    requires k in oldMap && k in ColumnsOf(keys, base) && i < n
    ensures RowHolds(CopyRows(disk, oldMap, ColumnsOf(keys, base), keys, base, stride, readStride, n)[i],
                     base + i * stride, ColumnsOf(keys, base)[k] - base, ReadDouble(disk, oldMap[k] + readStride * i))
  {
    var j := KeyColumnIndex(keys, base, k);
    CopyRowsOwnedSlot(disk, oldMap, ColumnsOf(keys, base), keys, base, stride, readStride, n, i, j);
  }

  /** Row i of the copy holds, at column j, the old value of the Variable owning that column. */
  lemma CopyRowsOwnedSlot(disk: seq<byte>, oldMap: map<VarKey, int>, newMap: map<VarKey, int>, keys: seq<VarKey>,
                          base: int, stride: int, readStride: int, n: nat, i: nat, j: nat)
    requires i < n && j < |keys| && Owns(oldMap, newMap, base, keys[j], j)
    ensures RowHolds(CopyRows(disk, oldMap, newMap, keys, base, stride, readStride, n)[i],
                     base + i * stride, 8 * j, ReadDouble(disk, oldMap[keys[j]] + readStride * i))
  {
    var row := Row(disk, oldMap, newMap, keys, base, readStride, i, |keys|);
    RowSlot(disk, oldMap, newMap, keys, base, readStride, i, |keys|, j);
    ColumnHolds(CopyRows(disk, oldMap, newMap, keys, base, stride, readStride, n)[i],
                base + i * stride, row, j, ReadDouble(disk, oldMap[keys[j]] + readStride * i));
  }

  /** A row request whose j-th eight bytes are a double holds that double at column index 8 * j. */
  lemma ColumnHolds(w: Request, location: int, row: seq<byte>, j: nat, value: nat)
    requires w == Request(location, row) && 8 * j + 8 <= |row| && row[8 * j..8 * j + 8] == BigEndian(value, 8)
    ensures RowHolds(w, location, 8 * j, value)
  {
  }

  lemma MoreRowsFurther(a: int, b: int, i: int)
    requires a > b && i >= 1
    ensures a * i > b * i
  {
    assert a * i == b * i + (a - b) * i;
  }

  /** The copied entries' Variables, in table order. */
  function GrownKeys(s: Store): seq<VarKey>
    requires Sound(s)
  {
    EntryKeys(Contents(s), Nat(s.usedVars))
  }

  /** Where the rows of the grown file start. */
  function GrownBase(s: Store): int
    requires s.availableVars != 0 && s.availableFiles != 0
  {
    DataStart(NewSizes(s).0, NewSizes(s).1)
  }

  /** A grow that goes through with a row to copy keeps every stored Variable. */
  lemma GrowKeepsKeys(s: Store, k: VarKey)
    requires Valid(s) && !GrowFails(s) && s.usedFiles > 0 && k in s.variableInfo
    ensures k in ColumnsOf(GrownKeys(s), GrownBase(s))
  {
    var (av, af) := NewSizes(s);
    assert !CopyFails(s.variableInfo, NewColumns(s, av, af), s.usedVars, s.usedFiles);
  }

  /**
   * The row writes CopyData queues, as written: row i of the old file is
   * read at each Variable's old start plus i times the NEW stride.
   */
  function AsWrittenCopyRows(d: seq<byte>, oldMap: map<VarKey, int>, keys: seq<VarKey>, base: int,
                             newStride: int, n: nat): (r: seq<Request>)
    ensures |r| == n
  {
    CopyRows(d, oldMap, ColumnsOf(keys, base), keys, base, newStride, newStride, n)
  }

  /**
   * When the variable table grows, the new stride differs from the old one,
   * so for any row after the first the new stride times the row number is
   * not where the old file keeps that row.
   */
  lemma GrowChangesStride(s: Store, i: int)
    requires Valid(s) && s.usedVars == s.availableVars && i >= 1
    ensures 8 * NewSizes(s).0 * i != s.offset * i
  {
    NewSizesOfValid(s);
    MoreRowsFurther(8 * NewSizes(s).0, s.offset, i);
  }

  /**
   * As written, row i of the grown file takes a kept Variable's value from
   * its old start plus i times the new stride (GrowChangesStride: not where
   * the old file keeps it once the variable table grows).
   */
  lemma GrowReadsRowsAtNewStride(d: seq<byte>, oldMap: map<VarKey, int>, keys: seq<VarKey>, base: int,
                                 newStride: int, n: nat, k: VarKey, i: nat)
    requires k in oldMap && k in ColumnsOf(keys, base) && i < n
    ensures RowHolds(AsWrittenCopyRows(d, oldMap, keys, base, newStride, n)[i], base + i * newStride,
                     ColumnsOf(keys, base)[k] - base, ReadDouble(d, oldMap[k] + newStride * i))
  {
    CopyRowsColumn(d, oldMap, keys, base, newStride, newStride, n, i, k);
  }

  /** CopyData as evidently intended: the old rows read at the old stride, written at the new one. */
  function CorrectedCopyRows(d: seq<byte>, oldMap: map<VarKey, int>, keys: seq<VarKey>, base: int,
                             newStride: int, oldStride: int, n: nat): (r: seq<Request>)
    ensures |r| == n
  {
    CopyRows(d, oldMap, ColumnsOf(keys, base), keys, base, newStride, oldStride, n)
  }

  /** Write 1 + usedVars + usedFiles + i of a grow is the as-written copy of row i, read at the new stride. */
  lemma GrowWritesRows(s: Store, i: nat)
    requires Valid(s) && i < s.usedFiles
    requires forall j :: 0 <= j < s.usedFiles ==> OldFileEntry(Contents(s), s.availableVars, j).Some?
    ensures GrowWrites(s, NewSizes(s).0, NewSizes(s).1)[1 + s.usedVars + s.usedFiles + i]
            == AsWrittenCopyRows(Contents(s), s.variableInfo, GrownKeys(s), GrownBase(s), 8 * NewSizes(s).0,
                                 s.usedFiles)[i]
  {
    var av, af := NewSizes(s).0, NewSizes(s).1;
    assert Nat(s.usedVars) == s.usedVars && Nat(s.usedFiles) == s.usedFiles;
    GrowWritesAt(s, av, af, i);
    assert AsWrittenCopyRows(Contents(s), s.variableInfo, GrownKeys(s), GrownBase(s), 8 * av, s.usedFiles)
           == CopyRows(Contents(s), s.variableInfo, NewColumns(s, av, af), EntryKeys(Contents(s), Nat(s.usedVars)),
                       DataStart(av, af), 8 * av, 8 * av, Nat(s.usedFiles));
  }

  /** When every old file entry reads, copyFiles copies all n of them. */
  lemma CopyFilesComplete(disk: seq<byte>, oldVars: int, newVars: int, n: nat)
    requires forall j :: 0 <= j < n ==> OldFileEntry(disk, oldVars, j).Some?
    ensures |CopyFiles(disk, oldVars, newVars, n)| == n
  {
    if |CopyFiles(disk, oldVars, newVars, n)| < n {
      assert false;
    }
  }

  /** Past the header, variable and file writes, a grow's writes are the copied rows. */
  lemma GrowWritesAt(s: Store, newVars: int, newFiles: int, i: nat)
    requires Sound(s) && i < Nat(s.usedFiles)
    requires forall j :: 0 <= j < Nat(s.usedFiles) ==> OldFileEntry(Contents(s), s.availableVars, j).Some?
    ensures GrowWrites(s, newVars, newFiles)[1 + Nat(s.usedVars) + Nat(s.usedFiles) + i]
            == CopyRows(Contents(s), s.variableInfo, NewColumns(s, newVars, newFiles), EntryKeys(Contents(s), Nat(s.usedVars)),
                        DataStart(newVars, newFiles), 8 * newVars, 8 * newVars, Nat(s.usedFiles))[i]
  {
    var d := Contents(s);
    var base := DataStart(newVars, newFiles);
    var files := CopyFiles(d, s.availableVars, newVars, Nat(s.usedFiles));
    var head := [Request(0, EncodeHeader(Header(newVars, s.usedVars, newFiles, s.usedFiles)))]
                + CopyVariables(d, Nat(s.usedVars), base) + files;
    var rows := CopyRows(d, s.variableInfo, NewColumns(s, newVars, newFiles), EntryKeys(d, Nat(s.usedVars)),
                         base, 8 * newVars, 8 * newVars, Nat(s.usedFiles));
    CopyFilesComplete(d, s.availableVars, newVars, Nat(s.usedFiles));
    assert GrowWrites(s, newVars, newFiles) == head + rows;
    IndexPastHead(GrowWrites(s, newVars, newFiles), head, rows, i);
  }

  /** Indexing past the head of a concatenation indexes its tail. */
  lemma IndexPastHead<T>(all: seq<T>, head: seq<T>, rows: seq<T>, i: nat)
    requires all == head + rows && i < |rows|
    ensures all[|head| + i] == rows[i]
  {
  }

  /**
   * With the old stride, row i of the grown file sits at the new stride and
   * holds at each kept Variable's new column exactly the value getData read
   * for that Variable and file i before the grow (when its hashCode returns,
   * so that getData reads at all).
   */
  lemma CorrectedCopyKeepsValues(s: Store, v: Variable, i: nat, keys: seq<VarKey>, base: int, newStride: int)
    requires Key(v) in s.variableInfo && Key(v) in ColumnsOf(keys, base) && i < Nat(s.usedFiles)
    ensures Hashable(v) ==> RowHolds(CorrectedCopyRows(Contents(s), s.variableInfo, keys, base, newStride, s.offset, Nat(s.usedFiles))[i],
                     base + i * newStride, ColumnsOf(keys, base)[Key(v)] - base, GetData(Drained(s), v, i).value)
  {
    CopyRowsColumn(Contents(s), s.variableInfo, keys, base, newStride, s.offset, Nat(s.usedFiles), i, Key(v));
    DrainedData(s, v, i);
  }

  /** What getData reads once the worker has caught up. */
  lemma DrainedData(s: Store, v: Variable, i: int)
    requires Key(v) in s.variableInfo
    ensures GetData(Drained(s), v, i)
            == if Hashable(v) then Ok(ReadDouble(Contents(s), s.variableInfo[Key(v)] + s.offset * i)) else Err(NumberFormat)
  {
  }
}
