/**
 * What addFile (src/binaryUtil/BinaryParser.java) leaves behind when it needs
 * no grow: the file table has room and the variables it meets fit the
 * variable table. Where its writes go, what its row holds, what getData
 * reads back once they are applied, and that the store stays valid.
 */
module StoreAdd {
  import opened Wrappers
  import opened Thrown
  import opened JavaStrings
  import opened Variables
  import opened Blocks
  import opened Slha
  import opened FileChecker
  import opened Layout
  import opened StoreState
  import opened StoreUpdate

  /** Where a stored variable's double sits inside a row of s. */
  function Column(s: Store, k: VarKey): int
    requires k in s.variableInfo
  {
    s.variableInfo[k] - DataStart(s.availableVars, s.availableFiles)
  }

  /** t is s with more writes queued and perhaps more variables stored; the layout and every stored column unchanged. */
  predicate Extends(s: Store, t: Store) {
    t.disk == s.disk && s.queue <= t.queue
    && t.availableVars == s.availableVars && t.availableFiles == s.availableFiles && t.offset == s.offset
    && t.usedFiles == s.usedFiles && t.fileInfo == s.fileInfo && s.usedVars <= t.usedVars
    && forall k :: k in s.variableInfo ==> k in t.variableInfo && t.variableInfo[k] == s.variableInfo[k]
  }

  /** The eight bytes of a row at index are the double with the given bits. */
  predicate Holds(row: seq<byte>, index: int, bits: nat) {
    0 <= index && index + 8 <= |row| && row[index..index + 8] == BigEndian(bits, 8)
  }

  /** vs[k] is the last variable of vs with its key: the one whose value the row keeps. */
  predicate LastWithKey(vs: seq<Variable>, k: nat)
    requires k < |vs|
  {
    forall m :: k < m < |vs| ==> Key(vs[m]) != Key(vs[k])
  }

  /** The variable has a value and Double.parseDouble accepts it. */
  predicate Parses(v: Variable, parseDouble: string -> Option<nat>) {
    v.value.Some? && parseDouble(v.value.value).Some?
  }

  function Bits(v: Variable, parseDouble: string -> Option<nat>): nat
    requires Parses(v, parseDouble)
  {
    parseDouble(v.value.value).value
  }

  /** A store extended with queued writes only, and still sound, stays valid. */
  lemma ExtendsValid(s: Store, t: Store)
    requires Valid(s) && Extends(s, t) && t.variableInfo == s.variableInfo && t.usedVars == s.usedVars && Sound(t)
    ensures Valid(t)
  {
  }

  /** Two distinct stored columns of a valid store are at least eight bytes apart. */
  lemma ColumnsApart(s: Store, k1: VarKey, k2: VarKey)
    requires Valid(s) && k1 in s.variableInfo && k2 in s.variableInfo && k1 != k2
    ensures Column(s, k1) + 8 <= Column(s, k2) || Column(s, k2) + 8 <= Column(s, k1)
  {
    ColumnIndex(s, k1);
    ColumnIndex(s, k2);
    assert s.variableInfo[k1] != s.variableInfo[k2];
    MultiplesOfEightApart(Column(s, k1), Column(s, k2));
  }

  lemma MultiplesOfEightApart(a: int, b: int)
    requires a % 8 == 0 && b % 8 == 0 && a != b
    ensures a + 8 <= b || b + 8 <= a
  {
    assert a == 8 * (a / 8) && b == 8 * (b / 8);
  }

  /** putDouble at one index leaves the eight bytes at an index at least eight away as they were. */
  lemma PutElsewhere(row: seq<byte>, index: int, bits: nat, other: int)
    requires PutDouble(row, index, bits).Some? && 0 <= other && other + 8 <= |row|
    requires other + 8 <= index || index + 8 <= other
    ensures PutDouble(row, index, bits).value[other..other + 8] == row[other..other + 8]
  {
    var put := PutDouble(row, index, bits).value;
    if other + 8 <= index {
      assert put[other..other + 8] == put[..index][other..other + 8];
      assert row[other..other + 8] == row[..index][other..other + 8];
    } else {
      assert put[other..other + 8] == put[index + 8..][other - index - 8..other - index];
      assert row[other..other + 8] == row[index + 8..][other - index - 8..other - index];
    }
  }

  /** storeVariable with room in the variable table: no grow, at most one variable more, the store stays valid. */
  lemma StoreVariableWithRoom(s: Store, v: Variable)
    requires Valid(s) && s.usedVars < s.availableVars
    ensures var r := StoreVariable(s, v).0;
            Valid(r) && Extends(s, r) && r.usedVars <= s.usedVars + 1
  {
    if Hashable(v) && Key(v) !in s.variableInfo {
      if ParseInt(v.pdg).Some? && ParseInt(v.pdg2).Some? && ParseInt(v.pdg3).Some? {
        StoreNewVariable(s, v);
      } else {
        assert AddVariable(s, v) == InsertVariable(s, v);
      }
    }
  }

  /** StoreVariableWithRoom for a variable not stored yet whose PDG codes parse. */
  lemma StoreNewVariable(s: Store, v: Variable)
    requires Valid(s) && s.usedVars < s.availableVars && Key(v) !in s.variableInfo && Hashable(v)
    requires ParseInt(v.pdg).Some? && ParseInt(v.pdg2).Some? && ParseInt(v.pdg3).Some?
    ensures var r := StoreVariable(s, v).0;
            Valid(r) && Extends(s, r) && r.usedVars <= s.usedVars + 1
  {
    AddNewVariable(s, v);
    if Hashable(v) {
      var added := AddVariable(s, v).0;
      assert Valid(added) && Extends(s, added);
      var marks := Sentinels(added.variableInfo[Key(v)], added.offset, Nat(added.usedFiles));
      EnqueueAllSound(added, marks);
      var r := EnqueueAll(added, marks);
      assert StoreVariable(s, v).0 == r;
      ExtendsValid(added, r);
    }
  }

  /** The row after differs from the row before at most at key's column: every other stored column is kept. */
  predicate KeepsOtherColumns(s: Store, before: seq<byte>, after: seq<byte>, key: VarKey) {
    |after| == |before|
    && forall k :: k in s.variableInfo && k != key && 0 <= Column(s, k) && Column(s, k) + 8 <= |before| ==>
      after[Column(s, k)..Column(s, k) + 8] == before[Column(s, k)..Column(s, k) + 8]
  }

  /** Placing a stored variable's value touches its own column only. */
  lemma PlaceValueInColumn(s: Store, row: seq<byte>, v: Variable, parseDouble: string -> Option<nat>)
    requires Valid(s) && Key(v) in s.variableInfo
    ensures var p := PlaceValue(s, row, v, parseDouble);
            p.1.None? ==> KeepsOtherColumns(s, row, p.0, Key(v))
                          && (Parses(v, parseDouble) ==> Holds(p.0, Column(s, Key(v)), Bits(v, parseDouble)))
  {
    var p := PlaceValue(s, row, v, parseDouble);
    if p.1.None? && Parses(v, parseDouble) {
      var index := Column(s, Key(v));
      var bits := Bits(v, parseDouble);
      assert PutDouble(row, index, bits) == Some(p.0);
      forall k | k in s.variableInfo && k != Key(v) && 0 <= Column(s, k) && Column(s, k) + 8 <= |row|
        ensures p.0[Column(s, k)..Column(s, k) + 8] == row[Column(s, k)..Column(s, k) + 8]
      {
        ColumnsApart(s, k, Key(v));
        ColumnIndex(s, k);
        PutElsewhere(row, index, bits, Column(s, k));
      }
    }
  }

  /**
   * One variable of the fill, with room in the variable table: the row
   * changes at most at the variable's column, which then holds its double
   * when its value parses.
   */
  lemma FillVariableWithRoom(s: Store, row: seq<byte>, v: Variable, parseDouble: string -> Option<nat>)
    requires Valid(s) && s.usedVars < s.availableVars
    ensures var r := FillVariable(s, row, v, parseDouble);
            Valid(r.0) && Extends(s, r.0) && r.0.usedVars <= s.usedVars + 1
            && (r.2.None? ==> Hashable(v) && Key(v) in r.0.variableInfo && KeepsOtherColumns(r.0, row, r.1, Key(v))
                              && (Parses(v, parseDouble) ==> Holds(r.1, Column(r.0, Key(v)), Bits(v, parseDouble))))
  {
    StoreVariableWithRoom(s, v);
    var (s1, thrown) := StoreVariable(s, v);
    if thrown.None? {
      PlaceValueInColumn(s1, row, v, parseDouble);
      var p := PlaceValue(s1, row, v, parseDouble);
      assert FillVariable(s, row, v, parseDouble) == (s1, p.0, p.1);
    }
  }

  /** What the fill over vs has done once it has run through: every variable stored, each value in its column. */
  predicate Filled(s: Store, r: (Store, seq<byte>, Option<Exception>), vs: seq<Variable>,
                   parseDouble: string -> Option<nat>) {
    Valid(r.0) && Extends(s, r.0) && r.0.usedVars <= s.usedVars + |vs|
    && (r.2.None? ==> (forall k :: 0 <= k < |vs| ==> Hashable(vs[k]) && Key(vs[k]) in r.0.variableInfo)
                      && forall k :: 0 <= k < |vs| && LastWithKey(vs, k) && Parses(vs[k], parseDouble) ==>
                           Key(vs[k]) in r.0.variableInfo
                           && Holds(r.1, Column(r.0, Key(vs[k])), Bits(vs[k], parseDouble)))
  }

  /** One more variable placed keeps what the fill has done, as long as its column is apart from the others. */
  lemma FilledStep(s: Store, prev: (Store, seq<byte>, Option<Exception>), r: (Store, seq<byte>, Option<Exception>),
                   pre: seq<Variable>, v: Variable, parseDouble: string -> Option<nat>)
    requires Filled(s, prev, pre, parseDouble) && prev.2.None? && |r.1| == |prev.1|
    requires Valid(r.0) && Extends(prev.0, r.0) && r.0.usedVars <= prev.0.usedVars + 1
    requires r.2.None? ==> Hashable(v) && Key(v) in r.0.variableInfo && KeepsOtherColumns(r.0, prev.1, r.1, Key(v))
                           && (Parses(v, parseDouble) ==> Holds(r.1, Column(r.0, Key(v)), Bits(v, parseDouble)))
    ensures Filled(s, r, pre + [v], parseDouble)
  {
    var vs := pre + [v];
    if r.2.None? {
      forall k | 0 <= k < |vs| ensures Hashable(vs[k]) && Key(vs[k]) in r.0.variableInfo {
        if k < |pre| {
          assert vs[k] == pre[k];
        }
      }
      forall k | 0 <= k < |vs| && LastWithKey(vs, k) && Parses(vs[k], parseDouble)
        ensures Key(vs[k]) in r.0.variableInfo && Holds(r.1, Column(r.0, Key(vs[k])), Bits(vs[k], parseDouble))
      {
        if k < |pre| {
          assert vs[k] == pre[k];
          assert LastWithKey(pre, k) by {
            forall m | k < m < |pre| ensures Key(pre[m]) != Key(pre[k]) {
              assert pre[m] == vs[m];
            }
          }
          assert vs[|pre|] == v;
          KeptColumn(prev.0, prev.1, r.0, r.1, Key(v), Key(pre[k]), Bits(pre[k], parseDouble));
        }
      }
    }
  }

  /** A column other than the one just placed, held before, is held after. */
  lemma KeptColumn(before: Store, row: seq<byte>, after: Store, row': seq<byte>, placed: VarKey, key: VarKey, bits: nat)
    requires Extends(before, after) && key != placed && key in before.variableInfo
    requires Holds(row, Column(before, key), bits) && KeepsOtherColumns(after, row, row', placed)
    ensures key in after.variableInfo && Holds(row', Column(after, key), bits)
  {
    assert Column(after, key) == Column(before, key);
  }

  /**
   * addFile's loop over the variables, when they fit the variable table:
   * no grow, and once the loop has run through, every variable is stored and
   * the row holds, at each variable's column, the double of the last
   * variable of that key whose value parses.
   */
  lemma {:induction false} FillAllWithRoom(s: Store, row: seq<byte>, vs: seq<Variable>,
                                           parseDouble: string -> Option<nat>)
    requires Valid(s) && s.usedVars + |vs| <= s.availableVars
    ensures Filled(s, FillAll(s, row, vs, parseDouble), vs, parseDouble)
    decreases |vs|
  {
    if |vs| == 0 {
      assert FillAll(s, row, vs, parseDouble) == (s, row, None);
    } else {
      var pre := vs[..|vs| - 1];
      var v := vs[|vs| - 1];
      assert vs == pre + [v];
      FillAllWithRoom(s, row, pre, parseDouble);
      var prev := FillAll(s, row, pre, parseDouble);
      if prev.2.None? {
        FillAllStep(s, row, pre, v, parseDouble);
        FillVariableWithRoom(prev.0, prev.1, v, parseDouble);
        FilledStep(s, prev, FillVariable(prev.0, prev.1, v, parseDouble), pre, v, parseDouble);
      } else {
        assert FillAll(s, row, vs, parseDouble) == prev;
      }
    }
  }

  /** The end of addFile with room in the file table: the row and then the header, last in the queue. */
  lemma StoreRowWrites(s: Store, file: Dataset, row: seq<byte>)
    requires Valid(s) && s.usedFiles < s.availableFiles && '.' in file.fileName
    ensures var r := StoreRow(s, file, row);
            Valid(r) && r.availableVars == s.availableVars && r.availableFiles == s.availableFiles
            && r.offset == s.offset && r.variableInfo == s.variableInfo && r.disk == s.disk
            && r.queue == s.queue + [Request(RowSlot(s), row),
                                     Request(0, EncodeHeader(Header(r.availableVars, r.usedVars,
                                                                    r.availableFiles, r.usedFiles)))]
  {
  }

  /** r is valid, with s's layout, the same file and s's writes still pending first. */
  predicate StaysValid(s: Store, r: Store) {
    Valid(r) && r.availableVars == s.availableVars && r.availableFiles == s.availableFiles
    && r.offset == s.offset && s.queue <= r.queue && r.disk == s.disk
  }

  /**
   * The last two writes of r: a row of the file's size at location, holding
   * each variable's double (the last of a repeated key) at its column; then
   * the header with r's counters.
   */
  predicate RowQueued(r: Store, location: int, file: Dataset, vs: seq<Variable>, parseDouble: string -> Option<nat>) {
    |r.queue| >= 2
    && r.queue[|r.queue| - 2].location == location
    && |r.queue[|r.queue| - 2].data| == 8 * file.numberOfVariables
    && r.queue[|r.queue| - 1] == Request(0, EncodeHeader(Header(r.availableVars, r.usedVars, r.availableFiles, r.usedFiles)))
    && forall k :: 0 <= k < |vs| && LastWithKey(vs, k) && Parses(vs[k], parseDouble) ==>
         Hashable(vs[k]) && Key(vs[k]) in r.variableInfo
         && Holds(r.queue[|r.queue| - 2].data, Column(r, Key(vs[k])), Bits(vs[k], parseDouble))
  }

  /** Storing the filled row after a resolution that only queued writes. */
  lemma RowStored(s: Store, filled: (Store, seq<byte>, Option<Exception>), resolved: Store, file: Dataset,
                  vs: seq<Variable>, parseDouble: string -> Option<nat>)
    requires Valid(s) && s.usedFiles < s.availableFiles && '.' in file.fileName
    requires Filled(s, filled, vs, parseDouble) && filled.2.None? && |filled.1| == 8 * file.numberOfVariables
    requires Extends(filled.0, resolved) && resolved.variableInfo == filled.0.variableInfo
    requires resolved.usedVars == filled.0.usedVars && Sound(resolved)
    ensures StaysValid(s, StoreRow(resolved, file, filled.1))
    ensures RowQueued(StoreRow(resolved, file, filled.1), RowSlot(s), file, vs, parseDouble)
  {
    ExtendsValid(filled.0, resolved);
    StoreRowWrites(resolved, file, filled.1);
  }

  /** The row addFile writes, when its fill and resolution go through: the filled row. */
  lemma AddRowOk(s: Store, file: Dataset, template: Option<Dataset>,
                 blockOrder: seq<string>, diffOrder: seq<string>, parseDouble: string -> Option<nat>)
    returns (filled: (Store, seq<byte>, Option<Exception>), resolved: (Store, Option<Exception>))
    requires Sound(s) && '.' in file.fileName && file.numberOfVariables >= 0
    requires IsOrderOf(blockOrder, BlockNames(file.blocks))
    requires template.Some? ==> IsOrderOf(diffOrder, BlockNames(template.value.blocks))
    requires AddRow(s, file, template, blockOrder, diffOrder, parseDouble).1.Ok?
    ensures filled == FillAll(s, Zeros(8 * file.numberOfVariables), FileVariables(file.blocks, blockOrder), parseDouble)
    ensures filled.2.None? && template.Some? && forall n :: n in diffOrder ==> n in BlockNames(template.value.blocks)
    ensures resolved == ResolveAll(filled.0, Differences(file, template.value, diffOrder), template.value)
    ensures resolved.1.None? && Sound(resolved.0)
    ensures AddRow(s, file, template, blockOrder, diffOrder, parseDouble).0 == StoreRow(resolved.0, file, filled.1)
  {
    filled := FillAll(s, Zeros(8 * file.numberOfVariables), FileVariables(file.blocks, blockOrder), parseDouble);
    OrderIsOfNames(diffOrder, BlockNames(template.value.blocks));
    resolved := ResolveAll(filled.0, Differences(file, template.value, diffOrder), template.value);
    ResolvedSound(filled.0, resolved.0);
  }

  /** When addFile throws after its table entry, it leaves the store its fill or its resolution left. */
  lemma AddRowErr(s: Store, file: Dataset, template: Option<Dataset>,
                  blockOrder: seq<string>, diffOrder: seq<string>, parseDouble: string -> Option<nat>)
    requires Sound(s) && '.' in file.fileName && file.numberOfVariables >= 0
    requires IsOrderOf(blockOrder, BlockNames(file.blocks))
    requires template.Some? ==> IsOrderOf(diffOrder, BlockNames(template.value.blocks))
    requires template.Some? ==> forall n :: n in diffOrder ==> n in BlockNames(template.value.blocks)
    requires AddRow(s, file, template, blockOrder, diffOrder, parseDouble).1.Err?
    ensures var filled := FillAll(s, Zeros(8 * file.numberOfVariables), FileVariables(file.blocks, blockOrder), parseDouble);
            var r := AddRow(s, file, template, blockOrder, diffOrder, parseDouble).0;
            r == filled.0
            || (template.Some? && r == ResolveAll(filled.0, Differences(file, template.value, diffOrder), template.value).0)
  {
  }

  /**
   * addFile after its table entry, with room for the variables it meets:
   * the store stays valid, and when it goes through the row is queued at the
   * slot of file number usedFiles, after every write the fill and the
   * resolution queued, and the header last.
   */
  lemma AddRowWithRoom(s: Store, file: Dataset, template: Option<Dataset>,
                       blockOrder: seq<string>, diffOrder: seq<string>, parseDouble: string -> Option<nat>)
    requires Valid(s) && s.usedFiles < s.availableFiles && '.' in file.fileName && file.numberOfVariables >= 0
    requires IsOrderOf(blockOrder, BlockNames(file.blocks))
    requires template.Some? ==> IsOrderOf(diffOrder, BlockNames(template.value.blocks))
    requires s.usedVars + |FileVariables(file.blocks, blockOrder)| <= s.availableVars
    ensures StaysValid(s, AddRow(s, file, template, blockOrder, diffOrder, parseDouble).0)
    ensures AddRow(s, file, template, blockOrder, diffOrder, parseDouble).1.Ok? ==>
              RowQueued(AddRow(s, file, template, blockOrder, diffOrder, parseDouble).0, RowSlot(s), file,
                        FileVariables(file.blocks, blockOrder), parseDouble)
  {
    var vs := FileVariables(file.blocks, blockOrder);
    var filled := FillAll(s, Zeros(8 * file.numberOfVariables), vs, parseDouble);
    FillAllWithRoom(s, Zeros(8 * file.numberOfVariables), vs, parseDouble);
    if AddRow(s, file, template, blockOrder, diffOrder, parseDouble).1.Ok? {
      var _, resolved := AddRowOk(s, file, template, blockOrder, diffOrder, parseDouble);
      RowStored(s, filled, resolved.0, file, vs, parseDouble);
    } else {
      if template.Some? {
        OrderIsOfNames(diffOrder, BlockNames(template.value.blocks));
        var resolved := ResolveAll(filled.0, Differences(file, template.value, diffOrder), template.value);
        ResolvedSound(filled.0, resolved.0);
        ExtendsValid(filled.0, resolved.0);
      }
      AddRowErr(s, file, template, blockOrder, diffOrder, parseDouble);
    }
  }

  /** With room in the file table and a name addFile accepts, it queues the table entry and goes on with the row. */
  lemma AddFileEntry(s: Store, file: Dataset, template: Option<Dataset>,
                     blockOrder: seq<string>, diffOrder: seq<string>, parseDouble: string -> Option<nat>)
    returns (s2: Store)
    requires Sound(s) && s.usedFiles != s.availableFiles
    requires IsOrderOf(blockOrder, BlockNames(file.blocks))
    requires template.Some? ==> IsOrderOf(diffOrder, BlockNames(template.value.blocks))
    requires 0 <= IndexOf(file.fileName, '.') <= FileNameMaxChars && file.numberOfVariables >= 0
    ensures s2 == Enqueue(s, FileEntryAt(s.availableVars, s.usedFiles),
                          EncodeFileEntry(file.lastModified, file.fileName[..IndexOf(file.fileName, '.')], s.usedFiles))
    ensures Sound(s2) && '.' in file.fileName
    ensures AddFile(s, file, template, blockOrder, diffOrder, parseDouble)
            == AddRow(s2, file, template, blockOrder, diffOrder, parseDouble)
  {
    var entry := EncodeFileEntry(file.lastModified, file.fileName[..IndexOf(file.fileName, '.')], s.usedFiles);
    s2 := Enqueue(s, FileEntryAt(s.availableVars, s.usedFiles), entry);
    EnqueueSound(s, FileEntryAt(s.availableVars, s.usedFiles), entry);
  }

  /** addFile goes through only for a name with a '.' among its first 26 chars and a row size that is not negative. */
  lemma AddFileOkNamed(s: Store, file: Dataset, template: Option<Dataset>,
                       blockOrder: seq<string>, diffOrder: seq<string>, parseDouble: string -> Option<nat>)
    requires Sound(s) && s.usedFiles != s.availableFiles
    requires IsOrderOf(blockOrder, BlockNames(file.blocks))
    requires template.Some? ==> IsOrderOf(diffOrder, BlockNames(template.value.blocks))
    requires AddFile(s, file, template, blockOrder, diffOrder, parseDouble).1.Ok?
    ensures 0 <= IndexOf(file.fileName, '.') <= FileNameMaxChars && file.numberOfVariables >= 0
  {
    assert AddFile(s, file, template, blockOrder, diffOrder, parseDouble)
           == AddFileWithRoom(s, file, template, blockOrder, diffOrder, parseDouble);
  }

  /** The writes s had pending stay first in r, and right after them comes the file's table entry. */
  predicate EntryQueued(s: Store, r: Store, file: Dataset) {
    var dot := IndexOf(file.fileName, '.');
    0 <= dot <= FileNameMaxChars && |r.queue| > |s.queue| && r.queue[..|s.queue|] == s.queue
    && r.queue[|s.queue|] == Request(FileEntryAt(s.availableVars, s.usedFiles),
                                     EncodeFileEntry(file.lastModified, file.fileName[..dot], s.usedFiles))
  }

  /**
   * addFile with room in both tables for everything it adds: the file's
   * entry is queued at its table position right after the writes already
   * pending; the row goes to the slot of file number usedFiles and holds,
   * at each variable's column, that variable's double (the last one of a
   * name the file repeats); the header is the last write.
   */
  lemma AddFileWrites(s: Store, file: Dataset, template: Option<Dataset>,
                      blockOrder: seq<string>, diffOrder: seq<string>, parseDouble: string -> Option<nat>)
    requires Valid(s) && s.usedFiles < s.availableFiles
    requires IsOrderOf(blockOrder, BlockNames(file.blocks))
    requires template.Some? ==> IsOrderOf(diffOrder, BlockNames(template.value.blocks))
    requires s.usedVars + |FileVariables(file.blocks, blockOrder)| <= s.availableVars
    requires AddFile(s, file, template, blockOrder, diffOrder, parseDouble).1.Ok?
    ensures EntryQueued(s, AddFile(s, file, template, blockOrder, diffOrder, parseDouble).0, file)
    ensures RowQueued(AddFile(s, file, template, blockOrder, diffOrder, parseDouble).0, RowSlot(s), file,
                      FileVariables(file.blocks, blockOrder), parseDouble)
  {
    AddFileOkNamed(s, file, template, blockOrder, diffOrder, parseDouble);
    var s2 := AddFileEntry(s, file, template, blockOrder, diffOrder, parseDouble);
    ExtendsValid(s, s2);
    AddRowWithRoom(s2, file, template, blockOrder, diffOrder, parseDouble);
    EntryThenRow(s, s2, AddRow(s2, file, template, blockOrder, diffOrder, parseDouble).0, file);
  }

  /** Writes queued after the file's table entry leave that entry where it was, right after s's pending writes. */
  lemma EntryThenRow(s: Store, s2: Store, r: Store, file: Dataset)
    requires 0 <= IndexOf(file.fileName, '.') <= FileNameMaxChars
    requires s2 == Enqueue(s, FileEntryAt(s.availableVars, s.usedFiles),
                           EncodeFileEntry(file.lastModified, file.fileName[..IndexOf(file.fileName, '.')], s.usedFiles))
    requires s2.queue <= r.queue
    ensures EntryQueued(s, r, file) && RowSlot(s2) == RowSlot(s)
  {
    assert r.queue[..|s2.queue|] == s2.queue;
    assert r.queue[..|s.queue|] == s2.queue[..|s.queue|];
    assert r.queue[|s.queue|] == s2.queue[|s.queue|];
  }

  /** addFile keeps the store valid whatever its outcome, when it needs no grow. */
  lemma AddFileKeepsValid(s: Store, file: Dataset, template: Option<Dataset>,
                          blockOrder: seq<string>, diffOrder: seq<string>, parseDouble: string -> Option<nat>)
    requires Valid(s) && s.usedFiles < s.availableFiles
    requires IsOrderOf(blockOrder, BlockNames(file.blocks))
    requires template.Some? ==> IsOrderOf(diffOrder, BlockNames(template.value.blocks))
    requires s.usedVars + |FileVariables(file.blocks, blockOrder)| <= s.availableVars
    ensures StaysValid(s, AddFile(s, file, template, blockOrder, diffOrder, parseDouble).0)
  {
    var dot := IndexOf(file.fileName, '.');
    if dot < 0 || dot > FileNameMaxChars {
      AddFileRefusesName(s, file, template, blockOrder, diffOrder, parseDouble);
    } else {
      var at := FileEntryAt(s.availableVars, s.usedFiles);
      var data := EncodeFileEntry(file.lastModified, file.fileName[..dot], s.usedFiles);
      EnqueueSound(s, at, data);
      ExtendsValid(s, Enqueue(s, at, data));
      if file.numberOfVariables >= 0 {
        var s2 := AddFileEntry(s, file, template, blockOrder, diffOrder, parseDouble);
        AddRowWithRoom(s2, file, template, blockOrder, diffOrder, parseDouble);
      } else {
        assert AddFile(s, file, template, blockOrder, diffOrder, parseDouble) == (Enqueue(s, at, data), Err(IllegalArgument));
      }
    }
  }

  /** n bytes inside a written range are read back from the data written there. */
  lemma ReadWithin(disk: seq<byte>, loc: int, data: seq<byte>, i: int, n: nat)
    requires loc >= 0 && 0 <= i && i + n <= |data| && |data| > 0
    ensures ReadAt(Write(disk, loc, data), loc + i, n) == Some(data[i..i + n])
  {
    var w := Write(disk, loc, data);
    assert w[loc + i..loc + i + n] == data[i..i + n];
  }

  /** Two writes applied in order. */
  lemma ApplyTwo(disk: seq<byte>, a: Request, b: Request)
    ensures ApplyAll(disk, [a, b]) == Write(Write(disk, a.location, a.data), b.location, b.data)
  {
    var w1 := Write(disk, a.location, a.data);
    var w2 := Write(w1, b.location, b.data);
    assert [a, b][1..] == [b];
    assert ApplyAll(disk, [a, b]) == ApplyAll(w1, [b]);
    assert [b][1..] == [];
    assert ApplyAll(w1, [b]) == ApplyAll(w2, []);
  }

  /** Applying the last two writes of a queue after the others. */
  lemma ApplyLastTwo(disk: seq<byte>, q: seq<Request>)
    requires |q| >= 2
    ensures ApplyAll(disk, q)
            == Write(Write(ApplyAll(disk, q[..|q| - 2]), q[|q| - 2].location, q[|q| - 2].data), q[|q| - 1].location, q[|q| - 1].data)
  {
    var front := q[..|q| - 2];
    var a, b := q[|q| - 2], q[|q| - 1];
    assert q == front + [a, b];
    ApplyAllAppend(disk, front, [a, b]);
    ApplyTwo(ApplyAll(disk, front), a, b);
  }

  /**
   * A store whose last writes are a row at the slot of file n and the
   * header: once they are applied, getData for a variable and file n reads
   * the double the row holds at the variable's column.
   */
  lemma RowReadsBack(r: Store, n: int, v: Variable, bits: nat)
    requires r.availableVars >= 0 && r.availableFiles >= 0 && r.offset >= 0 && n >= 0
    requires Key(v) in r.variableInfo && |r.queue| >= 2 && bits < Pow256(8)
    requires r.queue[|r.queue| - 2].location == DataStart(r.availableVars, r.availableFiles) + n * r.offset
    requires r.queue[|r.queue| - 1].location == 0 && |r.queue[|r.queue| - 1].data| == HeaderSize
    requires Holds(r.queue[|r.queue| - 2].data, Column(r, Key(v)), bits)
    ensures GetData(Drained(r), v, n) == if Hashable(v) then Ok(bits) else Err(NumberFormat)
  {
    var slot := r.queue[|r.queue| - 2].location;
    var at := r.variableInfo[Key(v)] + r.offset * n;
    SlotPlusColumn(r.variableInfo[Key(v)], r.availableVars, r.availableFiles, n, r.offset);
    ReadThroughLastTwo(r.disk, r.queue, slot, Column(r, Key(v)), at, bits);
    DrainedReads(r, v, n, at, bits);
  }

  /** The byte a stored variable of row n is read from is that row's slot, past the header, plus the variable's column. */
  lemma SlotPlusColumn(loc: int, availableVars: int, availableFiles: int, n: int, offset: int)
    requires availableVars >= 0 && availableFiles >= 0 && n >= 0 && offset >= 0
    ensures var slot := DataStart(availableVars, availableFiles) + n * offset;
            slot >= HeaderSize && loc + offset * n == slot + (loc - DataStart(availableVars, availableFiles))
  {
    assert n * offset >= 0;
  }

  /** getData after the worker caught up reads from the contents the queue leaves behind. */
  lemma DrainedReads(r: Store, v: Variable, n: int, at: int, bits: nat)
    requires Key(v) in r.variableInfo && at == r.variableInfo[Key(v)] + r.offset * n
    requires ReadDouble(ApplyAll(r.disk, r.queue), at) == bits
    ensures GetData(Drained(r), v, n) == if Hashable(v) then Ok(bits) else Err(NumberFormat)
  {
    var d := Drained(r);
    assert d.disk == Contents(r) && d.variableInfo == r.variableInfo && d.offset == r.offset;
  }

  /**
   * A queue whose last writes are a row at slot and then the header: the
   * eight bytes the row holds at c are read back at at == slot + c.
   */
  lemma ReadThroughLastTwo(disk: seq<byte>, q: seq<Request>, slot: int, c: int, at: int, bits: nat)
    requires |q| >= 2 && q[|q| - 2].location == slot && slot >= HeaderSize && at == slot + c
    requires q[|q| - 1].location == 0 && |q[|q| - 1].data| == HeaderSize
    requires Holds(q[|q| - 2].data, c, bits) && bits < Pow256(8)
    ensures ReadDouble(ApplyAll(disk, q), at) == bits
  {
    var before := ApplyAll(disk, q[..|q| - 2]);
    var row, header := q[|q| - 2], q[|q| - 1];
    ApplyLastTwo(disk, q);
    assert ApplyAll(disk, q) == Write(Write(before, slot, row.data), 0, header.data);
    ReadRowThenHeader(before, slot, row.data, header.data, c, at, bits);
  }

  /** A row written at slot and then a header at 0: the row's double at c is read at slot + c. */
  lemma ReadRowThenHeader(before: seq<byte>, slot: int, row: seq<byte>, header: seq<byte>, c: int, at: int, bits: nat)
    requires slot >= HeaderSize && |header| == HeaderSize && Holds(row, c, bits) && bits < Pow256(8) && at == slot + c
    ensures ReadDouble(Write(Write(before, slot, row), 0, header), at) == bits
  {
    var written := Write(before, slot, row);
    ReadWithin(before, slot, row, c, 8);
    WriteElsewhere(written, 0, header, slot + c, 8);
    UnsignedBigEndian(bits, 8);
  }

  /** RowReadsBack for a row of a store that kept s's layout, at the slot of s's next file. */
  lemma QueuedRowReadsBack(s: Store, r: Store, file: Dataset, vs: seq<Variable>, parseDouble: string -> Option<nat>, k: nat)
    requires Valid(s) && StaysValid(s, r) && RowQueued(r, RowSlot(s), file, vs, parseDouble)
    requires k < |vs| && LastWithKey(vs, k) && Parses(vs[k], parseDouble) && Bits(vs[k], parseDouble) < Pow256(8)
    ensures GetData(Drained(r), vs[k], s.usedFiles) == Ok(Bits(vs[k], parseDouble))
  {
    var v := vs[k];
    assert Key(v) in r.variableInfo && Holds(r.queue[|r.queue| - 2].data, Column(r, Key(v)), Bits(v, parseDouble));
    RowReadsBack(r, s.usedFiles, v, Bits(v, parseDouble));
  }

  /**
   * Once the worker has applied addFile's writes, getData for a variable of
   * the file and the new file's number reads the double addFile parsed from
   * the variable's value (the last one, when the file repeats a name).
   */
  lemma AddedFileReadsBack(s: Store, file: Dataset, template: Option<Dataset>,
                           blockOrder: seq<string>, diffOrder: seq<string>, parseDouble: string -> Option<nat>, k: nat)
    requires Valid(s) && s.usedFiles < s.availableFiles
    requires IsOrderOf(blockOrder, BlockNames(file.blocks))
    requires template.Some? ==> IsOrderOf(diffOrder, BlockNames(template.value.blocks))
    requires s.usedVars + |FileVariables(file.blocks, blockOrder)| <= s.availableVars
    requires AddFile(s, file, template, blockOrder, diffOrder, parseDouble).1.Ok?
    requires var vs := FileVariables(file.blocks, blockOrder);
             k < |vs| && LastWithKey(vs, k) && Parses(vs[k], parseDouble) && Bits(vs[k], parseDouble) < Pow256(8)
    ensures var v := FileVariables(file.blocks, blockOrder)[k];
            GetData(Drained(AddFile(s, file, template, blockOrder, diffOrder, parseDouble).0), v, s.usedFiles)
            == Ok(Bits(v, parseDouble))
  {
    var r := AddFile(s, file, template, blockOrder, diffOrder, parseDouble).0;
    AddFileWrites(s, file, template, blockOrder, diffOrder, parseDouble);
    AddFileKeepsValid(s, file, template, blockOrder, diffOrder, parseDouble);
    QueuedRowReadsBack(s, r, file, FileVariables(file.blocks, blockOrder), parseDouble, k);
  }
}
