/**
 * updateFile (src/binaryUtil/BinaryParser.java), which verifyFiles calls
 * for a stored file whose last-modified time has changed: the row is built
 * again as addFile builds it, every string of reportDifferences' list goes
 * to resolveError, then the header, the row and the file's new date are
 * queued. The row goes to the slot of file number usedFiles, not to the
 * file's own slot, and the messages of the list make resolveError throw;
 * CorrectedUpdateFile is the update with both put right.
 */
module StoreRefresh {
  import opened Wrappers
  import opened Thrown
  import opened JavaStrings
  import opened Variables
  import opened Slha
  import opened FileChecker
  import opened Layout
  import opened StoreState
  import opened StoreUpdate
  import opened StoreAdd

  /** updateFile's template argument: a null File, a file that does not parse, or the parsed file. */
  datatype TemplateFile = NullFile | Unreadable | Readable(data: Dataset)

  // ------------------------------------------------- resolving every string

  /**
   * updateFile's loop over reportDifferences' list: every string, code or
   * message, goes to resolveError, and the first exception ends the loop.
   * When none is thrown, every string has been counted.
   */
  function ResolveEvery(s: Store, findings: seq<string>, template: Dataset): (r: (Store, Option<Exception>))
    ensures r.0.variableInfo == s.variableInfo && r.0.usedVars == s.usedVars && r.0.usedFiles == s.usedFiles
    ensures r.0.fileInfo == s.fileInfo
    ensures r.0.disk == s.disk && s.queue <= r.0.queue
    ensures r.0.availableVars == s.availableVars && r.0.availableFiles == s.availableFiles && r.0.offset == s.offset
    ensures r.1.None? ==> r.0.loggedInconsistencies == s.loggedInconsistencies + |findings|
  {
    if |findings| == 0 then (s, None)
    else
      var prev := ResolveEvery(s, findings[..|findings| - 1], template);
      if prev.1.Some? then prev
      else ResolveError(prev.0, findings[|findings| - 1], template)
  }

  /** One more string resolved after those before it. */
  lemma ResolveEveryStep(s: Store, findings: seq<string>, i: nat, template: Dataset)
    requires i < |findings| && ResolveEvery(s, findings[..i], template).1.None?
    ensures ResolveEvery(s, findings[..i + 1], template)
            == ResolveError(ResolveEvery(s, findings[..i], template).0, findings[i], template)
  {
    assert findings[..i + 1][..i] == findings[..i];
  }

  /** Once a resolution has thrown, the rest of the list is not looked at. */
  lemma {:induction false} ResolveEveryStopsAtError(s: Store, findings: seq<string>, template: Dataset, k: nat)
    requires k <= |findings| && ResolveEvery(s, findings[..k], template).1.Some?
    ensures ResolveEvery(s, findings, template) == ResolveEvery(s, findings[..k], template)
    decreases |findings| - k
  {
    if k < |findings| {
      var next := findings[..k + 1];
      assert next[..k] == findings[..k];
      ResolveEveryStopsAtError(s, findings, template, k + 1);
    } else {
      assert findings[..k] == findings;
    }
  }

  /**
   * A string that starts with a capital letter, as every message of
   * reportDifferences does, is refused by resolveError before anything is
   * counted: its first word is not an int (InputMismatchException).
   */
  lemma WordedNeverResolved(s: Store, message: string, template: Dataset)
    requires IsWorded(message)
    ensures ResolveError(s, message, template) == (s, Some(InputMismatch))
  {
    assert !IsWhitespace(message[0]);
    var first := message[..WordLength(message)];
    assert Tokens(message)[0] == first;
    assert first[0] == message[0];
  }

  /**
   * A list reportDifferences returns is never resolved in full by updateFile
   * unless it is empty: its second string is a message, and resolveError
   * throws on it if it has not thrown on the code before it.
   */
  lemma DifferencesNeverResolved(s: Store, file: Dataset, template: Dataset, order: seq<string>)
    requires forall n :: n in order ==> n in BlockNames(template.blocks)
    requires Differences(file, template, order) != []
    ensures ResolveEvery(s, Differences(file, template, order), template).1.Some?
  {
    var d := Differences(file, template, order);
    assert |d| % 2 == 0 by {
      DifferencesShape(file, template, order);
    }
    EvenNonEmpty(|d|);
    assert IsWorded(d[1]) by {
      DifferencesWorded(file, template, order);
    }
    var two := d[..2];
    assert two[..1] == d[..1] && two[1] == d[1];
    var prev := ResolveEvery(s, d[..1], template);
    if prev.1.None? {
      WordedNeverResolved(prev.0, d[1], template);
    }
    ResolveEveryStopsAtError(s, d, template, 2);
  }

  lemma EvenNonEmpty(n: nat)
    requires n % 2 == 0 && n != 0
    ensures n >= 2
  {
  }

  // --------------------------------------------------------------- updateFile

  /** The end of updateFile: the header, then the row at location, then the file's new date at the start of its table entry. */
  function Refresh(s: Store, location: int, row: seq<byte>, lastModified: int, fileLocation: int): (r: Store)
    requires Sound(s)
    ensures Sound(r) && r.usedFiles == s.usedFiles && r.usedVars == s.usedVars && r.fileInfo == s.fileInfo
  {
    var header := EncodeHeader(Header(s.availableVars, s.usedVars, s.availableFiles, s.usedFiles));
    EnqueueSound(s, 0, header);
    var headed := UpdateBinary(s);
    EnqueueSound(headed, location, row);
    var rowed := Enqueue(headed, location, row);
    EnqueueSound(rowed, FileEntryAt(s.availableVars, fileLocation), EncodeLong(lastModified));
    Enqueue(rowed, FileEntryAt(s.availableVars, fileLocation), EncodeLong(lastModified))
  }

  /** Refresh queues three writes and changes nothing else. */
  lemma RefreshWrites(s: Store, location: int, row: seq<byte>, lastModified: int, fileLocation: int)
    requires Sound(s)
    ensures var r := Refresh(s, location, row, lastModified, fileLocation);
            r.(queue := s.queue) == s
            && r.queue == s.queue + [Request(0, EncodeHeader(Header(s.availableVars, s.usedVars, s.availableFiles, s.usedFiles))),
                                     Request(location, row),
                                     Request(FileEntryAt(s.availableVars, fileLocation), EncodeLong(lastModified))]
  {
  }

  /**
   * updateFile(f, template, fInfo). file is f parsed (None: the parse
   * failed, and nothing happens). After the fill, a null template File
   * makes the error report for the failed template parse throw
   * NullPointerException, and a template that does not parse ends the
   * update; either way the fill's writes stay.
   * The row is filled as addFile fills one, every string of the
   * differences from the template is resolved, and the header, the row (at
   * the slot of file number usedFiles) and the new date (at the file's own
   * table entry) are queued. Neither the file map nor usedFiles changes.
   */
  ghost function UpdateFile(s: Store, file: Option<Dataset>, template: TemplateFile, fInfo: FileInfo,
                            blockOrder: seq<string>, diffOrder: seq<string>,
                            parseDouble: string -> Option<nat>): (r: (Store, Option<Exception>))
    requires Sound(s)
    requires file.Some? ==> IsOrderOf(blockOrder, BlockNames(file.value.blocks))
    requires template.Readable? ==> IsOrderOf(diffOrder, BlockNames(template.data.blocks))
    ensures Sound(r.0) && r.0.usedFiles == s.usedFiles && r.0.fileInfo == s.fileInfo
  {
    if file.None? then (s, None)
    else if file.value.numberOfVariables < 0 then (s, Some(IllegalArgument))
    else UpdateRow(s, file.value, template, fInfo, blockOrder, diffOrder, parseDouble)
  }

  /** updateFile once its row buffer is allocated: the fill, the resolution, the three writes. */
  ghost function UpdateRow(s: Store, file: Dataset, template: TemplateFile, fInfo: FileInfo,
                           blockOrder: seq<string>, diffOrder: seq<string>,
                           parseDouble: string -> Option<nat>): (r: (Store, Option<Exception>))
    requires Sound(s) && file.numberOfVariables >= 0
    requires IsOrderOf(blockOrder, BlockNames(file.blocks))
    requires template.Readable? ==> IsOrderOf(diffOrder, BlockNames(template.data.blocks))
    ensures Sound(r.0) && r.0.usedFiles == s.usedFiles && r.0.fileInfo == s.fileInfo
  {
    var filled := FillAll(s, Zeros(8 * file.numberOfVariables), FileVariables(file.blocks, blockOrder), parseDouble);
    if filled.2.Some? then (filled.0, filled.2)
    else if template.NullFile? then (filled.0, Some(NullPointer))
    else if template.Unreadable? then (filled.0, None)
    else ResolveThenRefresh(filled.0, file, template.data, filled.1, fInfo, diffOrder)
  }

  /** The end of updateFile, once the row is filled: every difference resolved, then the three writes. */
  ghost function ResolveThenRefresh(s: Store, file: Dataset, template: Dataset, row: seq<byte>, fInfo: FileInfo,
                                    diffOrder: seq<string>): (r: (Store, Option<Exception>))
    requires Sound(s) && IsOrderOf(diffOrder, BlockNames(template.blocks))
    ensures Sound(r.0) && r.0.usedFiles == s.usedFiles && r.0.fileInfo == s.fileInfo
  {
    OrderIsOfNames(diffOrder, BlockNames(template.blocks));
    var resolved := ResolveEvery(s, Differences(file, template, diffOrder), template);
    ResolvedSound(s, resolved.0);
    if resolved.1.Some? then resolved
    else (Refresh(resolved.0, RowSlot(resolved.0), row, file.lastModified, fInfo.fileLocation), None)
  }

  /** The end of updateFile as its two outcomes, given what the resolution left. */
  lemma ResolveThenRefreshCases(s: Store, file: Dataset, template: Dataset, row: seq<byte>, fInfo: FileInfo,
                                diffOrder: seq<string>, resolved: (Store, Option<Exception>))
    requires Sound(s) && IsOrderOf(diffOrder, BlockNames(template.blocks))
    requires resolved == ResolveEvery(s, Differences(file, template, diffOrder), template) && Sound(resolved.0)
    ensures ResolveThenRefresh(s, file, template, row, fInfo, diffOrder)
            == if resolved.1.Some? then resolved
               else (Refresh(resolved.0, RowSlot(resolved.0), row, file.lastModified, fInfo.fileLocation), None)
  {
  }

  /**
   * Once the file and the template parse and the row is filled, updateFile
   * goes through exactly when the file has no difference from its template.
   */
  lemma UpdateNeedsNoDifferences(s: Store, file: Dataset, template: Dataset, fInfo: FileInfo,
                                 blockOrder: seq<string>, diffOrder: seq<string>, parseDouble: string -> Option<nat>)
    requires Sound(s) && file.numberOfVariables >= 0
    requires IsOrderOf(blockOrder, BlockNames(file.blocks)) && IsOrderOf(diffOrder, BlockNames(template.blocks))
    requires FillAll(s, Zeros(8 * file.numberOfVariables), FileVariables(file.blocks, blockOrder), parseDouble).2.None?
    ensures UpdateFile(s, Some(file), Readable(template), fInfo, blockOrder, diffOrder, parseDouble).1.None?
            <==> Differences(file, template, diffOrder) == []
  {
    var filled := FillAll(s, Zeros(8 * file.numberOfVariables), FileVariables(file.blocks, blockOrder), parseDouble);
    assert UpdateFile(s, Some(file), Readable(template), fInfo, blockOrder, diffOrder, parseDouble)
           == ResolveThenRefresh(filled.0, file, template, filled.1, fInfo, diffOrder);
    ResolveThenRefreshOkIff(filled.0, file, template, filled.1, fInfo, diffOrder);
  }

  /** The end of updateFile goes through exactly when there is nothing to resolve. */
  lemma ResolveThenRefreshOkIff(s: Store, file: Dataset, template: Dataset, row: seq<byte>, fInfo: FileInfo,
                                diffOrder: seq<string>)
    requires Sound(s) && IsOrderOf(diffOrder, BlockNames(template.blocks))
    ensures ResolveThenRefresh(s, file, template, row, fInfo, diffOrder).1.None?
            <==> Differences(file, template, diffOrder) == []
  {
    OrderIsOfNames(diffOrder, BlockNames(template.blocks));
    if Differences(file, template, diffOrder) != [] {
      DifferencesNeverResolved(s, file, template, diffOrder);
    }
  }

  /** The store updateFile leaves when it goes through: the filled row, refreshed at the slot of file number usedFiles. */
  lemma UpdateFileOk(s: Store, file: Dataset, template: Dataset, fInfo: FileInfo,
                     blockOrder: seq<string>, diffOrder: seq<string>, parseDouble: string -> Option<nat>)
    returns (filled: (Store, seq<byte>, Option<Exception>))
    requires Sound(s)
    requires IsOrderOf(blockOrder, BlockNames(file.blocks)) && IsOrderOf(diffOrder, BlockNames(template.blocks))
    requires UpdateFile(s, Some(file), Readable(template), fInfo, blockOrder, diffOrder, parseDouble).1.None?
    ensures file.numberOfVariables >= 0
    ensures filled == FillAll(s, Zeros(8 * file.numberOfVariables), FileVariables(file.blocks, blockOrder), parseDouble)
    ensures filled.2.None? && Differences(file, template, diffOrder) == []
    ensures UpdateFile(s, Some(file), Readable(template), fInfo, blockOrder, diffOrder, parseDouble).0
            == Refresh(filled.0, RowSlot(filled.0), filled.1, file.lastModified, fInfo.fileLocation)
  {
    filled := FillAll(s, Zeros(8 * file.numberOfVariables), FileVariables(file.blocks, blockOrder), parseDouble);
    UpdateNeedsNoDifferences(s, file, template, fInfo, blockOrder, diffOrder, parseDouble);
  }

  /**
   * When updateFile goes through, its last three writes are the header, the
   * row (one double per variable of the file) at the slot of file number
   * usedFiles, and the new date at the start of the file's table entry. That
   * slot starts where the row of every stored file ends: the file's own row
   * is not rewritten.
   */
  lemma UpdateWritesPastOwnRow(s: Store, file: Dataset, template: Dataset, fInfo: FileInfo,
                               blockOrder: seq<string>, diffOrder: seq<string>, parseDouble: string -> Option<nat>)
    requires Sound(s)
    requires IsOrderOf(blockOrder, BlockNames(file.blocks)) && IsOrderOf(diffOrder, BlockNames(template.blocks))
    requires UpdateFile(s, Some(file), Readable(template), fInfo, blockOrder, diffOrder, parseDouble).1.None?
    ensures var r := UpdateFile(s, Some(file), Readable(template), fInfo, blockOrder, diffOrder, parseDouble).0;
            RefreshedAt(r, RowSlot(r), 8 * file.numberOfVariables, file.lastModified, fInfo.fileLocation)
            && OwnRowEndsBefore(r, fInfo.fileLocation, RowSlot(r))
  {
    var filled := UpdateFileOk(s, file, template, fInfo, blockOrder, diffOrder, parseDouble);
    var r := UpdateFile(s, Some(file), Readable(template), fInfo, blockOrder, diffOrder, parseDouble).0;
    RefreshedPastOwnRow(filled.0, filled.1, 8 * file.numberOfVariables, file.lastModified, fInfo.fileLocation, r);
  }

  /**
   * The last three writes of r: the header with r's counters, a row of the
   * given size at location, and the date at the start of entry fileLocation
   * of the file table.
   */
  predicate RefreshedAt(r: Store, location: int, size: int, lastModified: int, fileLocation: int) {
    var q := r.queue;
    |q| >= 3 && q[|q| - 3] == Request(0, EncodeHeader(Header(r.availableVars, r.usedVars, r.availableFiles, r.usedFiles)))
    && q[|q| - 2].location == location && |q[|q| - 2].data| == size
    && q[|q| - 1] == Request(FileEntryAt(r.availableVars, fileLocation), EncodeLong(lastModified))
  }

  /** A store refreshed at the slot of file number usedFiles: that slot is at or past the end of every stored file's row. */
  lemma RefreshedPastOwnRow(s: Store, row: seq<byte>, size: int, lastModified: int, fileLocation: int, r: Store)
    requires Sound(s) && |row| == size && r == Refresh(s, RowSlot(s), row, lastModified, fileLocation)
    ensures RefreshedAt(r, RowSlot(r), size, lastModified, fileLocation)
            && OwnRowEndsBefore(r, fileLocation, RowSlot(r))
  {
    RefreshWrites(s, RowSlot(s), row, lastModified, fileLocation);
    var q := r.queue;
    assert q[|q| - 3] == Request(0, EncodeHeader(Header(s.availableVars, s.usedVars, s.availableFiles, s.usedFiles)));
    assert q[|q| - 2] == Request(RowSlot(s), row);
    assert q[|q| - 1] == Request(FileEntryAt(s.availableVars, fileLocation), EncodeLong(lastModified));
    if s.offset >= 0 && 0 <= fileLocation < s.usedFiles {
      PastOwnRow(fileLocation, s.usedFiles, s.offset);
    }
  }

  lemma PastOwnRow(n: int, used: int, offset: int)
    requires 0 <= n < used && offset >= 0
    ensures (n + 1) * offset <= used * offset
  {
    assert used * offset == (n + 1) * offset + (used - n - 1) * offset;
    assert (used - n - 1) * offset >= 0;
  }

  /**
   * With room in both tables for what it meets, updateFile of a file with a
   * table entry puts each variable's double where getData looks for file
   * number usedFiles, the slot the next added file takes.
   */
  lemma UpdatedValuesLandAtNextSlot(s: Store, file: Dataset, template: Dataset, fInfo: FileInfo,
                                    blockOrder: seq<string>, diffOrder: seq<string>,
                                    parseDouble: string -> Option<nat>, k: nat)
    requires Valid(s) && fInfo.fileLocation < s.availableFiles
    requires IsOrderOf(blockOrder, BlockNames(file.blocks)) && IsOrderOf(diffOrder, BlockNames(template.blocks))
    requires s.usedVars + |FileVariables(file.blocks, blockOrder)| <= s.availableVars
    requires UpdateFile(s, Some(file), Readable(template), fInfo, blockOrder, diffOrder, parseDouble).1.None?
    requires var vs := FileVariables(file.blocks, blockOrder);
             k < |vs| && LastWithKey(vs, k) && Parses(vs[k], parseDouble) && Bits(vs[k], parseDouble) < Pow256(8)
    ensures var v := FileVariables(file.blocks, blockOrder)[k];
            GetData(Drained(UpdateFile(s, Some(file), Readable(template), fInfo, blockOrder, diffOrder, parseDouble).0),
                    v, s.usedFiles)
            == Ok(Bits(v, parseDouble))
  {
    var vs := FileVariables(file.blocks, blockOrder);
    var filled := UpdateFileOk(s, file, template, fInfo, blockOrder, diffOrder, parseDouble);
    FillAllWithRoom(s, Zeros(8 * file.numberOfVariables), vs, parseDouble);
    FilledRowReadsBack(s, filled, vs, parseDouble, k, s.usedFiles, filled.0, RowSlot(filled.0),
                       file.lastModified, fInfo.fileLocation);
  }

  /**
   * The row the fill leaves, refreshed at the slot of file n of a store
   * that extends the filled one without new columns: getData for file n reads
   * each variable's double.
   */
  lemma FilledRowReadsBack(s: Store, filled: (Store, seq<byte>, Option<Exception>), vs: seq<Variable>,
                           parseDouble: string -> Option<nat>, k: nat, n: int, resolved: Store, location: int,
                           lastModified: int, fileLocation: int)
    requires Valid(s) && 0 <= n && fileLocation < s.availableFiles && s.usedVars + |vs| <= s.availableVars
    requires Filled(s, filled, vs, parseDouble) && filled.2.None?
    requires Extends(filled.0, resolved) && resolved.variableInfo == filled.0.variableInfo
    requires resolved.usedVars == filled.0.usedVars && Sound(resolved)
    requires k < |vs| && LastWithKey(vs, k) && Parses(vs[k], parseDouble) && Bits(vs[k], parseDouble) < Pow256(8)
    requires location == SlotOf(resolved, n)
    ensures GetData(Drained(Refresh(resolved, location, filled.1, lastModified, fileLocation)), vs[k], n)
            == Ok(Bits(vs[k], parseDouble))
  {
    ExtendsValid(filled.0, resolved);
    RefreshReadsBack(resolved, n, location, vs[k], Bits(vs[k], parseDouble), filled.1, lastModified, fileLocation);
  }

  /**
   * A valid store refreshed with a row at the slot of file n and a date in
   * the file table: getData for a stored variable and file n reads the
   * double the row holds at its column.
   */
  lemma RefreshReadsBack(s: Store, n: int, slot: int, v: Variable, bits: nat, row: seq<byte>, lastModified: int, fileLocation: int)
    requires Valid(s) && 0 <= n && fileLocation < s.availableFiles && slot == SlotOf(s, n)
    requires Key(v) in s.variableInfo && Holds(row, Column(s, Key(v)), bits) && bits < Pow256(8)
    ensures GetData(Drained(Refresh(s, slot, row, lastModified, fileLocation)), v, n)
            == if Hashable(v) then Ok(bits) else Err(NumberFormat)
  {
    var r := Refresh(s, slot, row, lastModified, fileLocation);
    var at := s.variableInfo[Key(v)] + s.offset * n;
    SlotPlusColumn(s.variableInfo[Key(v)], s.availableVars, s.availableFiles, n, s.offset);
    assert n * s.offset >= 0;
    RefreshWrites(s, slot, row, lastModified, fileLocation);
    ReadThroughRowThenDate(r.disk, r.queue, slot, row, FileEntryAt(s.availableVars, fileLocation), EncodeLong(lastModified),
                           Column(s, Key(v)), at, bits);
    DrainedReads(r, v, n, at, bits);
  }

  /** A queue whose last writes are a row at slot and then bytes ending before it: the row's double at c is read at slot + c. */
  lemma ReadThroughRowThenDate(disk: seq<byte>, q: seq<Request>, slot: int, row: seq<byte>, entry: int, date: seq<byte>,
                               c: int, at: int, bits: nat)
    requires |q| >= 2 && q[|q| - 2] == Request(slot, row) && q[|q| - 1] == Request(entry, date)
    requires slot >= 0 && entry + |date| <= slot && Holds(row, c, bits) && bits < Pow256(8) && at == slot + c
    ensures ReadDouble(ApplyAll(disk, q), at) == bits
  {
    ApplyLastTwo(disk, q);
    ReadRowThenDate(ApplyAll(disk, q[..|q| - 2]), slot, row, entry, date, c, at, bits);
  }

  /** A row written at slot and then eight bytes ending before it: the row's double at c is read at slot + c. */
  lemma ReadRowThenDate(before: seq<byte>, slot: int, row: seq<byte>, entry: int, date: seq<byte>,
                        c: int, at: int, bits: nat)
    requires slot >= 0 && entry + |date| <= slot && Holds(row, c, bits) && bits < Pow256(8) && at == slot + c
    ensures ReadDouble(Write(Write(before, slot, row), entry, date), at) == bits
  {
    var written := Write(before, slot, row);
    ReadWithin(before, slot, row, c, 8);
    WriteElsewhere(written, entry, date, at, 8);
    UnsignedBigEndian(bits, 8);
  }

  /** When updateFile goes through, the file's table entry starts with its new date once the writes are applied. */
  lemma UpdatedDateReadsBack(s: Store, file: Dataset, template: Dataset, fInfo: FileInfo,
                             blockOrder: seq<string>, diffOrder: seq<string>, parseDouble: string -> Option<nat>)
    requires Sound(s)
    requires IsOrderOf(blockOrder, BlockNames(file.blocks)) && IsOrderOf(diffOrder, BlockNames(template.blocks))
    requires UpdateFile(s, Some(file), Readable(template), fInfo, blockOrder, diffOrder, parseDouble).1.None?
    requires var r := UpdateFile(s, Some(file), Readable(template), fInfo, blockOrder, diffOrder, parseDouble).0;
             FileEntryAt(r.availableVars, fInfo.fileLocation) >= 0
    ensures var r := UpdateFile(s, Some(file), Readable(template), fInfo, blockOrder, diffOrder, parseDouble).0;
            ReadAt(Contents(r), FileEntryAt(r.availableVars, fInfo.fileLocation), 8) == Some(EncodeLong(file.lastModified))
  {
    var filled := UpdateFileOk(s, file, template, fInfo, blockOrder, diffOrder, parseDouble);
    var r := UpdateFile(s, Some(file), Readable(template), fInfo, blockOrder, diffOrder, parseDouble).0;
    var q := r.queue;
    var at := FileEntryAt(r.availableVars, fInfo.fileLocation);
    assert q == q[..|q| - 1] + [Request(at, EncodeLong(file.lastModified))];
    var front := ApplyAll(r.disk, q[..|q| - 1]);
    ApplyAllAppend(r.disk, q[..|q| - 1], [Request(at, EncodeLong(file.lastModified))]);
    assert [Request(at, EncodeLong(file.lastModified))][1..] == [];
    assert Contents(r) == Write(front, at, EncodeLong(file.lastModified));
    ReadAfterWrite(front, at, EncodeLong(file.lastModified));
  }

  // ------------------------------------------------------------- corrected

  /**
   * The row of stored file number fileLocation ends at or before location
   * (with a stride that is not negative).
   */
  predicate OwnRowEndsBefore(r: Store, fileLocation: int, location: int) {
    r.offset >= 0 && 0 <= fileLocation < r.usedFiles ==> SlotOf(r, fileLocation + 1) <= location
  }

  /** Where the row of file number n starts. */
  function SlotOf(s: Store, n: int): int {
    DataStart(s.availableVars, s.availableFiles) + n * s.offset
  }

  /**
   * updateFile as its comments intend: only the codes of the differences
   * are resolved, as addFile resolves them, and the row goes back to the
   * file's own slot.
   */
  ghost function CorrectedUpdateFile(s: Store, file: Option<Dataset>, template: TemplateFile, fInfo: FileInfo,
                                     blockOrder: seq<string>, diffOrder: seq<string>,
                                     parseDouble: string -> Option<nat>): (r: (Store, Option<Exception>))
    requires Sound(s)
    requires file.Some? ==> IsOrderOf(blockOrder, BlockNames(file.value.blocks))
    requires template.Readable? ==> IsOrderOf(diffOrder, BlockNames(template.data.blocks))
    ensures Sound(r.0) && r.0.usedFiles == s.usedFiles && r.0.fileInfo == s.fileInfo
  {
    if file.None? then (s, None)
    else if file.value.numberOfVariables < 0 then (s, Some(IllegalArgument))
    else
      var f := file.value;
      var filled := FillAll(s, Zeros(8 * f.numberOfVariables), FileVariables(f.blocks, blockOrder), parseDouble);
      if filled.2.Some? then (filled.0, filled.2)
      else if template.NullFile? then (filled.0, Some(NullPointer))
      else if template.Unreadable? then (filled.0, None)
      else
        OrderIsOfNames(diffOrder, BlockNames(template.data.blocks));
        var resolved := ResolveAll(filled.0, Differences(f, template.data, diffOrder), template.data);
        ResolvedSound(filled.0, resolved.0);
        if resolved.1.Some? then resolved
        else
          (Refresh(resolved.0, SlotOf(resolved.0, fInfo.fileLocation), filled.1, f.lastModified, fInfo.fileLocation), None)
  }

  /**
   * The corrected update goes through for exactly the files addFile would
   * store from the same store and template: the same fill, the same
   * resolution.
   */
  lemma CorrectedUpdateAcceptsWhatAddRowAccepts(s: Store, file: Dataset, template: Dataset, fInfo: FileInfo,
                                                blockOrder: seq<string>, diffOrder: seq<string>,
                                                parseDouble: string -> Option<nat>)
    requires Sound(s) && '.' in file.fileName && file.numberOfVariables >= 0
    requires IsOrderOf(blockOrder, BlockNames(file.blocks)) && IsOrderOf(diffOrder, BlockNames(template.blocks))
    ensures CorrectedUpdateFile(s, Some(file), Readable(template), fInfo, blockOrder, diffOrder, parseDouble).1.None?
            <==> AddRow(s, file, Some(template), blockOrder, diffOrder, parseDouble).1.Ok?
  {
  }

  /**
   * With room for what it meets, the corrected update of a file with a
   * table entry puts each variable's double where getData looks for that
   * file.
   */
  lemma CorrectedUpdateReadsBack(s: Store, file: Dataset, template: Dataset, fInfo: FileInfo,
                                 blockOrder: seq<string>, diffOrder: seq<string>,
                                 parseDouble: string -> Option<nat>, k: nat)
    requires Valid(s) && 0 <= fInfo.fileLocation < s.availableFiles
    requires IsOrderOf(blockOrder, BlockNames(file.blocks)) && IsOrderOf(diffOrder, BlockNames(template.blocks))
    requires s.usedVars + |FileVariables(file.blocks, blockOrder)| <= s.availableVars
    requires CorrectedUpdateFile(s, Some(file), Readable(template), fInfo, blockOrder, diffOrder, parseDouble).1.None?
    requires var vs := FileVariables(file.blocks, blockOrder);
             k < |vs| && LastWithKey(vs, k) && Parses(vs[k], parseDouble) && Bits(vs[k], parseDouble) < Pow256(8)
    ensures var v := FileVariables(file.blocks, blockOrder)[k];
            GetData(Drained(CorrectedUpdateFile(s, Some(file), Readable(template), fInfo, blockOrder, diffOrder, parseDouble).0),
                    v, fInfo.fileLocation)
            == Ok(Bits(v, parseDouble))
  {
    var vs := FileVariables(file.blocks, blockOrder);
    var filled, resolved := CorrectedUpdateOk(s, file, template, fInfo, blockOrder, diffOrder, parseDouble);
    FillAllWithRoom(s, Zeros(8 * file.numberOfVariables), vs, parseDouble);
    FilledRowReadsBack(s, filled, vs, parseDouble, k, fInfo.fileLocation, resolved, SlotOf(resolved, fInfo.fileLocation),
                       file.lastModified, fInfo.fileLocation);
  }

  /** The store the corrected update leaves when it goes through: the filled row, refreshed at the file's own slot. */
  lemma CorrectedUpdateOk(s: Store, file: Dataset, template: Dataset, fInfo: FileInfo,
                          blockOrder: seq<string>, diffOrder: seq<string>, parseDouble: string -> Option<nat>)
    returns (filled: (Store, seq<byte>, Option<Exception>), resolved: Store)
    requires Sound(s)
    requires IsOrderOf(blockOrder, BlockNames(file.blocks)) && IsOrderOf(diffOrder, BlockNames(template.blocks))
    requires CorrectedUpdateFile(s, Some(file), Readable(template), fInfo, blockOrder, diffOrder, parseDouble).1.None?
    ensures file.numberOfVariables >= 0
    ensures filled == FillAll(s, Zeros(8 * file.numberOfVariables), FileVariables(file.blocks, blockOrder), parseDouble)
    ensures filled.2.None? && Extends(filled.0, resolved) && resolved.variableInfo == filled.0.variableInfo
    ensures resolved.usedVars == filled.0.usedVars && Sound(resolved)
    ensures CorrectedUpdateFile(s, Some(file), Readable(template), fInfo, blockOrder, diffOrder, parseDouble).0
            == Refresh(resolved, SlotOf(resolved, fInfo.fileLocation), filled.1, file.lastModified, fInfo.fileLocation)
  {
    filled := FillAll(s, Zeros(8 * file.numberOfVariables), FileVariables(file.blocks, blockOrder), parseDouble);
    OrderIsOfNames(diffOrder, BlockNames(template.blocks));
    var all := ResolveAll(filled.0, Differences(file, template, diffOrder), template);
    resolved := all.0;
    ResolvedSound(filled.0, resolved);
    var location := SlotOf(resolved, fInfo.fileLocation);
    var r := CorrectedUpdateFile(s, Some(file), Readable(template), fInfo, blockOrder, diffOrder, parseDouble);
    assert r == if filled.2.Some? then (filled.0, filled.2)
                else if all.1.Some? then all
                else (Refresh(resolved, location, filled.1, file.lastModified, fInfo.fileLocation), None);
  }
}
