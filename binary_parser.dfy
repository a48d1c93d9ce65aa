/**
 * The store itself (src/binaryUtil/BinaryParser.java) as a class: the table
 * counters, the stride, the two maps and the inconsistency counter are its
 * fields, the file is a byte sequence and the worker's queue a sequence of
 * writes. Every method is proved against the function of StoreState,
 * StoreGrow or StoreUpdate that says what it does to the store's value,
 * State().
 */
module BinaryStore {
  import opened Wrappers
  import opened Thrown
  import opened JavaStrings
  import opened Variables
  import opened Layout
  import opened StoreState
  import opened StoreGrow
  import opened StoreOpen
  import opened StoreCopy
  import opened Slha
  import StoreUpdate
  import StoreRefresh
  import FileChecker

  /** updateFile's template as the store sees it: the parsed file, or why there is none. */
  function TemplateOf(template: Slha.SlhaFile?, nullTemplate: bool): (r: StoreRefresh.TemplateFile)
    reads template
    ensures r.Readable? <==> template != null
    ensures r.NullFile? <==> template == null && nullTemplate
  {
    if template != null then StoreRefresh.Readable(template.Contents())
    else if nullTemplate then StoreRefresh.NullFile
    else StoreRefresh.Unreadable
  }

  class BinaryParser {
    var offset: int
    var availableVars: int
    var usedVars: int
    var availableFiles: int
    var usedFiles: int
    var variableInfo: map<VarKey, int>
    var fileInfo: map<string, FileInfo>
    var loggedInconsistencies: int
    /** The bytes the file holds now. */
    var disk: seq<byte>
    /** The worker's writeRequestQueue: writes not yet applied, oldest first. */
    var queue: seq<Request>

    /** The store's value. */
    function State(): Store
      reads this
    {
      Store(offset, availableVars, usedVars, availableFiles, usedFiles, variableInfo, fileInfo,
            loggedInconsistencies, disk, queue)
    }

    /** A store object over the given value (what the two branches of the Java constructor end in). */
    constructor FromState(s: Store)
      ensures State() == s
    {
      offset, availableVars, usedVars, availableFiles, usedFiles := s.offset, s.availableVars, s.usedVars,
                                                                    s.availableFiles, s.usedFiles;
      variableInfo, fileInfo, loggedInconsistencies := s.variableInfo, s.fileInfo, s.loggedInconsistencies;
      disk, queue := s.disk, s.queue;
    }

    /**
     * The constructor on a file that does not exist: createNewBinaryFile
     * queues the header and the zeroed tables, then the stride is set.
     */
    constructor Create()
      ensures State() == Created()
    {
      availableVars, usedVars := InitialAvailableVariables, 0;
      availableFiles, usedFiles := InitialAvailableFiles, 0;
      variableInfo, fileInfo, loggedInconsistencies := map[], map[], 0;
      disk, queue := [], [];
      offset := 0;
      new;
      var header := EncodeHeader(CreatedHeader());
      var tables := Zeros(FileBinarySize * InitialAvailableFiles + VariableBinarySize * InitialAvailableVariables);
      AddRequest(0, header);
      AddRequest(HeaderSize, tables);
      offset := 8 * availableVars;
    }

    /**
     * The constructor on an existing file: gatherHeader, the stride,
     * gatherVariables and the table loop of verifyFiles. A read past the end
     * of the file throws out of the constructor, so no store is made.
     */
    static method Open(contents: seq<byte>) returns (r: Result<BinaryParser, Exception>)
      ensures r.Ok? <==> Opened(contents).Ok?
      ensures r.Err? ==> r.error == EndOfFile
      ensures r.Ok? ==> fresh(r.value) && r.value.State() == Opened(contents).value
    {
      if |contents| < HeaderSize {
        return Err(EndOfFile);
      }
      var h := DecodeHeader(contents[..HeaderSize]);
      var vars := GatherVariablesLoop(contents, Nat(h.usedVars));
      if vars.Err? {
        return Err(vars.error);
      }
      var table, read := VerifyFilesLoop(contents, h.availableVars, Nat(h.usedFiles));
      var p := new BinaryParser.FromState(Store(8 * h.availableVars, h.availableVars, h.usedVars,
                                                h.availableFiles, h.usedFiles, vars.value, table, 0, contents, []));
      return Ok(p);
    }

    /** addRequest: the write goes to the back of the worker's queue. */
    method AddRequest(location: int, data: seq<byte>)
      modifies this
      ensures State() == Enqueue(old(State()), location, data)
    {
      queue := queue + [Request(location, data)];
    }

    /**
     * The worker catching up with its queue (what grow waits for): the
     * oldest request is taken off and written, until none is left.
     */
    method Flush()
      modifies this
      ensures State() == Drained(old(State()))
    {
      while |queue| > 0
        invariant ApplyAll(disk, queue) == old(Contents(State()))
        invariant State() == old(State()).(disk := disk, queue := queue)
        decreases |queue|
      {
        var head := queue[0];
        queue := queue[1..];
        disk := Write(disk, head.location, head.data);
      }
    }

    /**
     * grow: the worker is drained; a full table grows (the variables' by a
     * quarter, the files' twofold), the header and stride take the new sizes,
     * and the copy to the new file replaces the file and the column map.
     * A zero table size throws out of grow; a copy that throws is caught and
     * leaves the old file and map in place.
     */
    method Grow() returns (err: Option<Exception>)
      requires Sound(State())
      modifies this
      ensures (State(), err) == Grown(old(State()))
    {
      ghost var s := State();
      Flush();
      var r;
      r, err := GrowDrained(s, State());
      offset, availableVars, availableFiles, disk, variableInfo := r.offset, r.availableVars, r.availableFiles,
                                                                     r.disk, r.variableInfo;
    }

    /**
     * getData: the double at the variable's column in the given row, read from
     * the file as it is now; the lookup throws when the variable's hashCode does.
     */
    method GetData(v: Variable, fileNumber: int) returns (r: Result<nat, Exception>)
      ensures r == StoreState.GetData(State(), v, fileNumber)
    {
      if !Hashable(v) {
        return Err(NumberFormat);
      }
      if Key(v) !in variableInfo {
        return Err(NullPointer);
      }
      var location := variableInfo[Key(v)];
      r := Ok(ReadDouble(disk, location + offset * fileNumber));
    }

    /** CotainsFile: the name cut at its last '.' (unless that is its first char), looked up in the file map. */
    method CotainsFile(name: string) returns (b: bool)
      ensures b == ContainsFile(State(), name)
    {
      var index := LastIndexOf(name, '.');
      var stored := if index > 0 then name[..index] else name;
      b := stored in fileInfo;
    }

    /**
     * addVariable: a full variable table is grown first (an exception out of
     * grow ends the call); then the variable is stored unless it already is.
     */
    method AddVariable(v: Variable) returns (r: Result<bool, Exception>)
      requires Sound(State())
      modifies this
      ensures (State(), r) == StoreUpdate.AddVariable(old(State()), v)
    {
      StoreUpdate.GrownSound(State());
      if usedVars == availableVars {
        var err := Grow();
        if err.Some? {
          return Err(err.value);
        }
      }
      r := InsertVariable(v);
    }

    /**
     * The rest of addVariable: the lookup throws when the variable's hashCode
     * does; false for a stored variable; otherwise the PDG codes are parsed,
     * the entry is queued at the next table position with the next column
     * start, the variable is mapped to it, and true returned.
     */
    method InsertVariable(v: Variable) returns (r: Result<bool, Exception>)
      requires Sound(State())
      modifies this
      ensures (State(), r) == StoreUpdate.InsertVariable(old(State()), v)
    {
      if !Hashable(v) {
        return Err(NumberFormat);
      }
      var k := Key(v);
      if k in variableInfo {
        return Ok(false);
      }
      var p1, p2, p3 := ParseInt(v.pdg), ParseInt(v.pdg2), ParseInt(v.pdg3);
      if p1.None? || p2.None? || p3.None? {
        return Err(NumberFormat);
      }
      QueueEntry(v, p1.value, p2.value, p3.value);
      return Ok(true);
    }

    /** The new variable's entry queued at the next table position, its column recorded, usedVars one more. */
    method QueueEntry(v: Variable, p1: int, p2: int, p3: int)
      requires Sound(State()) && Key(v) !in variableInfo
      modifies this
      ensures State() == StoreUpdate.NewEntry(old(State()), v, p1, p2, p3)
    {
      var start := DataStart(availableVars, availableFiles) + 8 * usedVars;
      AddRequest(VarEntryAt(usedVars), EncodeVarEntry(p1, p2, p3, Trim(v.block), Trim(v.description), start));
      variableInfo := variableInfo[Key(v) := start];
      usedVars := usedVars + 1;
    }

    /**
     * resolveError: the leading int of the finding picks the case; cases 1,
     * 2 and 3 count one inconsistency, 1 and 3 mark columns of the row being
     * added, any other code is counted and refused.
     */
    method ResolveError(inconsistency: string, template: SlhaFile) returns (thrown: Option<Exception>)
      modifies this
      ensures (State(), thrown) == StoreUpdate.ResolveError(old(State()), inconsistency, template.Contents())
    {
      var toks := Tokens(inconsistency);
      if |toks| == 0 {
        return Some(NoSuchElement);
      }
      var code := ParseInt(toks[0]);
      if code.None? {
        return Some(InputMismatch);
      }
      loggedInconsistencies := loggedInconsistencies + 1;
      thrown := ResolveCode(code.value, toks, template);
    }

    /** The switch of resolveError, once the finding is counted. */
    method ResolveCode(code: int, toks: seq<string>, template: SlhaFile) returns (thrown: Option<Exception>)
      modifies this
      ensures (State(), thrown) == StoreUpdate.ResolveCode(old(State()), code, toks, template.Contents())
    {
      if code == 1 {
        if |toks| < 2 {
          return Some(NoSuchElement);
        }
        var block := template.GetField(toks[1]);
        if block.Err? {
          return None;
        }
        thrown := MarkColumns(block.value.vars);
      } else if code == 2 {
        thrown := None;
      } else if code == 3 {
        thrown := MarkColumns([StoreUpdate.NamedVariable(toks)]);
      } else {
        thrown := Some(IllegalArgument);
      }
    }

    /**
     * The writes of resolveError: MAX_VALUE at each variable's column in the
     * row of the file being added, in order; a variable whose hashCode throws,
     * or one not stored, ends the loop with that exception.
     */
    method MarkColumns(vs: seq<Variable>) returns (thrown: Option<Exception>)
      modifies this
      ensures (State(), thrown) == StoreUpdate.Marked(old(State()), StoreUpdate.ColumnMarks(old(State()), vs))
    {
      ghost var s := State();
      var i := 0;
      while i < |vs|
        invariant 0 <= i <= |vs|
        invariant StoreUpdate.ColumnMarks(s, vs[..i]).1.None?
        invariant State() == StoreUpdate.EnqueueAll(s, StoreUpdate.ColumnMarks(s, vs[..i]).0)
      {
        if !Hashable(vs[i]) {
          StoreUpdate.ColumnMarksThrowAt(s, vs, i);
          return Some(NumberFormat);
        }
        var k := Key(vs[i]);
        if k !in variableInfo {
          StoreUpdate.ColumnMarksThrowAt(s, vs, i);
          return Some(NullPointer);
        }
        ghost var marks := StoreUpdate.ColumnMarks(s, vs[..i]).0;
        var mark := StoreUpdate.Mark(State(), k);
        assert mark == StoreUpdate.Mark(s, k);
        AddRequest(mark.location, mark.data);
        assert State() == StoreUpdate.EnqueueAll(s, marks + [mark]) by {
          StoreUpdate.EnqueueAllPlusOne(s, marks, mark);
        }
        assert marks + [mark] == StoreUpdate.ColumnMarks(s, vs[..i + 1]).0 && StoreUpdate.ColumnMarks(s, vs[..i + 1]).1.None? by {
          StoreUpdate.ColumnMarksExtend(s, vs, i);
        }
        i := i + 1;
      }
      assert vs[..i] == vs;
      thrown := None;
    }

    /**
     * addFile(file, template): grow first when the file table is full, then
     * the table entry and the row. The orders in which the two files' block
     * names are visited are the HashSets' and are returned.
     */
    method AddFile(file: SlhaFile, template: SlhaFile?, parseDouble: string -> Option<nat>)
      returns (r: Result<bool, Exception>, ghost blockOrder: seq<string>, ghost diffOrder: seq<string>)
      requires Sound(State())
      modifies this
      ensures FileChecker.IsOrderOf(blockOrder, BlockNames(file.data))
      ensures template != null ==> FileChecker.IsOrderOf(diffOrder, BlockNames(template.data))
      ensures (State(), r) == StoreUpdate.AddFile(old(State()), file.Contents(),
                                                  if template == null then None else Some(template.Contents()),
                                                  blockOrder, diffOrder, parseDouble)
    {
      StoreUpdate.GrownSound(State());
      if usedFiles == availableFiles {
        var err := Grow();
        if err.Some? {
          blockOrder := FileChecker.OrderExists(BlockNames(file.data));
          diffOrder := [];
          if template != null {
            diffOrder := FileChecker.OrderExists(BlockNames(template.data));
          }
          return Err(err.value), blockOrder, diffOrder;
        }
      }
      r, blockOrder, diffOrder := AddFileWithRoom(file, template, parseDouble);
    }

    /** addFile once the file table has room: the table entry (the name up to its first '.'), then the row. */
    method AddFileWithRoom(file: SlhaFile, template: SlhaFile?, parseDouble: string -> Option<nat>)
      returns (r: Result<bool, Exception>, ghost blockOrder: seq<string>, ghost diffOrder: seq<string>)
      requires Sound(State())
      modifies this
      ensures FileChecker.IsOrderOf(blockOrder, BlockNames(file.data))
      ensures template != null ==> FileChecker.IsOrderOf(diffOrder, BlockNames(template.data))
      ensures (State(), r) == StoreUpdate.AddFileWithRoom(old(State()), file.Contents(),
                                                           if template == null then None else Some(template.Contents()),
                                                           blockOrder, diffOrder, parseDouble)
    {
      blockOrder := FileChecker.OrderExists(BlockNames(file.data));
      diffOrder := [];
      if template != null {
        diffOrder := FileChecker.OrderExists(BlockNames(template.data));
      }
      var dot := IndexOf(file.fileName, '.');
      if dot < 0 || dot > FileNameMaxChars {
        return Err(IndexOutOfBounds), blockOrder, diffOrder;
      }
      StoreState.EnqueueSound(State(), FileEntryAt(availableVars, usedFiles),
                              EncodeFileEntry(file.lastModified, file.fileName[..dot], usedFiles));
      AddRequest(FileEntryAt(availableVars, usedFiles), EncodeFileEntry(file.lastModified, file.fileName[..dot], usedFiles));
      if file.numberOfVariables < 0 {
        return Err(IllegalArgument), blockOrder, diffOrder;
      }
      r, blockOrder, diffOrder := AddRow(file, template, parseDouble);
    }

    /** The rest of addFile: the row filled, the template's differences resolved, the row stored. */
    method AddRow(file: SlhaFile, template: SlhaFile?, parseDouble: string -> Option<nat>)
      returns (r: Result<bool, Exception>, ghost blockOrder: seq<string>, ghost diffOrder: seq<string>)
      requires Sound(State()) && '.' in file.fileName && file.numberOfVariables >= 0
      modifies this
      ensures FileChecker.IsOrderOf(blockOrder, BlockNames(file.data))
      ensures template != null ==> FileChecker.IsOrderOf(diffOrder, BlockNames(template.data))
      ensures (State(), r) == StoreUpdate.AddRow(old(State()), file.Contents(),
                                                 if template == null then None else Some(template.Contents()),
                                                 blockOrder, diffOrder, parseDouble)
    {
      var names := file.GetBlocks();
      var row, thrown;
      row, thrown, blockOrder := FillRow(file, names, Zeros(8 * file.numberOfVariables), parseDouble);
      diffOrder := [];
      if template != null {
        diffOrder := FileChecker.OrderExists(BlockNames(template.data));
      }
      if thrown.Some? {
        return Err(thrown.value), blockOrder, diffOrder;
      }
      if template == null {
        return Err(NullPointer), blockOrder, diffOrder;
      }
      var findings;
      findings, diffOrder := FileChecker.ReportDifferences(file, template);
      ghost var filled := State();
      thrown := ResolveFindings(findings, template);
      StoreUpdate.ResolvedSound(filled, State());
      if thrown.Some? {
        return Err(thrown.value), blockOrder, diffOrder;
      }
      StoreRow(file, row);
      r := Ok(true);
    }

    /**
     * The outer for-each loop of addFile: over the file's block names in the
     * HashSet's order, which is returned.
     */
    method FillRow(file: SlhaFile, names: set<string>, row0: seq<byte>, parseDouble: string -> Option<nat>)
      returns (row: seq<byte>, thrown: Option<Exception>, ghost order: seq<string>)
      requires Sound(State()) && names == BlockNames(file.data)
      modifies this
      ensures FileChecker.IsOrderOf(order, names)
      ensures (State(), row, thrown)
              == StoreUpdate.FillAll(old(State()), row0, StoreUpdate.FileVariables(file.data, order), parseDouble)
    {
      ghost var s := State();
      row, thrown, order := row0, None, [];
      var left := names;
      while left != {}
        invariant FileChecker.Visiting(names, order, left) && thrown.None?
        invariant (State(), row, None) == StoreUpdate.FillAll(s, row0, StoreUpdate.FileVariables(file.data, order), parseDouble)
        decreases |left|
      {
        var name :| name in left;
        row, thrown := FillNamedBlock(file, name, row, parseDouble, s, row0, order);
        if thrown.Some? {
          ghost var rest := FileChecker.OrderExists(left - {name});
          order := StoreUpdate.FillStopped(file.data, names, order, name, left, rest, s, row0, parseDouble);
          return;
        }
        FileChecker.VisitingStep(names, order, left, name);
        order := order + [name];
        left := left - {name};
      }
      FileChecker.VisitingDone(names, order);
    }

    /** One pass of the outer loop: the variables of block `name` after those of the names before it. */
    method FillNamedBlock(file: SlhaFile, name: string, row0: seq<byte>, parseDouble: string -> Option<nat>,
                          ghost s: Store, ghost start: seq<byte>, ghost order: seq<string>)
      returns (row: seq<byte>, thrown: Option<Exception>)
      requires Sound(s)
      requires (State(), row0, None) == StoreUpdate.FillAll(s, start, StoreUpdate.FileVariables(file.data, order), parseDouble)
      modifies this
      ensures (State(), row, thrown)
              == StoreUpdate.FillAll(s, start, StoreUpdate.FileVariables(file.data, order + [name]), parseDouble)
    {
      var vs := VariablesOf(file, name);
      StoreUpdate.FileVariablesStep(file.data, order, name);
      row, thrown := FillBlock(row0, vs, parseDouble, s, start, StoreUpdate.FileVariables(file.data, order));
    }

    /** file.getField(b).getVariables() for a name b of the file's own blocks. */
    static method VariablesOf(file: SlhaFile, name: string) returns (vs: seq<Variable>)
      ensures vs == StoreUpdate.BlockVariables(file.data, name)
    {
      var block := file.GetField(name);
      vs := if block.Ok? then block.value.vars else [];
    }

    /**
     * The inner for-each loop of addFile, over one block's variables in
     * order, going on from the variables `done` before it.
     */
    method FillBlock(row0: seq<byte>, vs: seq<Variable>, parseDouble: string -> Option<nat>,
                     ghost s: Store, ghost start: seq<byte>, ghost done: seq<Variable>)
      returns (row: seq<byte>, thrown: Option<Exception>)
      requires Sound(s) && (State(), row0, None) == StoreUpdate.FillAll(s, start, done, parseDouble)
      modifies this
      ensures (State(), row, thrown) == StoreUpdate.FillAll(s, start, done + vs, parseDouble)
    {
      row, thrown := row0, None;
      var j := 0;
      StoreUpdate.ConcatSlices(done, vs);
      while j < |vs|
        invariant 0 <= j <= |vs| && thrown.None?
        invariant (State(), row, None) == StoreUpdate.FillAll(s, start, done + vs[..j], parseDouble)
      {
        row, thrown := FillStep(row, vs[j], parseDouble, s, start, done + vs[..j]);
        if thrown.Some? {
          StoreUpdate.FillBlockStops(s, start, done, vs, j, parseDouble);
          return;
        }
        j := j + 1;
      }
    }

    /** One pass of the inner loop: the loop so far had not thrown, and goes on by one variable. */
    method FillStep(row0: seq<byte>, v: Variable, parseDouble: string -> Option<nat>,
                    ghost s: Store, ghost start: seq<byte>, ghost done: seq<Variable>)
      returns (row: seq<byte>, thrown: Option<Exception>)
      requires Sound(s) && (State(), row0, None) == StoreUpdate.FillAll(s, start, done, parseDouble)
      modifies this
      ensures (State(), row, thrown) == StoreUpdate.FillAll(s, start, done + [v], parseDouble)
    {
      StoreUpdate.FillAllStep(s, start, done, v, parseDouble);
      row, thrown := FillVariable(row0, v, parseDouble);
    }

    /** One variable of addFile's loop: stored if new, then its value put into the row at its column. */
    method FillVariable(row: seq<byte>, v: Variable, parseDouble: string -> Option<nat>)
      returns (filled: seq<byte>, thrown: Option<Exception>)
      requires Sound(State())
      modifies this
      ensures (State(), filled, thrown) == StoreUpdate.FillVariable(old(State()), row, v, parseDouble)
    {
      filled := row;
      thrown := StoreVariable(v);
      if thrown.Some? {
        return;
      }
      var index := variableInfo[Key(v)] - DataStart(availableVars, availableFiles);
      if v.value.None? {
        return row, Some(NullPointer);
      }
      var bits := parseDouble(v.value.value);
      if bits.None? {
        return;
      }
      var put := PutDouble(row, index, bits.value);
      if put.None? {
        return row, Some(IndexOutOfBounds);
      }
      filled := put.value;
    }

    /**
     * The first half of addFile's loop body: a variable not stored yet is
     * added, and each earlier file's row, from the last down to row 1, gets
     * MAX_VALUE in its column.
     */
    method StoreVariable(v: Variable) returns (thrown: Option<Exception>)
      requires Sound(State())
      modifies this
      ensures (State(), thrown) == StoreUpdate.StoreVariable(old(State()), v)
    {
      if !Hashable(v) {
        return Some(NumberFormat);
      }
      if Key(v) in variableInfo {
        return None;
      }
      var added := AddVariable(v);
      if added.Err? {
        return Some(added.error);
      }
      if added.value {
        MarkEarlierRows(variableInfo[Key(v)]);
      }
      thrown := None;
    }

    /** The inner loop for a new variable: MAX_VALUE at `start` in rows usedFiles, ..., 1, in that order. */
    method MarkEarlierRows(start: int)
      modifies this
      ensures State() == StoreUpdate.EnqueueAll(old(State()), StoreUpdate.Sentinels(start, old(offset), Nat(old(usedFiles))))
    {
      ghost var s := State();
      ghost var n := Nat(usedFiles);
      ghost var marks := StoreUpdate.Sentinels(start, offset, n);
      var i := usedFiles;
      while i > 0
        invariant Nat(i) <= n && offset == s.offset
        invariant State() == StoreUpdate.EnqueueAll(s, marks[..n - Nat(i)])
      {
        StoreUpdate.TakeOneMore(marks, n - i);
        var mark := StoreUpdate.Sentinel(start, offset, i);
        AddRequest(mark.location, mark.data);
        i := i - 1;
      }
      StoreUpdate.TakeOneMore(marks, n);
    }

    /**
     * The loop over reportDifferences' list: the codes at even positions
     * are resolved, the messages at odd positions only go to the log.
     */
    method ResolveFindings(findings: seq<string>, template: SlhaFile) returns (thrown: Option<Exception>)
      modifies this
      ensures (State(), thrown) == StoreUpdate.ResolveAll(old(State()), findings, template.Contents())
    {
      ghost var s, model := State(), template.Contents();
      var i := 0;
      while i < |findings|
        invariant 0 <= i <= |findings| && template.Contents() == model
        invariant (State(), None) == StoreUpdate.ResolveAll(s, findings[..i], model)
      {
        StoreUpdate.ResolveAllStep(s, findings, i, model);
        if i % 2 == 0 {
          ghost var before := State();
          thrown := ResolveError(findings[i], template);
          assert (State(), thrown) == StoreUpdate.ResolveError(before, findings[i], model);
          if thrown.Some? {
            StoreUpdate.ResolveAllStopsAtError(s, findings, model, i + 1);
            return;
          }
        }
        i := i + 1;
      }
      StoreUpdate.TakeOneMore(findings, i);
      thrown := None;
    }

    /**
     * updateFile(f, template, fInfo): file and template are the two files
     * parsed (null where the parse failed); nullTemplate says that the
     * template File itself was null. The row is filled as addFile fills
     * one, every string of the differences is resolved, and the header, the
     * row (at the slot of file number usedFiles) and the file's new date are
     * queued. The orders in which the block names are visited are returned.
     */
    method UpdateFile(file: SlhaFile?, template: SlhaFile?, nullTemplate: bool, fInfo: FileInfo,
                      parseDouble: string -> Option<nat>)
      returns (thrown: Option<Exception>, ghost blockOrder: seq<string>, ghost diffOrder: seq<string>)
      requires Sound(State())
      modifies this
      ensures file != null ==> FileChecker.IsOrderOf(blockOrder, BlockNames(file.data))
      ensures template != null ==> FileChecker.IsOrderOf(diffOrder, BlockNames(template.data))
      ensures (State(), thrown) == StoreRefresh.UpdateFile(old(State()), if file == null then None else Some(file.Contents()),
                                                           TemplateOf(template, nullTemplate),
                                                           fInfo, blockOrder, diffOrder, parseDouble)
    {
      blockOrder, diffOrder := [], [];
      if template != null {
        diffOrder := FileChecker.OrderExists(BlockNames(template.data));
      }
      if file == null {
        return None, blockOrder, diffOrder;
      }
      blockOrder := FileChecker.OrderExists(BlockNames(file.data));
      if file.numberOfVariables < 0 {
        return Some(IllegalArgument), blockOrder, diffOrder;
      }
      thrown, blockOrder, diffOrder := UpdateRow(file, template, nullTemplate, fInfo, parseDouble);
    }

    /** updateFile once its row buffer is allocated: the fill, the resolution, then the three writes. */
    method UpdateRow(file: SlhaFile, template: SlhaFile?, nullTemplate: bool, fInfo: FileInfo,
                     parseDouble: string -> Option<nat>)
      returns (thrown: Option<Exception>, ghost blockOrder: seq<string>, ghost diffOrder: seq<string>)
      requires Sound(State()) && file.numberOfVariables >= 0
      modifies this
      ensures FileChecker.IsOrderOf(blockOrder, BlockNames(file.data))
      ensures template != null ==> FileChecker.IsOrderOf(diffOrder, BlockNames(template.data))
      ensures (State(), thrown) == StoreRefresh.UpdateRow(old(State()), file.Contents(),
                                                          TemplateOf(template, nullTemplate),
                                                          fInfo, blockOrder, diffOrder, parseDouble)
    {
      var names := file.GetBlocks();
      var row;
      row, thrown, blockOrder := FillRow(file, names, Zeros(8 * file.numberOfVariables), parseDouble);
      diffOrder := [];
      if template != null {
        diffOrder := FileChecker.OrderExists(BlockNames(template.data));
      }
      if thrown.Some? {
        return thrown, blockOrder, diffOrder;
      }
      if template == null {
        thrown := if nullTemplate then Some(NullPointer) else None;
        return thrown, blockOrder, diffOrder;
      }
      thrown, diffOrder := ResolveThenRefresh(file, template, row, fInfo);
    }

    /** The end of updateFile, once the row is filled: the differences resolved, then the three writes. */
    method ResolveThenRefresh(file: SlhaFile, template: SlhaFile, row: seq<byte>, fInfo: FileInfo)
      returns (thrown: Option<Exception>, ghost diffOrder: seq<string>)
      requires Sound(State())
      modifies this
      ensures FileChecker.IsOrderOf(diffOrder, BlockNames(template.data))
      ensures (State(), thrown) == StoreRefresh.ResolveThenRefresh(old(State()), file.Contents(), template.Contents(),
                                                                   row, fInfo, diffOrder)
    {
      var findings;
      findings, diffOrder := FileChecker.ReportDifferences(file, template);
      ghost var filled, candidate, model := State(), file.Contents(), template.Contents();
      thrown := ResolveEvery(findings, template);
      StoreUpdate.ResolvedSound(filled, State());
      StoreRefresh.ResolveThenRefreshCases(filled, candidate, model, row, fInfo, diffOrder, (State(), thrown));
      if thrown.Some? {
        return;
      }
      var location := StoreUpdate.RowSlot(State());
      Refresh(location, row, file.lastModified, fInfo.fileLocation);
      assert file.Contents() == candidate && template.Contents() == model;
    }

    /** The end of updateFile: updateBinary, the row at location, the date at the file's table entry. */
    method Refresh(location: int, row: seq<byte>, lastModified: int, fileLocation: int)
      requires Sound(State())
      modifies this
      ensures State() == StoreRefresh.Refresh(old(State()), location, row, lastModified, fileLocation)
    {
      UpdateBinary();
      AddRequest(location, row);
      AddRequest(FileEntryAt(availableVars, fileLocation), EncodeLong(lastModified));
    }

    /** updateFile's loop over reportDifferences' list: every string, code or message, is resolved. */
    method ResolveEvery(findings: seq<string>, template: SlhaFile) returns (thrown: Option<Exception>)
      modifies this
      ensures (State(), thrown) == StoreRefresh.ResolveEvery(old(State()), findings, template.Contents())
    {
      ghost var s, model := State(), template.Contents();
      var i := 0;
      while i < |findings|
        invariant 0 <= i <= |findings| && template.Contents() == model
        invariant (State(), None) == StoreRefresh.ResolveEvery(s, findings[..i], model)
      {
        StoreRefresh.ResolveEveryStep(s, findings, i, model);
        ghost var before := State();
        thrown := ResolveError(findings[i], template);
        assert (State(), thrown) == StoreUpdate.ResolveError(before, findings[i], model);
        if thrown.Some? {
          StoreRefresh.ResolveEveryStopsAtError(s, findings, model, i + 1);
          return;
        }
        i := i + 1;
      }
      StoreUpdate.TakeOneMore(findings, i);
      thrown := None;
    }

    /**
     * The end of addFile: the row queued at the file's slot, the file
     * recorded under its name up to the last '.', usedFiles one more, and
     * updateBinary.
     */
    method StoreRow(file: SlhaFile, row: seq<byte>)
      requires Sound(State()) && '.' in file.fileName
      modifies this
      ensures State() == StoreUpdate.StoreRow(old(State()), file.Contents(), row)
    {
      AddRequest(StoreUpdate.RowSlot(State()), row);
      fileInfo := fileInfo[StoreUpdate.AddedName(file.fileName) := FileInfo(file.lastModified, usedFiles)];
      usedFiles := usedFiles + 1;
      UpdateBinary();
    }

    /** updateBinary: the header with the current counters queued at the start of the file. */
    method UpdateBinary()
      modifies this
      ensures State() == StoreUpdate.UpdateBinary(old(State()))
    {
      AddRequest(0, EncodeHeader(Header(availableVars, usedVars, availableFiles, usedFiles)));
    }
  }
}
