/**
 * The operations that add to the SLHA binary store
 * (src/binaryUtil/BinaryParser.java): addVariable, resolveError and addFile,
 * as functions from the store before to the store after and the outcome
 * (a returned value or a thrown exception). What was done before an
 * exception stays done, as it does in the source.
 */
module StoreUpdate {
  import opened Wrappers
  import opened Thrown
  import opened JavaStrings
  import opened Variables
  import opened Blocks
  import opened Slha
  import opened FileChecker
  import opened Layout
  import opened StoreState
  import opened StoreGrow

  /** Several writes at the back of the queue, in order. */
  function EnqueueAll(s: Store, writes: seq<Request>): Store {
    s.(queue := s.queue + writes)
  }

  /** Queuing the writes, then one more, is queuing them all. */
  lemma EnqueueAllPlusOne(s: Store, writes: seq<Request>, w: Request)
    ensures Enqueue(EnqueueAll(s, writes), w.location, w.data) == EnqueueAll(s, writes + [w])
  {
    assert s.queue + writes + [w] == s.queue + (writes + [w]);
  }

  lemma EnqueueAllSound(s: Store, writes: seq<Request>)
    requires Sound(s)
    ensures Sound(EnqueueAll(s, writes))
  {
    ApplyAllAppend(s.disk, s.queue, writes);
  }

  /** The copied variable table lies inside the new file. */
  lemma GrowWritesCoverTable(s: Store, av: nat, af: nat)
    requires Sound(s) && s.usedVars > 0
    ensures |GrownDisk(s, av, af)| >= VarEntryAt(s.usedVars)
  {
    var w := GrowWrites(s, av, af);
    assert w[s.usedVars] == CopyVariables(Contents(s), s.usedVars, DataStart(av, af))[s.usedVars - 1];
    ApplyAllCovers(Zeros(VariableBinarySize * av + FileBinarySize * af), w, s.usedVars);
  }

  /** A grow that throws or gives up keeps the old file's bytes, so its table still fits. */
  lemma GrownKeepsDisk(s: Store)
    requires Sound(s)
    requires s.availableVars == 0 || s.availableFiles == 0 || GrowFails(s)
    ensures Grown(s).0.disk == Contents(s) && Sound(Grown(s).0)
  {
    var r := Grown(s).0;
    assert Contents(r) == r.disk;
  }

  /** A grow that completes holds the zeroed tables with its writes applied, which cover the table. */
  lemma GrownCopiesDisk(s: Store)
    requires Sound(s) && s.availableVars != 0 && s.availableFiles != 0 && !GrowFails(s)
    ensures Sound(Grown(s).0)
  {
    var (av, af) := NewSizes(s);
    var r := Grown(s).0;
    assert Contents(r) == r.disk == GrownDisk(s, av, af);
    if s.usedVars > 0 {
      GrowWritesCoverTable(s, av, af);
    }
  }

  /** A successful or failed grow keeps the variable table inside the file. */
  lemma GrownSound(s: Store)
    requires Sound(s)
    ensures Sound(Grown(s).0)
  {
    if s.availableVars == 0 || s.availableFiles == 0 || GrowFails(s) {
      GrownKeepsDisk(s);
    } else {
      GrownCopiesDisk(s);
    }
  }

  /** updateBinary: the header with the current counters, queued at the start of the file. */
  function UpdateBinary(s: Store): Store {
    Enqueue(s, 0, EncodeHeader(Header(s.availableVars, s.usedVars, s.availableFiles, s.usedFiles)))
  }

  // ---------------------------------------------------------- addVariable

  /** Where a new variable's column starts: after the tables, one double per variable before it. */
  function NextStart(s: Store): int {
    DataStart(s.availableVars, s.availableFiles) + 8 * s.usedVars
  }

  /** The entry of a new variable written into the next table position, and the variable stored. */
  function NewEntry(s: Store, v: Variable, p1: int, p2: int, p3: int): (r: Store)
    requires Sound(s)
    ensures Sound(r)
  {
    var start := NextStart(s);
    var written := Enqueue(s, VarEntryAt(s.usedVars),
                           EncodeVarEntry(p1, p2, p3, Trim(v.block), Trim(v.description), start));
    EnqueueContents(s, VarEntryAt(s.usedVars), EncodeVarEntry(p1, p2, p3, Trim(v.block), Trim(v.description), start));
    written.(variableInfo := s.variableInfo[Key(v) := start], usedVars := s.usedVars + 1)
  }

  /**
   * addVariable once the variable table has room: the map lookup throws
   * NumberFormatException when the variable's hashCode does; false for a
   * variable already stored; otherwise its PDG codes are parsed as ints
   * (NumberFormatException), its entry queued and true returned.
   */
  function InsertVariable(s: Store, v: Variable): (r: (Store, Result<bool, Exception>))
    requires Sound(s)
    ensures Sound(r.0)
    ensures !Hashable(v) ==> r == (s, Err(NumberFormat))
    ensures r.1 == Ok(false) <==> Hashable(v) && Key(v) in s.variableInfo
    ensures r.1.Ok? ==> Hashable(v) && Key(v) in r.0.variableInfo
    ensures r.1.Err? ==> r == (s, Err(NumberFormat))
    ensures r.0.usedFiles == s.usedFiles && r.0.fileInfo == s.fileInfo
    ensures r.0.loggedInconsistencies == s.loggedInconsistencies
  {
    if !Hashable(v) then (s, Err(NumberFormat))
    else if Key(v) in s.variableInfo then (s, Ok(false))
    else match (ParseInt(v.pdg), ParseInt(v.pdg2), ParseInt(v.pdg3))
      case (Some(p1), Some(p2), Some(p3)) => (NewEntry(s, v, p1, p2, p3), Ok(true))
      case _ => (s, Err(NumberFormat))
  }

  /** addVariable: grow first when the variable table is full, then insert. */
  ghost function AddVariable(s: Store, v: Variable): (r: (Store, Result<bool, Exception>))
    requires Sound(s)
    ensures Sound(r.0)
    ensures r.1.Ok? ==> Hashable(v) && Key(v) in r.0.variableInfo
    ensures r.0.usedFiles == s.usedFiles && r.0.fileInfo == s.fileInfo
    ensures r.0.loggedInconsistencies == s.loggedInconsistencies
  {
    GrownSound(s);
    var (s1, thrown) := if s.usedVars == s.availableVars then Grown(s) else (s, None);
    if thrown.Some? then (s1, Err(thrown.value))
    else InsertVariable(s1, v)
  }

  /**
   * A variable already stored changes nothing (when no grow is due): it is
   * answered false, or its lookup throws when its hashCode does.
   */
  lemma AddKnownVariable(s: Store, v: Variable)
    requires Sound(s) && s.usedVars != s.availableVars && Key(v) in s.variableInfo
    ensures AddVariable(s, v) == (s, if Hashable(v) then Ok(false) else Err(NumberFormat))
  {
    assert AddVariable(s, v) == InsertVariable(s, v);
  }

  /** The next column start and table position go to a new variable, and the columns stay distinct. */
  lemma NewEntryValid(s: Store, v: Variable, p1: int, p2: int, p3: int)
    requires Valid(s) && s.usedVars < s.availableVars && Key(v) !in s.variableInfo
    ensures Valid(NewEntry(s, v, p1, p2, p3))
  {
    var r := NewEntry(s, v, p1, p2, p3);
    NextColumnValid(s, r, Key(v));
  }

  /** A store that differs from a valid one only by a new key at the next column start, and is sound, is valid. */
  lemma NextColumnValid(s: Store, r: Store, k: VarKey)
    requires Valid(s) && s.usedVars < s.availableVars && k !in s.variableInfo && Sound(r)
    requires r.variableInfo == s.variableInfo[k := NextStart(s)] && r.usedVars == s.usedVars + 1
    requires r.availableVars == s.availableVars && r.availableFiles == s.availableFiles
             && r.usedFiles == s.usedFiles && r.offset == s.offset
    ensures Valid(r)
  {
    ColumnsGrow(s.variableInfo, DataStart(s.availableVars, s.availableFiles), s.usedVars, k);
  }

  /** Giving a new key the next column start keeps the columns distinct, one stride further. */
  lemma ColumnsGrow(m: map<VarKey, int>, base: int, n: int, k: VarKey)
    requires Columns(m, base, n) && k !in m && n >= 0
    ensures Columns(m[k := base + 8 * n], base, n + 1)
  {
    var m' := m[k := base + 8 * n];
    forall k1, k2 | k1 in m' && k2 in m' && m'[k1] == m'[k2]
      ensures k1 == k2
    {
      if k1 != k && k2 != k {
        assert m[k1] == m[k2];
      }
    }
  }

  /** Inserting into a valid store with room keeps it valid. */
  lemma InsertKeepsValid(s: Store, v: Variable)
    requires Valid(s) && s.usedVars < s.availableVars
    ensures Valid(InsertVariable(s, v).0)
  {
    if Hashable(v) && Key(v) !in s.variableInfo && ParseInt(v.pdg).Some? && ParseInt(v.pdg2).Some? && ParseInt(v.pdg3).Some? {
      NewEntryValid(s, v, ParseInt(v.pdg).value, ParseInt(v.pdg2).value, ParseInt(v.pdg3).value);
    }
  }

  /**
   * A new variable with parsable PDG codes gets the next column and table
   * position: one entry queued at 16 + 110 * usedVars, usedVars one more,
   * true. When its hashCode throws, nothing changes and the lookup throws.
   */
  lemma AddNewVariable(s: Store, v: Variable)
    requires Valid(s) && s.usedVars < s.availableVars && Key(v) !in s.variableInfo
    requires ParseInt(v.pdg).Some? && ParseInt(v.pdg2).Some? && ParseInt(v.pdg3).Some?
    ensures !Hashable(v) ==> AddVariable(s, v) == (s, Err(NumberFormat))
    ensures var r := AddVariable(s, v);
            Hashable(v) ==>
            r.1 == Ok(true)
            && r.0 == NewEntry(s, v, ParseInt(v.pdg).value, ParseInt(v.pdg2).value, ParseInt(v.pdg3).value)
            && r.0.usedVars == s.usedVars + 1
            && r.0.variableInfo == s.variableInfo[Key(v) := NextStart(s)]
            && r.0.queue == s.queue + [Request(VarEntryAt(s.usedVars),
                 EncodeVarEntry(ParseInt(v.pdg).value, ParseInt(v.pdg2).value, ParseInt(v.pdg3).value,
                                Trim(v.block), Trim(v.description), NextStart(s)))]
            && Valid(r.0)
  {
    var p1, p2, p3 := ParseInt(v.pdg).value, ParseInt(v.pdg2).value, ParseInt(v.pdg3).value;
    assert AddVariable(s, v) == InsertVariable(s, v);
    if Hashable(v) {
      NewEntryValid(s, v, p1, p2, p3);
    }
  }

  /** Adding a variable keeps the store valid, provided a grow it needs does not give up. */
  lemma AddVariableKeepsValid(s: Store, v: Variable)
    requires Valid(s) && (s.usedVars < s.availableVars || !GrowFails(s))
    ensures Valid(AddVariable(s, v).0)
  {
    if s.usedVars == s.availableVars {
      GrowKeepsValid(s);
      assert AddVariable(s, v) == InsertVariable(Grown(s).0, v);
      InsertKeepsValid(Grown(s).0, v);
    } else {
      assert AddVariable(s, v) == InsertVariable(s, v);
      InsertKeepsValid(s, v);
    }
  }

  /**
   * The entry of a new storable variable whose hashCode returns, once
   * written, is read back by gatherVariables as a Variable equal to it with
   * its column start.
   */
  lemma AddedVariableReadsBack(s: Store, v: Variable)
    requires Valid(s) && s.usedVars < s.availableVars && Key(v) !in s.variableInfo
    requires IsNormal(v) && Storable(v) && IsInt64(NextStart(s))
    ensures var r := AddVariable(s, v).0;
            var g := GatherVariables(Contents(r), s.usedVars + 1);
            Hashable(v) ==> g.Ok? && Key(v) in g.value && g.value[Key(v)] == r.variableInfo[Key(v)] == NextStart(s)
  {
    AddNewVariable(s, v);
    NewEntryReadsBack(s, v, ParseInt(v.pdg).value, ParseInt(v.pdg2).value, ParseInt(v.pdg3).value);
  }

  /** gatherVariables over a file with an entry written at table position n finds its variable. */
  lemma WrittenEntryGathers(disk: seq<byte>, n: nat, v: Variable, start: int)
    requires IsNormal(v) && Storable(v) && IsInt64(start)
    ensures var g := GatherVariables(Write(disk, VarEntryAt(n), EncodeVarEntry(ParseInt(v.pdg).value,
              ParseInt(v.pdg2).value, ParseInt(v.pdg3).value, Trim(v.block), Trim(v.description), start)), n + 1);
            g.Ok? && Key(v) in g.value && g.value[Key(v)] == start
  {
    var entry := EncodeVarEntry(ParseInt(v.pdg).value, ParseInt(v.pdg2).value, ParseInt(v.pdg3).value,
                                Trim(v.block), Trim(v.description), start);
    var d := Write(disk, VarEntryAt(n), entry);
    ReadAfterWrite(disk, VarEntryAt(n), entry);
    GatherFindsEntry(d, n, v, start);
  }

  /** gatherVariables over the file with the new entry written finds the variable at its column start. */
  lemma NewEntryReadsBack(s: Store, v: Variable, p1: int, p2: int, p3: int)
    requires Sound(s) && s.usedVars >= 0 && IsNormal(v) && Storable(v) && IsInt64(NextStart(s))
    requires ParseInt(v.pdg) == Some(p1) && ParseInt(v.pdg2) == Some(p2) && ParseInt(v.pdg3) == Some(p3)
    ensures var g := GatherVariables(Contents(NewEntry(s, v, p1, p2, p3)), s.usedVars + 1);
            g.Ok? && Key(v) in g.value && g.value[Key(v)] == NextStart(s)
  {
    WrittenEntryGathers(Contents(s), s.usedVars, v, NextStart(s));
    NewEntryContents(s, v, p1, p2, p3);
  }

  /** The file after a new entry is the file before with the entry written at its table position. */
  lemma NewEntryContents(s: Store, v: Variable, p1: int, p2: int, p3: int)
    requires Sound(s)
    ensures Contents(NewEntry(s, v, p1, p2, p3))
            == Write(Contents(s), VarEntryAt(s.usedVars),
                     EncodeVarEntry(p1, p2, p3, Trim(v.block), Trim(v.description), NextStart(s)))
  {
    EnqueueContents(s, VarEntryAt(s.usedVars),
                    EncodeVarEntry(p1, p2, p3, Trim(v.block), Trim(v.description), NextStart(s)));
  }

  // --------------------------------------------------------- resolveError

  /** The n-th token, or null when the Scanner has run out. */
  function TokenAt(toks: seq<string>, n: nat): Option<string> {
    if n < |toks| then Some(toks[n]) else None
  }

  /** The write of MAX_VALUE at a stored column in the row of the file being added (slot usedFiles). */
  function Mark(s: Store, k: VarKey): Request
    requires k in s.variableInfo
  {
    Request(s.variableInfo[k] + s.offset * s.usedFiles, MaxBytes())
  }

  /**
   * The loop writing MAX_VALUE at the column of each variable in turn; the
   * first variable whose hashCode throws ends it with NumberFormatException,
   * the first one not stored with NullPointerException, after the writes of
   * the ones before it.
   */
  function ColumnMarks(s: Store, vs: seq<Variable>): (r: (seq<Request>, Option<Exception>))
    ensures |r.0| <= |vs|
    ensures r.1.None? || r.1 == Some(NumberFormat) || r.1 == Some(NullPointer)
  {
    if |vs| == 0 then ([], None)
    else
      var prev := ColumnMarks(s, vs[..|vs| - 1]);
      if prev.1.Some? then prev
      else if !Hashable(vs[|vs| - 1]) then (prev.0, Some(NumberFormat))
      else if Key(vs[|vs| - 1]) !in s.variableInfo then (prev.0, Some(NullPointer))
      else (prev.0 + [Mark(s, Key(vs[|vs| - 1]))], None)
  }

  /** The loop of resolveError gets past x: x's hashCode returns and x is stored. */
  predicate Markable(s: Store, x: Variable) {
    Hashable(x) && Key(x) in s.variableInfo
  }

  /**
   * r is what the marking loop over vs ends with: one mark per variable of
   * the longest markable prefix, in order; no exception exactly when that
   * prefix is all of vs; otherwise NumberFormatException when the next
   * variable's hashCode throws, NullPointerException when it is not stored.
   */
  predicate MarksStopAt(s: Store, vs: seq<Variable>, r: (seq<Request>, Option<Exception>)) {
    |r.0| <= |vs|
    && (forall i :: 0 <= i < |r.0| ==> Markable(s, vs[i]) && r.0[i] == Mark(s, Key(vs[i])))
    && (r.1.None? <==> |r.0| == |vs|)
    && (r.1.Some? ==> r.1 == if Hashable(vs[|r.0|]) then Some(NullPointer) else Some(NumberFormat))
    && (r.1 == Some(NullPointer) ==> Key(vs[|r.0|]) !in s.variableInfo)
  }

  /**
   * The marks written are those of the longest prefix of vs that hashes and
   * is stored, one per variable in order; the loop completes exactly when
   * every variable hashes and is stored, and otherwise throws for the first
   * one that does not: NumberFormatException when its hashCode throws,
   * NullPointerException when it is not stored.
   */
  lemma {:induction false} ColumnMarksStopAtFirstMissing(s: Store, vs: seq<Variable>)
    ensures MarksStopAt(s, vs, ColumnMarks(s, vs))
  {
    if |vs| > 0 {
      var init := vs[..|vs| - 1];
      ColumnMarksStopAtFirstMissing(s, init);
      assert vs == init + [vs[|vs| - 1]];
      MarksStep(s, init, vs[|vs| - 1], ColumnMarks(s, init));
    }
  }

  /** One more variable for the marking loop keeps MarksStopAt. */
  lemma MarksStep(s: Store, init: seq<Variable>, last: Variable, prev: (seq<Request>, Option<Exception>))
    requires MarksStopAt(s, init, prev) && prev == ColumnMarks(s, init)
    ensures MarksStopAt(s, init + [last], ColumnMarks(s, init + [last]))
  {
    var vs := init + [last];
    assert vs[..|vs| - 1] == init;
    assert forall i :: 0 <= i < |init| ==> vs[i] == init[i];
    if prev.1.None? {
      if !Hashable(last) {
        assert ColumnMarks(s, vs) == (prev.0, Some(NumberFormat));
      } else if Key(last) in s.variableInfo {
        var marks := prev.0 + [Mark(s, Key(last))];
        assert ColumnMarks(s, vs) == (marks, None);
        assert forall i :: 0 <= i < |prev.0| ==> marks[i] == prev.0[i];
      } else {
        assert ColumnMarks(s, vs) == (prev.0, Some(NullPointer));
      }
    } else {
      assert ColumnMarks(s, vs) == prev;
    }
  }

  /** The marking loop gets past vs[i] when it has got that far and vs[i] is markable. */
  lemma ColumnMarksExtend(s: Store, vs: seq<Variable>, i: nat)
    requires i < |vs| && ColumnMarks(s, vs[..i]).1.None? && Markable(s, vs[i])
    ensures ColumnMarks(s, vs[..i + 1]) == (ColumnMarks(s, vs[..i]).0 + [Mark(s, Key(vs[i]))], None)
  {
    assert vs[..i + 1][..i] == vs[..i];
  }

  /**
   * The marking loop that has got as far as vs[i] throws there when vs[i]
   * is not markable, with the exception its hashCode or its lookup raises.
   */
  lemma ColumnMarksThrowAt(s: Store, vs: seq<Variable>, i: nat)
    requires i < |vs| && ColumnMarks(s, vs[..i]).1.None? && !Markable(s, vs[i])
    ensures ColumnMarks(s, vs)
            == (ColumnMarks(s, vs[..i]).0, if Hashable(vs[i]) then Some(NullPointer) else Some(NumberFormat))
    ensures Marked(s, ColumnMarks(s, vs))
            == (EnqueueAll(s, ColumnMarks(s, vs[..i]).0), if Hashable(vs[i]) then Some(NullPointer) else Some(NumberFormat))
  {
    assert vs[..i + 1][..i] == vs[..i];
    ColumnMarksStopAtError(s, vs, i + 1);
  }

  /** Once a variable is found missing, the rest of the list is not looked at. */
  lemma {:induction false} ColumnMarksStopAtError(s: Store, vs: seq<Variable>, k: nat)
    requires k <= |vs| && ColumnMarks(s, vs[..k]).1.Some?
    ensures ColumnMarks(s, vs) == ColumnMarks(s, vs[..k])
    decreases |vs| - k
  {
    if k < |vs| {
      assert vs[..k + 1][..k] == vs[..k];
      ColumnMarksStopAtError(s, vs, k + 1);
    } else {
      assert vs[..k] == vs;
    }
  }

  /** The variable case 3 looks up: the fields that were scanned, null where the Scanner ran out. */
  function NamedVariable(toks: seq<string>): Variable {
    NewVariable(TokenAt(toks, 1), TokenAt(toks, 2), TokenAt(toks, 3), None,
                TokenAt(toks, 5), Some(if |toks| > 4 then toks[4] else ""))
  }

  /** The marks queued and the store they leave. */
  function Marked(s: Store, marks: (seq<Request>, Option<Exception>)): (Store, Option<Exception>) {
    (EnqueueAll(s, marks.0), marks.1)
  }

  /**
   * resolveError(inconsistency, template): the leading int picks the case.
   * Cases 1, 2 and 3 count one inconsistency; 1 marks every variable of the
   * named template block, 3 the one variable named; any other code counts one
   * and throws. A missing leading int throws before anything is counted.
   */
  function ResolveError(s: Store, inconsistency: string, template: Dataset): (r: (Store, Option<Exception>))
    ensures var toks := Tokens(inconsistency);
            r.0.loggedInconsistencies == s.loggedInconsistencies
              + (if |toks| > 0 && ParseInt(toks[0]).Some? then 1 else 0)
    ensures r.0.variableInfo == s.variableInfo && r.0.usedVars == s.usedVars && r.0.usedFiles == s.usedFiles
    ensures r.0.fileInfo == s.fileInfo
    ensures r.0.disk == s.disk && s.queue <= r.0.queue
    ensures r.0.availableVars == s.availableVars && r.0.availableFiles == s.availableFiles && r.0.offset == s.offset
  {
    var toks := Tokens(inconsistency);
    if |toks| == 0 then (s, Some(NoSuchElement))
    else match ParseInt(toks[0])
      case None => (s, Some(InputMismatch))
      case Some(code) => ResolveCode(s.(loggedInconsistencies := s.loggedInconsistencies + 1), code, toks, template)
  }

  /** The switch of resolveError, on a store that has already counted the finding. */
  function ResolveCode(counted: Store, code: int, toks: seq<string>, template: Dataset): (r: (Store, Option<Exception>))
    ensures r.0.(queue := counted.queue) == counted && counted.queue <= r.0.queue
    ensures r.1 == Some(NumberFormat) || r.1 == Some(NullPointer) ==> code == 1 || code == 3
    ensures code == 3 ==> (r.1 == Some(NumberFormat) <==> !Hashable(NamedVariable(toks)))
    ensures code == 3 && r.1 == Some(NumberFormat) ==> r.0 == counted
  {
    if code == 1 then
      if |toks| < 2 then (counted, Some(NoSuchElement))
      else match FieldOf(template.blocks, toks[1])
        case Err(_) => (counted, None)
        case Ok(b) => Marked(counted, ColumnMarks(counted, b.vars))
    else if code == 2 then (counted, None)
    else if code == 3 then
      assert [NamedVariable(toks)][..0] == [] && ColumnMarks(counted, []) == ([], None);
      Marked(counted, ColumnMarks(counted, [NamedVariable(toks)]))
    else (counted, Some(IllegalArgument))
  }

  /** A code other than 1, 2 or 3 is counted and then refused. */
  lemma ResolveUnknownCode(s: Store, inconsistency: string, template: Dataset)
    requires var toks := Tokens(inconsistency);
             |toks| > 0 && ParseInt(toks[0]).Some? && ParseInt(toks[0]).value !in {1, 2, 3}
    ensures ResolveError(s, inconsistency, template)
            == (s.(loggedInconsistencies := s.loggedInconsistencies + 1), Some(IllegalArgument))
  {
  }

  /**
   * The code-3 finding FileChecker emits for a stored variable resolves to
   * that variable: one MAX_VALUE write at its column in the row of the file
   * being added, and one more inconsistency counted. The description plays no
   * part (only its first word is scanned, and equality ignores it). When the
   * variable's hashCode throws, the lookup throws after the count.
   */
  lemma ResolveMissingVariable(s: Store, v: Variable, blockName: string, template: Dataset)
    requires IsNormal(v) && Trimmed(blockName)
    requires IsToken(v.pdg) && IsToken(v.pdg2) && IsToken(v.pdg3) && IsToken(blockName)
    requires Key(v.(block := blockName)) in s.variableInfo
    ensures var counted := s.(loggedInconsistencies := s.loggedInconsistencies + 1);
            ResolveError(s, VariableCode("3", v, blockName), template)
            == if Hashable(v) then (EnqueueAll(counted, [Mark(counted, Key(v.(block := blockName)))]), None)
               else (counted, Some(NumberFormat))
  {
    CodeNamesVariable(v, blockName);
    ResolveNamedVariable(s, VariableCode("3", v, blockName), template, Key(v.(block := blockName)));
  }

  /**
   * A code-3 line naming a stored variable marks its column in the row being
   * added, or throws NumberFormatException when the variable it rebuilds
   * cannot be hashed.
   */
  lemma ResolveNamedVariable(s: Store, inconsistency: string, template: Dataset, k: VarKey)
    requires var toks := Tokens(inconsistency); |toks| > 0 && toks[0] == "3" && Key(NamedVariable(toks)) == k
    requires k in s.variableInfo
    ensures var counted := s.(loggedInconsistencies := s.loggedInconsistencies + 1);
            ResolveError(s, inconsistency, template)
            == if Hashable(NamedVariable(Tokens(inconsistency))) then (EnqueueAll(counted, [Mark(counted, k)]), None)
               else (counted, Some(NumberFormat))
  {
    ParseDigit('3');
    ResolveCaseThree(s, inconsistency, template);
    var counted := s.(loggedInconsistencies := s.loggedInconsistencies + 1);
    ColumnMarksOne(counted, NamedVariable(Tokens(inconsistency)));
    assert EnqueueAll(counted, []) == counted;
  }

  /** The variable resolveError rebuilds from a code-3 line has the key of the unmatched variable. */
  lemma CodeNamesVariable(v: Variable, blockName: string)
    requires IsNormal(v) && Trimmed(blockName)
    requires IsToken(v.pdg) && IsToken(v.pdg2) && IsToken(v.pdg3) && IsToken(blockName)
    ensures var toks := Tokens(VariableCode("3", v, blockName));
            |toks| >= 5 && toks[0] == "3" && Key(NamedVariable(toks)) == Key(v.(block := blockName))
            && HashInput(NamedVariable(toks)).0 == HashInput(v).0
  {
    var toks := Tokens(VariableCode("3", v, blockName));
    CodeTokens(v, blockName);
    assert toks[0] == "3" && toks[1] == v.pdg && toks[2] == v.pdg2 && toks[3] == v.pdg3 && toks[4] == blockName;
    TokenKeepsKey(v.pdg);
    TokenKeepsKey(v.pdg2);
    TokenKeepsKey(v.pdg3);
    TokenKeepsKey(blockName);
  }

  lemma ResolveCaseThree(s: Store, inconsistency: string, template: Dataset)
    requires var toks := Tokens(inconsistency); |toks| > 0 && ParseInt(toks[0]) == Some(3)
    ensures var counted := s.(loggedInconsistencies := s.loggedInconsistencies + 1);
            ResolveError(s, inconsistency, template)
            == Marked(counted, ColumnMarks(counted, [NamedVariable(Tokens(inconsistency))]))
  {
  }

  lemma ColumnMarksOne(s: Store, x: Variable)
    requires Key(x) in s.variableInfo
    ensures ColumnMarks(s, [x]) == if Hashable(x) then ([Mark(s, Key(x))], None) else ([], Some(NumberFormat))
  {
    assert [x][..0] == [];
    assert ColumnMarks(s, []) == ([], None);
    assert [] + [Mark(s, Key(x))] == [Mark(s, Key(x))];
  }

  /** A trimmed token is stored by the constructor as itself. */
  lemma TokenKeepsKey(t: string)
    requires IsToken(t) && Trimmed(t)
    ensures NormalisePdg(Some(t)) == t && NormaliseText(Some(t)) == t
  {
    TrimOfTrimmed(t);
  }

  /** Text, a blank, then one more token: the text's tokens, then that token. */
  lemma TokensSnoc(a: string, t: string)
    requires IsToken(t)
    ensures Tokens(a + " " + t) == Tokens(a) + [t]
  {
    TokensSplit(a, t);
    TokensOfToken(t);
  }

  /** A variable code scans as the digit, the three PDG codes, the block name, then the description's words. */
  lemma CodeTokens(v: Variable, blockName: string)
    requires IsToken(v.pdg) && IsToken(v.pdg2) && IsToken(v.pdg3) && IsToken(blockName)
    ensures Tokens(VariableCode("3", v, blockName))
            == ["3", v.pdg, v.pdg2, v.pdg3, blockName] + Tokens(v.description)
  {
    var x1 := "3" + " " + v.pdg;
    var x2 := x1 + " " + v.pdg2;
    var x3 := x2 + " " + v.pdg3;
    var x4 := x3 + " " + blockName;
    assert IsToken("3");
    TokensOfToken("3");
    TokensSnoc("3", v.pdg);
    assert Tokens(x1) == ["3", v.pdg];
    TokensSnoc(x1, v.pdg2);
    assert Tokens(x2) == ["3", v.pdg, v.pdg2];
    TokensSnoc(x2, v.pdg3);
    assert Tokens(x3) == ["3", v.pdg, v.pdg2, v.pdg3];
    TokensSnoc(x3, blockName);
    assert Tokens(x4) == ["3", v.pdg, v.pdg2, v.pdg3, blockName];
    TokensSplit(x4, v.description);
  }

  /**
   * The missing-block code "1" + name is never resolved: for a name that
   * starts with a non-blank char its first token is not the int 1, so
   * resolveError throws (InputMismatchException, or IllegalArgumentException
   * after counting when the name is all digits).
   */
  lemma MissingBlockNeverResolved(s: Store, name: string, template: Dataset)
    requires |name| > 0 && !IsWhitespace(name[0])
    ensures ResolveError(s, MissingBlockCode(name), template).1.Some?
  {
    var code := MissingBlockCode(name);
    var n := WordLength(code);
    assert n >= 2 by {
      assert !IsWhitespace(code[0]) && code[1..] == name;
    }
    var first := code[..n];
    assert Tokens(code)[0] == first;
    if ParseInt(first).Some? {
      assert first[0] == '1' && |first| >= 2;
      assert AllDigits(first);
      LeadingOneAtLeastTen(first);
    }
  }

  /**
   * With the blank after the digit, a missing-block code is resolved as
   * case 1 intends: one inconsistency counted, and MAX_VALUE written at the
   * column of each variable of the template's block, up to the first one
   * that cannot be hashed or is not stored (a block the template lacks is
   * only counted).
   */
  lemma ResolveSpacedMissingBlock(s: Store, name: string, template: Dataset)
    requires IsToken(name)
    ensures var counted := s.(loggedInconsistencies := s.loggedInconsistencies + 1);
            ResolveError(s, SpacedMissingBlockCode(name), template)
            == match FieldOf(template.blocks, name)
               case Err(_) => (counted, None)
               case Ok(b) => Marked(counted, ColumnMarks(counted, b.vars))
  {
    assert IsToken("1");
    TokensOfToken("1");
    TokensSnoc("1", name);
    assert SpacedMissingBlockCode(name) == "1" + " " + name;
    ParseDigit('1');
    ResolveCaseOne(s, SpacedMissingBlockCode(name), template);
  }

  lemma ResolveCaseOne(s: Store, inconsistency: string, template: Dataset)
    requires var toks := Tokens(inconsistency); |toks| >= 2 && ParseInt(toks[0]) == Some(1)
    ensures var counted := s.(loggedInconsistencies := s.loggedInconsistencies + 1);
            ResolveError(s, inconsistency, template)
            == match FieldOf(template.blocks, Tokens(inconsistency)[1])
               case Err(_) => (counted, None)
               case Ok(b) => Marked(counted, ColumnMarks(counted, b.vars))
  {
  }

  /** A numeral starting with 1 and at least two digits long is at least 10. */
  lemma LeadingOneAtLeastTen(t: string)
    requires |t| >= 2 && t[0] == '1' && AllDigits(t)
    ensures DigitsValue(t) >= 10
  {
    DigitsValueAtLeast(t);
  }

  /** A numeral with a non-zero first digit is at least 10^(|t|-1), here only the two-digit bound. */
  lemma {:induction false} DigitsValueAtLeast(t: string)
    requires |t| >= 2 && '1' <= t[0] <= '9' && AllDigits(t)
    ensures DigitsValue(t) >= 10
    decreases |t|
  {
    if |t| > 2 {
      DigitsValueAtLeast(t[..|t| - 1]);
    }
  }

  // -------------------------------------------------------------- addFile

  /**
   * The loop that gives a new variable's column MAX_VALUE in the rows of the
   * files stored before: rows n, n-1, ..., 1 in that order (row 0 is skipped).
   */
  function Sentinels(start: int, stride: int, n: nat): (r: seq<Request>)
    ensures |r| == n
    ensures forall j :: 0 <= j < n ==> r[j] == Sentinel(start, stride, n - j)
  {
    if n == 0 then [] else [Sentinel(start, stride, n)] + Sentinels(start, stride, n - 1)
  }

  /** MAX_VALUE written at the column starting at `start`, in the given row. */
  function Sentinel(start: int, stride: int, row: int): Request {
    Request(start + stride * row, MaxBytes())
  }

  /** The prefixes a loop over a list goes through: one element longer each time, the whole list at the end. */
  lemma TakeOneMore<T>(xs: seq<T>, k: nat)
    requires k <= |xs|
    ensures k < |xs| ==> xs[..k + 1] == xs[..k] + [xs[k]]
    ensures k == |xs| ==> xs[..k] == xs
  {
  }

  /** The sentinel writes reach every earlier row but the first, and nothing else. */
  lemma SentinelsSkipRowZero(start: int, stride: int, n: nat, row: int)
    requires stride > 0
    ensures Request(start + stride * row, MaxBytes()) in Sentinels(start, stride, n) <==> 1 <= row <= n
  {
    var r := Sentinels(start, stride, n);
    if 1 <= row <= n {
      assert r[n - row] == Request(start + stride * row, MaxBytes());
    }
    if Request(start + stride * row, MaxBytes()) in r {
      var j :| 0 <= j < n && r[j] == Request(start + stride * row, MaxBytes());
      MulCancel(stride, row, n - j);
    }
  }

  /**
   * The sentinel loop as evidently intended: MAX_VALUE in the rows of the files
   * stored before, n-1 down to 0, and not in the row the new file is about to fill.
   */
  function CorrectedSentinels(start: int, stride: int, n: nat): (r: seq<Request>)
    ensures |r| == n
    ensures forall j :: 0 <= j < n ==> r[j] == Sentinel(start, stride, n - 1 - j)
  {
    if n == 0 then [] else [Sentinel(start, stride, n - 1)] + CorrectedSentinels(start, stride, n - 1)
  }

  /** The corrected loop marks exactly the rows of the n files already stored, row 0 included. */
  lemma CorrectedSentinelsMarkStoredRows(start: int, stride: int, n: nat, row: int)
    requires stride > 0
    ensures Request(start + stride * row, MaxBytes()) in CorrectedSentinels(start, stride, n) <==> 0 <= row < n
  {
    var r := CorrectedSentinels(start, stride, n);
    if 0 <= row < n {
      assert r[n - 1 - row] == Request(start + stride * row, MaxBytes());
    }
    if Request(start + stride * row, MaxBytes()) in r {
      var j :| 0 <= j < n && r[j] == Request(start + stride * row, MaxBytes());
      MulCancel(stride, row, n - 1 - j);
    }
  }

  lemma MulCancel(a: int, x: int, y: int)
    requires a > 0 && a * x == a * y
    ensures x == y
  {
    assert a * (y - x) == a * y - a * x;
  }

  /** The variables addFile visits: block by block in the iteration order of its block names, each block's list in order. */
  function FileVariables(blocks: seq<Block>, order: seq<string>): (r: seq<Variable>) {
    if |order| == 0 then []
    else FileVariables(blocks, order[..|order| - 1]) + BlockVariables(blocks, order[|order| - 1])
  }

  /** The variables of the block getField finds; a name getBlocks returned always has one. */
  function BlockVariables(blocks: seq<Block>, name: string): seq<Variable> {
    match FieldOf(blocks, name)
    case Ok(b) => b.vars
    case Err(_) => []
  }

  /**
   * The first half of one variable of addFile's loop: the map lookup throws
   * NumberFormatException when the variable's hashCode does; a variable not
   * stored yet is added, and the earlier rows get MAX_VALUE in its column.
   */
  ghost function StoreVariable(s: Store, v: Variable): (r: (Store, Option<Exception>))
    requires Sound(s)
    ensures Sound(r.0)
    ensures r.0.usedFiles == s.usedFiles && r.0.fileInfo == s.fileInfo
    ensures r.0.loggedInconsistencies == s.loggedInconsistencies
    ensures !Hashable(v) ==> r == (s, Some(NumberFormat))
    ensures Hashable(v) && Key(v) in s.variableInfo ==> r == (s, None)
    ensures r.1.None? ==> Hashable(v) && Key(v) in r.0.variableInfo
  {
    if !Hashable(v) then (s, Some(NumberFormat))
    else if Key(v) in s.variableInfo then (s, None)
    else
      var (added, outcome) := AddVariable(s, v);
      if outcome.Err? then (added, Some(outcome.error))
      else if outcome.value then
        EnqueueAllSound(added, Sentinels(added.variableInfo[Key(v)], added.offset, Nat(added.usedFiles)));
        (EnqueueAll(added, Sentinels(added.variableInfo[Key(v)], added.offset, Nat(added.usedFiles))), None)
      else (added, None)
  }

  /**
   * One variable of addFile's loop: the variable is stored (StoreVariable);
   * then its value goes into the row (PlaceValue).
   */
  ghost function FillVariable(s: Store, row: seq<byte>, v: Variable, parseDouble: string -> Option<nat>)
    : (r: (Store, seq<byte>, Option<Exception>))
    requires Sound(s)
    ensures Sound(r.0) && |r.1| == |row|
    ensures r.0 == StoreVariable(s, v).0
    ensures r.0.usedFiles == s.usedFiles && r.0.fileInfo == s.fileInfo
    ensures r.0.loggedInconsistencies == s.loggedInconsistencies
    ensures r.2.None? ==> Hashable(v) && Key(v) in r.0.variableInfo
  {
    var (s1, thrown) := StoreVariable(s, v);
    if thrown.Some? then (s1, row, thrown)
    else
      var (filled, put) := PlaceValue(s1, row, v, parseDouble);
      (s1, filled, put)
  }

  /**
   * The second half of addFile's loop body, for a stored variable: its value,
   * when it parses as a double, goes into the row at its column, and the
   * rest of the row stays as it was. Double.parseDouble is the parameter
   * parseDouble (None for a NumberFormatException, which addFile ignores); a
   * null value throws NullPointerException, a column past the row's end
   * IndexOutOfBoundsException.
   */
  function PlaceValue(s: Store, row: seq<byte>, v: Variable, parseDouble: string -> Option<nat>)
    : (r: (seq<byte>, Option<Exception>))
    requires Key(v) in s.variableInfo
    ensures |r.0| == |row|
    ensures v.value.None? ==> r == (row, Some(NullPointer))
    ensures v.value.Some? && parseDouble(v.value.value).None? ==> r == (row, None)
    ensures var index := s.variableInfo[Key(v)] - DataStart(s.availableVars, s.availableFiles);
            v.value.Some? && parseDouble(v.value.value).Some? ==>
              (r.1.None? <==> 0 <= index <= |row| - 8)
              && (r.1.None? ==> r.0[index..index + 8] == BigEndian(parseDouble(v.value.value).value, 8)
                                && r.0[..index] == row[..index] && r.0[index + 8..] == row[index + 8..])
              && (r.1.Some? ==> r == (row, Some(IndexOutOfBounds)))
  {
    var index := s.variableInfo[Key(v)] - DataStart(s.availableVars, s.availableFiles);
    match v.value
    case None => (row, Some(NullPointer))
    case Some(text) =>
      match parseDouble(text)
      case None => (row, None)
      case Some(bits) =>
        match PutDouble(row, index, bits)
        case None => (row, Some(IndexOutOfBounds))
        case Some(filled) => (filled, None)
  }

  /** addFile's loop over the variables, stopping at the first exception. */
  ghost function FillAll(s: Store, row: seq<byte>, vs: seq<Variable>, parseDouble: string -> Option<nat>)
    : (r: (Store, seq<byte>, Option<Exception>))
    requires Sound(s)
    ensures Sound(r.0) && |r.1| == |row|
    ensures r.0.usedFiles == s.usedFiles && r.0.fileInfo == s.fileInfo
    ensures r.0.loggedInconsistencies == s.loggedInconsistencies
  {
    if |vs| == 0 then (s, row, None)
    else
      var prev := FillAll(s, row, vs[..|vs| - 1], parseDouble);
      if prev.2.Some? then prev
      else FillVariable(prev.0, prev.1, vs[|vs| - 1], parseDouble)
  }

  /** One more variable: the loop goes on from where the shorter list left it. */
  lemma FillAllStep(s: Store, row: seq<byte>, vs: seq<Variable>, v: Variable, parseDouble: string -> Option<nat>)
    requires Sound(s) && FillAll(s, row, vs, parseDouble).2.None?
    ensures var prev := FillAll(s, row, vs, parseDouble);
            FillAll(s, row, vs + [v], parseDouble) == FillVariable(prev.0, prev.1, v, parseDouble)
  {
    assert (vs + [v])[..|vs|] == vs;
  }

  /** Once a variable has thrown, the variables after it are not looked at. */
  lemma {:induction false} FillAllStopsAtError(s: Store, row: seq<byte>, vs: seq<Variable>, k: nat,
                                                parseDouble: string -> Option<nat>)
    requires Sound(s) && k <= |vs| && FillAll(s, row, vs[..k], parseDouble).2.Some?
    ensures FillAll(s, row, vs, parseDouble) == FillAll(s, row, vs[..k], parseDouble)
    decreases |vs| - k
  {
    if k < |vs| {
      assert vs[..k + 1][..k] == vs[..k];
      FillAllStopsAtError(s, row, vs, k + 1, parseDouble);
    } else {
      assert vs[..k] == vs;
    }
  }

  /** A variable of a block that throws ends the loop over that block. */
  lemma FillBlockStops(s: Store, row: seq<byte>, done: seq<Variable>, vs: seq<Variable>, j: nat,
                       parseDouble: string -> Option<nat>)
    requires Sound(s) && j < |vs| && FillAll(s, row, done + vs[..j + 1], parseDouble).2.Some?
    ensures FillAll(s, row, done + vs, parseDouble) == FillAll(s, row, done + vs[..j + 1], parseDouble)
  {
    ConcatPrefix(done, vs, j + 1);
    PrefixStops(s, row, done + vs[..j + 1], done + vs, parseDouble);
  }

  /** The slices of `a + b` a loop over `b` goes through: none of b, one more element, all of b. */
  lemma ConcatSlices<T>(a: seq<T>, b: seq<T>)
    ensures a + b[..0] == a && a + b[..|b|] == a + b
    ensures forall j :: 0 <= j < |b| ==> a + b[..j + 1] == (a + b[..j]) + [b[j]]
  {
    forall j | 0 <= j < |b|
      ensures a + b[..j + 1] == (a + b[..j]) + [b[j]]
    {
      assert b[..j + 1] == b[..j] + [b[j]];
    }
    assert b[..|b|] == b;
  }

  lemma ConcatPrefix<T>(a: seq<T>, b: seq<T>, k: nat)
    requires k <= |b|
    ensures a + b[..k] <= a + b
  {
    assert (a + b)[..|a| + k] == a + b[..k];
  }

  /** The loop over a list that has thrown on a prefix of it. */
  lemma PrefixStops(s: Store, row: seq<byte>, p: seq<Variable>, all: seq<Variable>, parseDouble: string -> Option<nat>)
    requires Sound(s) && p <= all && FillAll(s, row, p, parseDouble).2.Some?
    ensures FillAll(s, row, all, parseDouble) == FillAll(s, row, p, parseDouble)
  {
    assert all[..|p|] == p;
    FillAllStopsAtError(s, row, all, |p|, parseDouble);
  }

  /** The variables of consecutive runs of block names follow one another. */
  lemma {:induction false} FileVariablesAppend(blocks: seq<Block>, a: seq<string>, b: seq<string>)
    ensures FileVariables(blocks, a + b) == FileVariables(blocks, a) + FileVariables(blocks, b)
    decreases |b|
  {
    if |b| == 0 {
      assert a + b == a;
    } else {
      var front, x := b[..|b| - 1], b[|b| - 1];
      assert b == front + [x];
      FileVariablesAppend(blocks, a, front);
      ConcatAssociative(a, front, [x]);
      FileVariablesStep(blocks, a + front, x);
      FileVariablesStep(blocks, front, x);
      ConcatAssociative(FileVariables(blocks, a), FileVariables(blocks, front), BlockVariables(blocks, x));
    }
  }

  /** Regrouping a concatenation: proved apart, where the solver sees no FileVariables unfoldings. */
  lemma ConcatAssociative<T>(x: seq<T>, y: seq<T>, z: seq<T>)
    ensures (x + y) + z == x + (y + z)
  {
  }

  /** One more block name: its variables follow those of the names before it. */
  lemma FileVariablesStep(blocks: seq<Block>, order: seq<string>, name: string)
    ensures FileVariables(blocks, order + [name])
            == FileVariables(blocks, order) + BlockVariables(blocks, name)
  {
    assert (order + [name])[..|order|] == order;
  }

  /**
   * When a variable of block `name` throws, the exception ends the loop: any
   * order the loop would have gone on with gives the same outcome.
   */
  lemma FillStopped(blocks: seq<Block>, names: set<string>, order: seq<string>, name: string,
                    left: set<string>, rest: seq<string>, s: Store, row0: seq<byte>,
                    parseDouble: string -> Option<nat>)
    returns (full: seq<string>)
    requires Sound(s) && Visiting(names, order, left) && name in left
    requires IsOrderOf(rest, left - {name})
    requires FillAll(s, row0, FileVariables(blocks, order + [name]), parseDouble).2.Some?
    ensures IsOrderOf(full, names)
    ensures FillAll(s, row0, FileVariables(blocks, full), parseDouble)
            == FillAll(s, row0, FileVariables(blocks, order + [name]), parseDouble)
  {
    full := order + [name] + rest;
    FileVariablesAppend(blocks, order + [name], rest);
    var done := FileVariables(blocks, order + [name]);
    assert (done + FileVariables(blocks, rest))[..|done|] == done;
    FillAllStopsAtError(s, row0, done + FileVariables(blocks, rest), |done|, parseDouble);
    OrderGoesOn(names, order, name, left, rest);
  }

  /** How many codes of a findings list are counted: those at even positions whose first token is an int. */
  function CountedCodes(findings: seq<string>): nat {
    if |findings| == 0 then 0
    else
      var last := |findings| - 1;
      var toks := Tokens(findings[last]);
      CountedCodes(findings[..last])
        + (if last % 2 == 0 && |toks| > 0 && ParseInt(toks[0]).Some? then 1 else 0)
  }

  /**
   * The loop over reportDifferences' list: the codes (even positions) are
   * resolved, the messages (odd positions) only logged. When no resolution
   * throws, one inconsistency is counted per code with a leading int.
   */
  function ResolveAll(s: Store, findings: seq<string>, template: Dataset): (r: (Store, Option<Exception>))
    ensures r.0.variableInfo == s.variableInfo && r.0.usedVars == s.usedVars && r.0.usedFiles == s.usedFiles
    ensures r.0.fileInfo == s.fileInfo
    ensures r.0.disk == s.disk && s.queue <= r.0.queue
    ensures r.0.availableVars == s.availableVars && r.0.availableFiles == s.availableFiles && r.0.offset == s.offset
    ensures r.1.None? ==> r.0.loggedInconsistencies == s.loggedInconsistencies + CountedCodes(findings)
  {
    if |findings| == 0 then (s, None)
    else
      var prev := ResolveAll(s, findings[..|findings| - 1], template);
      if prev.1.Some? || (|findings| - 1) % 2 == 1 then prev
      else ResolveError(prev.0, findings[|findings| - 1], template)
  }

  /** One more finding: a code is resolved, a message leaves the store as it was. */
  lemma ResolveAllStep(s: Store, findings: seq<string>, i: nat, template: Dataset)
    requires i < |findings| && ResolveAll(s, findings[..i], template).1.None?
    ensures var prev := ResolveAll(s, findings[..i], template);
            ResolveAll(s, findings[..i + 1], template)
            == if i % 2 == 1 then prev else ResolveError(prev.0, findings[i], template)
  {
    assert findings[..i + 1][..i] == findings[..i];
  }

  /** Once a resolution has thrown, the rest of the list is not looked at. */
  lemma {:induction false} ResolveAllStopsAtError(s: Store, findings: seq<string>, template: Dataset, k: nat)
    requires k <= |findings| && ResolveAll(s, findings[..k], template).1.Some?
    ensures ResolveAll(s, findings, template) == ResolveAll(s, findings[..k], template)
    decreases |findings| - k
  {
    if k < |findings| {
      var next := findings[..k + 1];
      assert next[..k] == findings[..k];
      ResolveAllStopsAtError(s, findings, template, k + 1);
    } else {
      assert findings[..k] == findings;
    }
  }

  /**
   * A file that lacks one of the template's blocks makes the resolution
   * throw at the first finding: the code "1" + name of a missing block never
   * scans as the int 1.
   */
  lemma MissingBlockStopsResolution(s: Store, file: Dataset, template: Dataset, order: seq<string>, name: string)
    requires forall n :: n in order ==> n in BlockNames(template.blocks)
    requires forall n :: n in order ==> |n| > 0 && !IsWhitespace(n[0])
    requires name in order && !HasBlock(file.blocks, name)
    ensures ResolveAll(s, Differences(file, template, order), template).1.Some?
  {
    var missing := MissingNames(file, order);
    assert name in missing;
    DifferencesStartWithMissing(file, template, order);
    assert missing[0] in order;
    MissingBlockNeverResolved(s, missing[0], template);
    ResolveFirstFails(s, Differences(file, template, order), template);
  }

  /** With a block missing, the first finding is the missing-block code of the first missing name. */
  lemma DifferencesStartWithMissing(file: Dataset, template: Dataset, order: seq<string>)
    requires forall n :: n in order ==> n in BlockNames(template.blocks)
    requires |MissingNames(file, order)| > 0
    ensures var d := Differences(file, template, order);
            |d| > 0 && d[0] == MissingBlockCode(MissingNames(file, order)[0])
  {
    var codes := MissingBlockFindings(file.fileName, MissingNames(file, order));
    assert codes[0] == MissingBlockCode(MissingNames(file, order)[0]);
  }

  /** A list whose first code throws makes the whole resolution throw. */
  lemma ResolveFirstFails(s: Store, findings: seq<string>, template: Dataset)
    requires |findings| > 0 && ResolveError(s, findings[0], template).1.Some?
    ensures ResolveAll(s, findings, template).1.Some?
  {
    var first := findings[..1];
    assert first[..0] == [];
    assert ResolveAll(s, first, template).1.Some?;
    ResolveAllStopsAtError(s, findings, template, 1);
  }

  /** The key addFile stores a file under: its name cut at the last '.'. */
  function AddedName(fileName: string): string
    requires '.' in fileName
  {
    fileName[..LastIndexOf(fileName, '.')]
  }

  /** Where addFile puts the row of the file it adds: the slot of file number usedFiles. */
  function RowSlot(s: Store): int {
    DataStart(s.availableVars, s.availableFiles) + s.usedFiles * s.offset
  }

  /** The end of addFile: the row queued at its slot, the file recorded under its name, usedFiles one more, the header rewritten. */
  function StoreRow(s: Store, file: Dataset, row: seq<byte>): (r: Store)
    requires Sound(s) && '.' in file.fileName
    ensures Sound(r) && r.usedFiles == s.usedFiles + 1 && r.usedVars == s.usedVars
    ensures r.fileInfo == s.fileInfo[AddedName(file.fileName) := FileInfo(file.lastModified, s.usedFiles)]
  {
    var location := RowSlot(s);
    var queued := Enqueue(s, location, row);
    EnqueueSound(s, location, row);
    var recorded := queued.(fileInfo := s.fileInfo[AddedName(file.fileName) := FileInfo(file.lastModified, s.usedFiles)],
                            usedFiles := s.usedFiles + 1);
    EnqueueSound(recorded, 0, EncodeHeader(Header(recorded.availableVars, recorded.usedVars,
                                                  recorded.availableFiles, recorded.usedFiles)));
    UpdateBinary(recorded)
  }

  /** addFile after the table entry: the row filled, the differences resolved, the row stored. */
  ghost function AddRow(s: Store, file: Dataset, template: Option<Dataset>,
                        blockOrder: seq<string>, diffOrder: seq<string>,
                        parseDouble: string -> Option<nat>): (r: (Store, Result<bool, Exception>))
    requires Sound(s) && '.' in file.fileName && file.numberOfVariables >= 0
    requires IsOrderOf(blockOrder, BlockNames(file.blocks))
    requires template.Some? ==> IsOrderOf(diffOrder, BlockNames(template.value.blocks))
    ensures Sound(r.0)
    ensures r.1.Ok? ==> r.1.value && r.0.usedFiles == s.usedFiles + 1
    ensures r.1.Ok? ==> '.' in file.fileName
                        && r.0.fileInfo == s.fileInfo[AddedName(file.fileName) := FileInfo(file.lastModified, s.usedFiles)]
  {
    var filled := FillAll(s, Zeros(8 * file.numberOfVariables), FileVariables(file.blocks, blockOrder), parseDouble);
    if filled.2.Some? then (filled.0, Err(filled.2.value))
    else if template.None? then (filled.0, Err(NullPointer))
    else
      OrderIsOfNames(diffOrder, BlockNames(template.value.blocks));
      var resolved := ResolveAll(filled.0, Differences(file, template.value, diffOrder), template.value);
      ResolvedSound(filled.0, resolved.0);
      if resolved.1.Some? then (resolved.0, Err(resolved.1.value))
      else (StoreRow(resolved.0, file, filled.1), Ok(true))
  }

  lemma OrderIsOfNames(order: seq<string>, names: set<string>)
    requires IsOrderOf(order, names)
    ensures forall n :: n in order ==> n in names
  {
  }

  /** Queuing more writes keeps a store sound. */
  lemma ResolvedSound(s: Store, r: Store)
    requires Sound(s) && r.disk == s.disk && s.queue <= r.queue && r.usedVars == s.usedVars
    ensures Sound(r)
  {
    assert r.queue == s.queue + r.queue[|s.queue|..];
    EnqueueAllSound(s, r.queue[|s.queue|..]);
    assert EnqueueAll(s, r.queue[|s.queue|..]).queue == r.queue;
  }

  /** addFile after the file table has room: the table entry, then the row. */
  ghost function AddFileWithRoom(s: Store, file: Dataset, template: Option<Dataset>,
                                 blockOrder: seq<string>, diffOrder: seq<string>,
                                 parseDouble: string -> Option<nat>): (r: (Store, Result<bool, Exception>))
    requires Sound(s)
    requires IsOrderOf(blockOrder, BlockNames(file.blocks))
    requires template.Some? ==> IsOrderOf(diffOrder, BlockNames(template.value.blocks))
    ensures Sound(r.0)
    ensures r.1.Ok? ==> r.1.value && r.0.usedFiles == s.usedFiles + 1
    ensures r.1.Ok? ==> '.' in file.fileName
                        && r.0.fileInfo == s.fileInfo[AddedName(file.fileName) := FileInfo(file.lastModified, s.usedFiles)]
  {
    var dot := IndexOf(file.fileName, '.');
    if dot < 0 || dot > FileNameMaxChars then (s, Err(IndexOutOfBounds))
    else
      var entry := EncodeFileEntry(file.lastModified, file.fileName[..dot], s.usedFiles);
      var s2 := Enqueue(s, FileEntryAt(s.availableVars, s.usedFiles), entry);
      EnqueueSound(s, FileEntryAt(s.availableVars, s.usedFiles), entry);
      if file.numberOfVariables < 0 then (s2, Err(IllegalArgument))
      else AddRow(s2, file, template, blockOrder, diffOrder, parseDouble)
  }

  lemma BlockOrderHasBlocks(blocks: seq<Block>, order: seq<string>)
    requires IsOrderOf(order, BlockNames(blocks))
    ensures forall n :: n in order ==> HasBlock(blocks, n)
  {
    forall n | n in order ensures HasBlock(blocks, n) { HasBlockByNames(blocks, n); }
  }

  /**
   * addFile(file, template): grow first when the file table is full; queue
   * the file's table entry (its name up to the first '.', at most 25 chars);
   * build its row variable by variable; resolve the differences from the
   * template; queue the row; record the file and rewrite the header.
   * blockOrder and diffOrder are the iteration orders of the two files'
   * block-name sets.
   */
  ghost function AddFile(s: Store, file: Dataset, template: Option<Dataset>,
                         blockOrder: seq<string>, diffOrder: seq<string>,
                         parseDouble: string -> Option<nat>): (r: (Store, Result<bool, Exception>))
    requires Sound(s)
    requires IsOrderOf(blockOrder, BlockNames(file.blocks))
    requires template.Some? ==> IsOrderOf(diffOrder, BlockNames(template.value.blocks))
    ensures Sound(r.0)
    ensures r.1.Ok? ==> r.1.value && r.0.usedFiles == s.usedFiles + 1
    ensures r.1.Ok? ==> '.' in file.fileName
                        && r.0.fileInfo == s.fileInfo[AddedName(file.fileName) := FileInfo(file.lastModified, s.usedFiles)]
  {
    GrownSound(s);
    var (s1, grown) := if s.usedFiles == s.availableFiles then Grown(s) else (s, None);
    if grown.Some? then (s1, Err(grown.value))
    else AddFileWithRoom(s1, file, template, blockOrder, diffOrder, parseDouble)
  }

  /** A file whose name has a '.' after its first char is found by CotainsFile once added. */
  lemma AddedFileIsContained(s: Store, file: Dataset, template: Option<Dataset>,
                             blockOrder: seq<string>, diffOrder: seq<string>, parseDouble: string -> Option<nat>)
    requires Sound(s)
    requires IsOrderOf(blockOrder, BlockNames(file.blocks))
    requires template.Some? ==> IsOrderOf(diffOrder, BlockNames(template.value.blocks))
    requires AddFile(s, file, template, blockOrder, diffOrder, parseDouble).1.Ok?
    requires LastIndexOf(file.fileName, '.') > 0
    ensures ContainsFile(AddFile(s, file, template, blockOrder, diffOrder, parseDouble).0, file.fileName)
    ensures AddFile(s, file, template, blockOrder, diffOrder, parseDouble).0.fileInfo[StoredName(file.fileName)]
            == FileInfo(file.lastModified, s.usedFiles)
  {
  }

  /**
   * A file whose only '.' is its first char is stored under the empty name,
   * but CotainsFile looks it up under its whole name: adding it does not make
   * it found.
   */
  lemma LeadingDotFileNotFound(s: Store, file: Dataset, template: Option<Dataset>,
                               blockOrder: seq<string>, diffOrder: seq<string>, parseDouble: string -> Option<nat>)
    requires Sound(s)
    requires IsOrderOf(blockOrder, BlockNames(file.blocks))
    requires template.Some? ==> IsOrderOf(diffOrder, BlockNames(template.value.blocks))
    requires AddFile(s, file, template, blockOrder, diffOrder, parseDouble).1.Ok?
    requires LastIndexOf(file.fileName, '.') == 0
    ensures AddedName(file.fileName) == ""
    ensures ContainsFile(AddFile(s, file, template, blockOrder, diffOrder, parseDouble).0, file.fileName)
            == ContainsFile(s, file.fileName)
  {
  }

  /**
   * CotainsFile as evidently intended: the name is cut at its last '.' also
   * when that '.' is its first char, the same key addFile stores it under.
   */
  function CorrectedStoredName(name: string): (r: string)
    ensures '.' in name ==> r == AddedName(name)
    ensures '.' !in name ==> r == name
  {
    var index := LastIndexOf(name, '.');
    if index >= 0 then name[..index] else name
  }

  /** With the corrected lookup, every file addFile accepts is found, leading '.' or not. */
  lemma CorrectedLookupFindsAddedFile(s: Store, file: Dataset, template: Option<Dataset>,
                                      blockOrder: seq<string>, diffOrder: seq<string>, parseDouble: string -> Option<nat>)
    requires Sound(s)
    requires IsOrderOf(blockOrder, BlockNames(file.blocks))
    requires template.Some? ==> IsOrderOf(diffOrder, BlockNames(template.value.blocks))
    requires AddFile(s, file, template, blockOrder, diffOrder, parseDouble).1.Ok?
    ensures var r := AddFile(s, file, template, blockOrder, diffOrder, parseDouble).0;
            CorrectedStoredName(file.fileName) in r.fileInfo
            && r.fileInfo[CorrectedStoredName(file.fileName)] == FileInfo(file.lastModified, s.usedFiles)
  {
  }

  /**
   * With no template, reportDifferences throws and so does its handler, which
   * names the template: addFile throws after the fill, and neither the row
   * nor the file is recorded.
   */
  lemma NullTemplateStoresNothing(s: Store, file: Dataset, blockOrder: seq<string>, diffOrder: seq<string>,
                                  parseDouble: string -> Option<nat>)
    requires Sound(s)
    requires IsOrderOf(blockOrder, BlockNames(file.blocks))
    ensures var r := AddFile(s, file, None, blockOrder, diffOrder, parseDouble);
            r.1.Err? && r.0.usedFiles == s.usedFiles && r.0.fileInfo == s.fileInfo
  {
    GrownSound(s);
    var (s1, grown) := if s.usedFiles == s.availableFiles then Grown(s) else (s, None);
    if grown.None? {
      NullTemplateWithRoom(s1, file, blockOrder, diffOrder, parseDouble);
    }
  }

  lemma NullTemplateWithRoom(s: Store, file: Dataset, blockOrder: seq<string>, diffOrder: seq<string>,
                             parseDouble: string -> Option<nat>)
    requires Sound(s)
    requires IsOrderOf(blockOrder, BlockNames(file.blocks))
    ensures var r := AddFileWithRoom(s, file, None, blockOrder, diffOrder, parseDouble);
            r.1.Err? && r.0.usedFiles == s.usedFiles && r.0.fileInfo == s.fileInfo
  {
    var dot := IndexOf(file.fileName, '.');
    if 0 <= dot <= FileNameMaxChars && file.numberOfVariables >= 0 {
      var entry := EncodeFileEntry(file.lastModified, file.fileName[..dot], s.usedFiles);
      var s2 := Enqueue(s, FileEntryAt(s.availableVars, s.usedFiles), entry);
      EnqueueSound(s, FileEntryAt(s.availableVars, s.usedFiles), entry);
      assert AddFileWithRoom(s, file, None, blockOrder, diffOrder, parseDouble)
             == AddRow(s2, file, None, blockOrder, diffOrder, parseDouble);
    }
  }

  /** A name with no '.' in its first 26 chars is refused once the file table has room, and nothing is queued. */
  lemma AddFileRefusesName(s: Store, file: Dataset, template: Option<Dataset>,
                           blockOrder: seq<string>, diffOrder: seq<string>, parseDouble: string -> Option<nat>)
    requires Sound(s) && s.usedFiles != s.availableFiles
    requires IsOrderOf(blockOrder, BlockNames(file.blocks))
    requires template.Some? ==> IsOrderOf(diffOrder, BlockNames(template.value.blocks))
    requires IndexOf(file.fileName, '.') < 0 || IndexOf(file.fileName, '.') > FileNameMaxChars
    ensures AddFile(s, file, template, blockOrder, diffOrder, parseDouble) == (s, Err(IndexOutOfBounds))
  {
  }

  /**
   * A stored variable whose value parses puts its double at its column of the
   * row, and changes nothing else; one whose value does not parse is skipped;
   * one whose hashCode throws ends the loop with the row as it was.
   */
  lemma FillStoredVariable(s: Store, row: seq<byte>, v: Variable, parseDouble: string -> Option<nat>)
    requires Valid(s) && Key(v) in s.variableInfo && v.value.Some?
    requires s.variableInfo[Key(v)] - DataStart(s.availableVars, s.availableFiles) + 8 <= |row|
    ensures !Hashable(v) ==> FillVariable(s, row, v, parseDouble) == (s, row, Some(NumberFormat))
    ensures var r := FillVariable(s, row, v, parseDouble);
            var index := s.variableInfo[Key(v)] - DataStart(s.availableVars, s.availableFiles);
            Hashable(v) ==>
            r.0 == s && r.2.None?
            && (parseDouble(v.value.value).None? ==> r.1 == row)
            && (parseDouble(v.value.value).Some? ==>
                  r.1[index..index + 8] == BigEndian(parseDouble(v.value.value).value, 8)
                  && r.1[..index] == row[..index] && r.1[index + 8..] == row[index + 8..])
  {
    ColumnIndex(s, Key(v));
  }

  /**
   * A new variable with parsable PDG codes whose hashCode returns is added
   * to the store, and each file stored before, except the first, gets
   * MAX_VALUE in its column. One whose hashCode throws changes nothing.
   */
  lemma FillNewVariable(s: Store, row: seq<byte>, v: Variable, parseDouble: string -> Option<nat>)
    requires Valid(s) && s.usedVars < s.availableVars && Key(v) !in s.variableInfo
    requires ParseInt(v.pdg).Some? && ParseInt(v.pdg2).Some? && ParseInt(v.pdg3).Some?
    ensures var added := NewEntry(s, v, ParseInt(v.pdg).value, ParseInt(v.pdg2).value, ParseInt(v.pdg3).value);
            FillVariable(s, row, v, parseDouble).0
            == if Hashable(v) then EnqueueAll(added, Sentinels(NextStart(s), s.offset, s.usedFiles)) else s
  {
    AddNewVariable(s, v);
    if Hashable(v) {
      FillAddedVariable(s, row, v, parseDouble, AddVariable(s, v).0);
    }
  }

  lemma FillAddedVariable(s: Store, row: seq<byte>, v: Variable, parseDouble: string -> Option<nat>, added: Store)
    requires Sound(s) && Key(v) !in s.variableInfo && AddVariable(s, v) == (added, Ok(true))
    ensures StoreVariable(s, v).0
            == EnqueueAll(added, Sentinels(added.variableInfo[Key(v)], added.offset, Nat(added.usedFiles)))
  {
  }

  /** addFile's loop runs through only when every variable it meets can be hashed. */
  lemma {:induction false} FillAllHashes(s: Store, row: seq<byte>, vs: seq<Variable>, parseDouble: string -> Option<nat>, k: nat)
    requires Sound(s) && FillAll(s, row, vs, parseDouble).2.None? && k < |vs|
    ensures Hashable(vs[k])
  {
    FillAllLast(s, row, vs, parseDouble);
    if k < |vs| - 1 {
      FillAllHashes(s, row, vs[..|vs| - 1], parseDouble, k);
    }
  }

  /** A loop that ran through also ran through its shorter prefix, and hashed its last variable. */
  lemma FillAllLast(s: Store, row: seq<byte>, vs: seq<Variable>, parseDouble: string -> Option<nat>)
    requires Sound(s) && |vs| > 0 && FillAll(s, row, vs, parseDouble).2.None?
    ensures FillAll(s, row, vs[..|vs| - 1], parseDouble).2.None? && Hashable(vs[|vs| - 1])
  {
    var prev := FillAll(s, row, vs[..|vs| - 1], parseDouble);
    if prev.2.None? {
      var r := FillVariable(prev.0, prev.1, vs[|vs| - 1], parseDouble);
      assert r.2.None?;
    }
  }

  /**
   * A file with a variable whose hashCode throws is never added: the
   * NumberFormatException, or an exception before it, ends addFile before
   * the row or the file is recorded.
   */
  lemma UnhashableFileRefused(s: Store, file: Dataset, template: Option<Dataset>,
                              blockOrder: seq<string>, diffOrder: seq<string>, parseDouble: string -> Option<nat>,
                              v: Variable)
    requires Sound(s)
    requires IsOrderOf(blockOrder, BlockNames(file.blocks))
    requires template.Some? ==> IsOrderOf(diffOrder, BlockNames(template.value.blocks))
    requires v in FileVariables(file.blocks, blockOrder) && !Hashable(v)
    ensures AddFile(s, file, template, blockOrder, diffOrder, parseDouble).1.Err?
  {
    GrownSound(s);
    var (s1, grown) := if s.usedFiles == s.availableFiles then Grown(s) else (s, None);
    if grown.None? {
      UnhashableRowRefused(s1, file, template, blockOrder, diffOrder, parseDouble, v);
    }
  }

  /**
   * addFile on a file holding a DECAY line with a negative daughter code
   * throws NumberFormatException: that Variable's hashCode throws at its
   * first map lookup.
   */
  lemma NegativeDaughterRefused(s: Store, file: Dataset, template: Option<Dataset>,
                                blockOrder: seq<string>, diffOrder: seq<string>, parseDouble: string -> Option<nat>,
                                toks: seq<string>)
    requires Sound(s)
    requires IsOrderOf(blockOrder, BlockNames(file.blocks))
    requires template.Some? ==> IsOrderOf(diffOrder, BlockNames(template.value.blocks))
    requires |toks| >= 5 && forall i :: 0 <= i < |toks| ==> IsToken(toks[i])
    requires ParseInt(toks[1]).Some? && ParseInt(toks[2]).Some? && ParseInt(toks[3]).Some?
    requires toks[2][0] == '-' || toks[3][0] == '-'
    requires DecayLineVariable(toks) in FileVariables(file.blocks, blockOrder)
    ensures AddFile(s, file, template, blockOrder, diffOrder, parseDouble).1.Err?
  {
    NegativeDaughterNotHashable(toks);
    UnhashableFileRefused(s, file, template, blockOrder, diffOrder, parseDouble, DecayLineVariable(toks));
  }

  lemma UnhashableRowRefused(s: Store, file: Dataset, template: Option<Dataset>,
                             blockOrder: seq<string>, diffOrder: seq<string>, parseDouble: string -> Option<nat>,
                             v: Variable)
    requires Sound(s)
    requires IsOrderOf(blockOrder, BlockNames(file.blocks))
    requires template.Some? ==> IsOrderOf(diffOrder, BlockNames(template.value.blocks))
    requires v in FileVariables(file.blocks, blockOrder) && !Hashable(v)
    ensures AddFileWithRoom(s, file, template, blockOrder, diffOrder, parseDouble).1.Err?
  {
    var dot := IndexOf(file.fileName, '.');
    if 0 <= dot <= FileNameMaxChars && file.numberOfVariables >= 0 {
      var entry := EncodeFileEntry(file.lastModified, file.fileName[..dot], s.usedFiles);
      var s2 := Enqueue(s, FileEntryAt(s.availableVars, s.usedFiles), entry);
      EnqueueSound(s, FileEntryAt(s.availableVars, s.usedFiles), entry);
      assert AddFileWithRoom(s, file, template, blockOrder, diffOrder, parseDouble)
             == AddRow(s2, file, template, blockOrder, diffOrder, parseDouble);
      var vs := FileVariables(file.blocks, blockOrder);
      var filled := FillAll(s2, Zeros(8 * file.numberOfVariables), vs, parseDouble);
      if filled.2.None? {
        var k :| 0 <= k < |vs| && vs[k] == v;
        FillAllHashes(s2, Zeros(8 * file.numberOfVariables), vs, parseDouble, k);
      }
    }
  }
}
