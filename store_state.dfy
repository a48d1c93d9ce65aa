/**
 * The state of the SLHA binary store (src/binaryUtil/BinaryParser.java) as a
 * value: the four table counters, the row stride, the variable and file maps,
 * the inconsistency counter, the bytes already in the file and the writes the
 * worker has still to apply. Creating and opening a store, reading a value
 * and asking for a file are functions of this value.
 */
module StoreState {
  import opened Wrappers
  import opened Thrown
  import opened JavaStrings
  import opened Variables
  import opened Layout

  /** FileInfo: when a file was last modified and its slot (row) in the store. */
  datatype FileInfo = FileInfo(lastModified: int, fileLocation: int)

  datatype Store = Store(
    offset: int,
    availableVars: int,
    usedVars: int,
    availableFiles: int,
    usedFiles: int,
    variableInfo: map<VarKey, int>,
    fileInfo: map<string, FileInfo>,
    loggedInconsistencies: int,
    disk: seq<byte>,
    queue: seq<Request>)

  /** The file as it will be once the worker has applied every queued write. */
  function Contents(s: Store): seq<byte> {
    ApplyAll(s.disk, s.queue)
  }

  /** The worker catching up: every queued write applied, nothing pending. */
  function Drained(s: Store): (r: Store)
    ensures r.queue == [] && Contents(r) == Contents(s)
    ensures r.(disk := s.disk, queue := s.queue) == s
  {
    s.(disk := Contents(s), queue := [])
  }

  /** addRequest: one more write at the back of the queue. */
  function Enqueue(s: Store, location: int, data: seq<byte>): Store {
    s.(queue := s.queue + [Request(location, data)])
  }

  /** A queued write lands on the file the earlier writes leave behind. */
  lemma EnqueueContents(s: Store, location: int, data: seq<byte>)
    ensures Contents(Enqueue(s, location, data)) == Write(Contents(s), location, data)
  {
    ApplyAllAppend(s.disk, s.queue, [Request(location, data)]);
  }

  /** The eight bytes of Double.MAX_VALUE, the store's mark for a missing value. */
  function MaxBytes(): (r: seq<byte>)
    ensures |r| == 8
  {
    [0x7F, 0xEF, 0xFF, 0xFF, 0xFF, 0xFF, 0xFF, 0xFF]
  }

  /** They are the big-endian bytes of MAX_VALUE's bit pattern, as writeDouble puts them. */
  lemma MaxBytesSpellMaxValue()
    ensures MaxBytes() == BigEndian(MaxValueBits, 8)
  {
  }

  // ------------------------------------------------------------ invariants

  /** Every stored column start is base + 8k for its own k < n. */
  predicate Columns(m: map<VarKey, int>, base: int, n: int) {
    (forall k :: k in m ==> base <= m[k] < base + 8 * n && (m[k] - base) % 8 == 0)
    && (forall k1, k2 :: k1 in m && k2 in m && m[k1] == m[k2] ==> k1 == k2)
  }

  /** Every used variable entry lies inside the file (reads of the variable table cannot fail). */
  predicate Sound(s: Store) {
    s.usedVars <= 0 || VarEntryAt(s.usedVars) <= |Contents(s)|
  }

  /** A store as this class keeps it: room left in both tables, the stride, and the columns. */
  predicate Valid(s: Store) {
    4 <= s.availableVars && 1 <= s.availableFiles
    && 0 <= s.usedVars <= s.availableVars && 0 <= s.usedFiles <= s.availableFiles
    && s.offset == 8 * s.availableVars
    && Columns(s.variableInfo, DataStart(s.availableVars, s.availableFiles), s.usedVars)
    && Sound(s)
  }

  /** The column of a stored variable, as a byte index into one row. */
  lemma ColumnIndex(s: Store, k: VarKey)
    requires Valid(s) && k in s.variableInfo
    ensures var index := s.variableInfo[k] - DataStart(s.availableVars, s.availableFiles);
            0 <= index && index + 8 <= 8 * s.usedVars && index % 8 == 0
            && index + 8 <= s.offset
  {
  }

  /** A queued write cannot shorten the file, so it keeps the store sound. */
  lemma EnqueueSound(s: Store, location: int, data: seq<byte>)
    requires Sound(s)
    ensures Sound(Enqueue(s, location, data))
    ensures |Contents(Enqueue(s, location, data))| >= |Contents(s)|
  {
    EnqueueContents(s, location, data);
  }

  // ------------------------------------------------------------- creating

  function CreatedHeader(): Header {
    Header(InitialAvailableVariables, 0, InitialAvailableFiles, 0)
  }

  /**
   * The constructor on a file that does not exist: an empty file, the header
   * and a zero-filled variable and file table queued, and offset = 8 * 150.
   */
  function Created(): (s: Store)
    ensures s.availableVars == 150 && s.usedVars == 0 && s.availableFiles == 2000 && s.usedFiles == 0
    ensures s.offset == 8 * 150 && s.variableInfo == map[] && s.fileInfo == map[]
  {
    Store(8 * InitialAvailableVariables, InitialAvailableVariables, 0, InitialAvailableFiles, 0,
          map[], map[], 0, [],
          [Request(0, EncodeHeader(CreatedHeader())),
           Request(HeaderSize, Zeros(FileBinarySize * InitialAvailableFiles + VariableBinarySize * InitialAvailableVariables))])
  }

  /** Once written, a new store's file is the header followed by zeros up to the data matrix. */
  lemma CreatedContents()
    ensures Contents(Created()) == EncodeHeader(CreatedHeader()) + Zeros(DataStart(150, 2000) - HeaderSize)
    ensures Valid(Created())
  {
    var h := EncodeHeader(CreatedHeader());
    var z := Zeros(FileBinarySize * InitialAvailableFiles + VariableBinarySize * InitialAvailableVariables);
    assert Write([], 0, h) == h;
    assert Write(h, HeaderSize, z) == h + z;
    assert Contents(Created()) == ApplyAll(Write(h, HeaderSize, z), []);
  }

  // -------------------------------------------------------------- opening

  /** The variable entry at table position i. */
  function EntryAt(disk: seq<byte>, i: nat): VarEntry
    requires VarEntryAt(i + 1) <= |disk|
  {
    DecodeVarEntry(disk[VarEntryAt(i)..VarEntryAt(i) + VariableBinarySize])
  }

  /** The map key gatherVariables (and copyVariables) builds from entry i. */
  function EntryKey(disk: seq<byte>, i: nat): VarKey
    requires VarEntryAt(i + 1) <= |disk|
  {
    Key(EntryVariable(EntryAt(disk, i)))
  }

  /** Entry i as gatherVariables reads it: its key and stored start, or None past the end of the file. */
  function ReadVarEntry(disk: seq<byte>, i: nat): (r: Option<(VarKey, int)>)
    ensures r.None? <==> |disk| < VarEntryAt(i + 1)
  {
    if |disk| < VarEntryAt(i + 1) then None else Some((EntryKey(disk, i), EntryAt(disk, i).firstInstance))
  }

  /**
   * gatherVariables' loop over the first n entries with each entry read by
   * read: the key mapped to its start, a later entry replacing an earlier
   * equal one; a failed read fails the whole open with EndOfFile.
   */
  function GatherWith(disk: seq<byte>, n: nat, read: (seq<byte>, nat) -> Option<(VarKey, int)>)
    : (r: Result<map<VarKey, int>, Exception>)
    ensures r.Err? ==> r.error == EndOfFile
  {
    if n == 0 then Ok(map[])
    else match GatherWith(disk, n - 1, read)
      case Err(e) => Err(e)
      case Ok(m) =>
        match read(disk, n - 1)
        case None => Err(EndOfFile)
        case Some(entry) => Ok(m[entry.0 := entry.1])
  }

  /** gatherVariables over the first n entries of the file. */
  function GatherVariables(disk: seq<byte>, n: nat): (r: Result<map<VarKey, int>, Exception>)
    ensures r.Ok? <==> n == 0 || VarEntryAt(n) <= |disk|
    ensures r.Err? ==> r.error == EndOfFile
  {
    ReadVarEntryFails(disk);
    GatherOkIff(disk, n, ReadVarEntry);
    GatherWith(disk, n, ReadVarEntry)
  }

  lemma ReadVarEntryFails(disk: seq<byte>)
    ensures forall i: nat :: ReadVarEntry(disk, i).None? <==> |disk| < VarEntryAt(i + 1)
  {
  }

  /** With a reader that fails exactly past the end of the file, the reads succeed exactly when the last entry lies inside it. */
  lemma {:induction false} GatherOkIff(disk: seq<byte>, n: nat, read: (seq<byte>, nat) -> Option<(VarKey, int)>)
    requires forall i: nat :: read(disk, i).None? <==> |disk| < VarEntryAt(i + 1)
    ensures GatherWith(disk, n, read).Ok? <==> n == 0 || VarEntryAt(n) <= |disk|
  {
    if n > 0 {
      GatherOkIff(disk, n - 1, read);
    }
  }

  /** The file entry verifyFiles reads at table position i, None once the file runs out. */
  function FileEntryIn(disk: seq<byte>, availableVars: int, i: int): Option<FileEntry> {
    var at := FileEntryAt(availableVars, i);
    if 0 <= at <= |disk| then ReadFileEntry(disk[at..]) else None
  }

  /**
   * The table loop of verifyFiles over the first n entries: each name mapped
   * to its FileInfo; the loop stops quietly at the first entry it cannot read.
   * Also returns how many entries were read.
   */
  function FileTable(disk: seq<byte>, availableVars: int, n: nat): (r: (map<string, FileInfo>, nat))
    ensures r.1 <= n
    ensures r.1 < n ==> FileEntryIn(disk, availableVars, r.1).None?
    ensures forall i :: 0 <= i < r.1 ==> FileEntryIn(disk, availableVars, i).Some?
  {
    if n == 0 then (map[], 0)
    else
      var prev := FileTable(disk, availableVars, n - 1);
      if prev.1 < n - 1 then prev
      else match FileEntryIn(disk, availableVars, n - 1)
        case None => prev
        case Some(e) => (prev.0[e.name := FileInfo(e.lastModified, e.slot)], n)
  }

  function Nat(x: int): nat {
    if x < 0 then 0 else x
  }

  /**
   * The constructor on an existing file: gatherHeader, offset = 8 *
   * availableVars, gatherVariables, then the table part of verifyFiles.
   * The worker starts with nothing queued.
   */
  function Opened(disk: seq<byte>): (r: Result<Store, Exception>)
    ensures r.Ok? <==> HeaderSize <= |disk|
                       && (var h := DecodeHeader(disk[..HeaderSize]); h.usedVars <= 0 || VarEntryAt(h.usedVars) <= |disk|)
    ensures r.Ok? ==> var h := DecodeHeader(disk[..HeaderSize]);
                      r.value.availableVars == h.availableVars && r.value.usedVars == h.usedVars
                      && r.value.availableFiles == h.availableFiles && r.value.usedFiles == h.usedFiles
                      && r.value.offset == 8 * h.availableVars && r.value.loggedInconsistencies == 0
                      && r.value.disk == disk && r.value.queue == [] && Sound(r.value)
    ensures r.Err? ==> r.error == EndOfFile
  {
    if |disk| < HeaderSize then Err(EndOfFile)
    else
      var h := DecodeHeader(disk[..HeaderSize]);
      match GatherVariables(disk, Nat(h.usedVars))
      case Err(e) => Err(e)
      case Ok(vars) =>
        Ok(Store(8 * h.availableVars, h.availableVars, h.usedVars, h.availableFiles, h.usedFiles,
                 vars, FileTable(disk, h.availableVars, Nat(h.usedFiles)).0, 0, disk, []))
  }

  /** Opening a new store's file, once written, gives back the new store with nothing left to write. */
  lemma OpenCreated()
    ensures Opened(Contents(Created())) == Ok(Drained(Created()))
  {
    var c := Contents(Created());
    CreatedContents();
    assert c[..HeaderSize] == EncodeHeader(CreatedHeader());
    HeaderRoundTrip(CreatedHeader());
  }

  /** An entry written as addVariable writes it is found by gatherVariables under its Variable's key. */
  lemma GatherFindsEntry(disk: seq<byte>, n: nat, v: Variable, start: int)
    requires IsNormal(v) && Storable(v) && IsInt64(start)
    requires VarEntryAt(n + 1) <= |disk|
    requires disk[VarEntryAt(n)..VarEntryAt(n) + VariableBinarySize]
             == EncodeVarEntry(ParseInt(v.pdg).value, ParseInt(v.pdg2).value, ParseInt(v.pdg3).value,
                               Trim(v.block), Trim(v.description), start)
    ensures GatherVariables(disk, n + 1).Ok?
    ensures Key(v) in GatherVariables(disk, n + 1).value
    ensures GatherVariables(disk, n + 1).value[Key(v)] == start
  {
    VarEntryRoundTrip(v, start);
    EqualsIffSameKey(EntryVariable(EntryAt(disk, n)), v);
    assert ReadVarEntry(disk, n) == Some((EntryKey(disk, n), start));
  }

  // ---------------------------------------------------------------- reads

  /**
   * getData(var, n): the double in row n of var's column, read from the file
   * as written so far; MAX_VALUE when the read fails. The lookup throws
   * NumberFormatException when var's hashCode does, and a stored-nowhere var
   * gives null, which unboxing turns into NullPointerException.
   */
  function GetData(s: Store, v: Variable, fileNumber: int): (r: Result<nat, Exception>)
    ensures r.Ok? <==> Hashable(v) && Key(v) in s.variableInfo
    ensures !Hashable(v) ==> r == Err(NumberFormat)
    ensures Hashable(v) && Key(v) !in s.variableInfo ==> r == Err(NullPointer)
  {
    if !Hashable(v) then Err(NumberFormat)
    else if Key(v) !in s.variableInfo then Err(NullPointer)
    else Ok(ReadDouble(s.disk, s.variableInfo[Key(v)] + s.offset * fileNumber))
  }

  /** In a valid store a value lies in its file's row: between that row's start and the next row's. */
  lemma GetDataInRow(s: Store, v: Variable, n: int)
    requires Valid(s) && Key(v) in s.variableInfo
    ensures var loc := s.variableInfo[Key(v)] + s.offset * n;
            var row := DataStart(s.availableVars, s.availableFiles) + s.offset * n;
            row <= loc && loc + 8 <= row + s.offset
    ensures GetData(s, v, n)
            == if Hashable(v) then Ok(ReadDouble(s.disk, s.variableInfo[Key(v)] + s.offset * n)) else Err(NumberFormat)
  {
    ColumnIndex(s, Key(v));
  }

  /** Equal Variables whose hashCode both return, or both throw, read the same values. */
  lemma GetDataRespectsEquals(s: Store, v: Variable, w: Variable, n: int)
    requires Equals(v, w)
    ensures Hashable(v) == Hashable(w) ==> GetData(s, v, n) == GetData(s, w, n)
  {
    EqualsIffSameKey(v, w);
  }

  /** The name CotainsFile looks up: cut at the last '.', unless that '.' is the first char. */
  function StoredName(name: string): (r: string)
    ensures LastIndexOf(name, '.') > 0 ==> r == name[..LastIndexOf(name, '.')]
    ensures LastIndexOf(name, '.') <= 0 ==> r == name
  {
    var index := LastIndexOf(name, '.');
    if index > 0 then name[..index] else name
  }

  /** CotainsFile: whether the file table holds the file's name. */
  function ContainsFile(s: Store, name: string): bool {
    StoredName(name) in s.fileInfo
  }
}
