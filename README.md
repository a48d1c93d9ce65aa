# SLHA simulation data store, modelled in Dafny

DarkCache-SimulationDataManager reads a directory of SLHA files (the text
format particle-physics spectrum generators write) and keeps their numbers
in one binary store, `binary.bin`, so that a chosen set of variables can be
read back for every file quickly. This project models the core of it:

- **The value types.** A `Variable` is identified by its three PDG codes and
  the name of its block, compared without regard to case. An SLHA block is
  either a plain `BLOCK` or a `DECAY` block.
- **The SLHA parser.** It is modelled over the file's lines. A result is
  either the parsed blocks or the exception the constructor throws.
- **The file checker.** It reports the differences between a file and a
  template as pairs: a coded message ("1", "2 …" or "3 …") followed by a
  worded one.
- **The binary store.** `BinaryParser` is a class whose fields the methods
  update in place: the sizes, the stride, the variable and file maps, the
  backing bytes and the worker queue. The store has four areas:
  - a 16-byte header (available and used variables and files);
  - the variable table, 110 bytes per variable: three PDG codes, a block
    name of 20 UTF-16 units, a description of 25 units and the first
    column's offset;
  - the file table, 62 bytes per file: the modification date, a name of 25
    units and the row number;
  - the data rows, one 8-byte double per variable and one row per file.

  All writes go through a FIFO queue that a worker thread drains. The model
  keeps the queue as a sequence of requests. Its `Contents` is the disk with
  every queued write applied in order.
- **The front end's helpers.**
  - the numeric file-name comparator used to sort a directory;
  - the file-name filters (the run loop's, writeDataFile's, and the `.dat`
    chooser filter);
  - the drag-and-drop list's `placeString` and `clearList`.

Every state-changing method of `BinaryStore.BinaryParser` is proved equal to
a function of the old state, in the `Store*` modules. What the Java code
promises is proved about those functions:
- the encodings round-trip;
- a written variable entry is found again when the store is reopened;
- a stored row reads back through `getData`;
- `grow` keeps the layout valid, and the new stride is what it reads with;
- every difference reported has its cause, and every cause is reported;
- `addFile` accepts or refuses a file as the code does, including the NumberFormatException a variable's hashCode throws.

Exceptions are values: `Result`, `Option` and `Outcome` carry the Java
exception (`NullPointer`, `InputMismatch`, `IndexOutOfBounds`, …). Where the
code throws, the model returns that exception with the state reached so
far, including every write already queued.

## Model

| member | source | states |
|---|---|---|
| Variables.NormalisePdg | src/binaryUtil/Variable.java:43-55 | a null or empty PDG code becomes "0"; any other is trimmed |
| Variables.NormaliseText | src/binaryUtil/Variable.java:57-64 | a null description or block becomes ""; any other is trimmed |
| Variables.NewVariable | src/binaryUtil/Variable.java:41-67 | the value is kept as given, and every other field is in normal (trimmed) form |
| Variables.NewVariableIdempotent | src/binaryUtil/Variable.java:41-67 | rebuilding a variable from its own fields gives the same variable |
| Variables.NormalisedPdgKept | src/binaryUtil/Variable.java:43-46 | a trimmed non-empty code is stored unchanged |
| Variables.NormalisedTextKept | src/binaryUtil/Variable.java:57-64 | trimmed text is stored unchanged |
| Variables.BlankPdgStoredEmpty | src/binaryUtil/Variable.java:43-46 | a blank (all-space) PDG code is not "" before trimming, so it is stored as "" rather than "0" |
| Variables.Equals | src/binaryUtil/Variable.java:119-137 | Variable.equals: the three PDG codes and the block, each compared ignoring case (its properties: EqualsIffSameKey, EqualsIsEquivalence) |
| Variables.Key | src/binaryUtil/Variable.java:126-129 | the four fields equals compares, case-folded: two variables are equal iff their keys are (EqualsIffSameKey) |
| Variables.EqualsIffSameKey | src/binaryUtil/Variable.java:119-137 | two variables are equal iff their case-folded PDG codes and block agree; the value and description never matter |
| Variables.EqualsIsEquivalence | src/binaryUtil/Variable.java:119-137 | equals is reflexive, symmetric and transitive |
| Variables.ToString | src/binaryUtil/Variable.java:98-116 | toString is empty iff the block and the description are both empty |
| Variables.ToStringShape | src/binaryUtil/Variable.java:98-116 | toString is empty iff block and description are empty, starts with "BLOCK: " + block when there is a block, and ignores the codes and the value |
| Variables.ScalingFactor | src/binaryUtil/Variable.java:142-147 | the loop's sum of the block's char codes, wrapped to 32 bits |
| Variables.HashIgnoresValueAndDescription | src/binaryUtil/Variable.java:140-149 | hashCode's inputs (the concatenated codes and the block's char sum) ignore the value and the description |
| Variables.Hashable | src/binaryUtil/Variable.java:148 | hashCode returns instead of throwing NumberFormatException iff parseDouble accepts the joined PDG codes (characterised by IntCodesHashable) |
| Variables.IntCodesHashable | src/binaryUtil/Variable.java:140-149 | for codes parseInt accepts, hashCode throws NumberFormatException iff the second or third code carries a sign |
| Variables.EqualsIgnoresHashable | src/binaryUtil/Variable.java:119-149 | two equal variables ("NaN" and "nan" codes) of which only one can be hashed |
| Variables.HashCodeDisagreesWithEquals | src/binaryUtil/Variable.java:119-149 | the variables 1 0 0 MASS and 1 0 0 mass are equal, but their hash codes are floor(sqrt(100*308)) = 175 and floor(sqrt(100*436)) = 208 |
| Variables.CorrectedHashCode | src/binaryUtil/Variable.java:140-149 | hashCode as intended: a hash of the case-folded codes and block that fits in an int and never throws |
| Variables.KeyHash | src/binaryUtil/Variable.java:140-149 | the corrected hash reads only a variable's identity (its case-folded PDG codes and block) |
| Variables.CorrectedHashRespectsEquals | src/binaryUtil/Variable.java:119-149 | equal variables have equal corrected hash codes, whatever their value and description |
| Variables.CorrectedHashRepairsExamples | src/binaryUtil/Variable.java:119-149 | MASS/mass hash differently as written and alike corrected; of NaN/nan only one is hashable as written, and both hash alike corrected |
| Blocks.PlainEntryIsDecayEntry | src/binaryUtil/SlhaBlock.java:44-48 | both block kinds build the same variable from the same fields |
| Blocks.VariableWithDescription | src/binaryUtil/SlhaBlock.java:87-96 | getVariable succeeds iff some variable's description equals the argument ignoring case, returns such a variable, and otherwise throws InvalidParameterException |
| Blocks.FirstWithDescription | src/binaryUtil/SlhaBlock.java:87-96 | the index of the first variable whose description matches ignoring case, or -1 when there is none |
| Blocks.ContainsAfterAppend | src/binaryUtil/SlhaBlock.java:44-48 | after adding x, the block contains v iff it contained v before or x equals v |
| Blocks.ContainsRespectsEquals | src/binaryUtil/SlhaBlock.java:74-83 | containsVariable gives the same answer for equal variables |
| Blocks.SearchEqual | src/binaryUtil/SlhaBlock.java:74-83 | the loop finds a variable iff some element equals it |
| Blocks.SearchDescription | src/binaryUtil/SlhaBlock.java:87-96 | the loop returns what VariableWithDescription specifies |
| Blocks.FirstWithDescriptionIs | src/binaryUtil/SlhaBlock.java:87-96 | any index that matches, with no match before it, is the one FirstWithDescription returns |
| Blocks.SlhaBlock.constructor | src/binaryUtil/SlhaBlock.java:36-41 | a new block has the given name and no variables |
| Blocks.SlhaBlock.AddVariable | src/binaryUtil/SlhaBlock.java:44-48 | appends exactly the normalised variable, leaves the count unchanged, and returns false |
| Blocks.SlhaBlock.GetVariables | src/binaryUtil/SlhaBlock.java:51-54 | the block's variables, in order |
| Blocks.SlhaBlock.BlockName | src/binaryUtil/SlhaBlock.java:57-60 | the block's name |
| Blocks.SlhaBlock.HashCode | src/binaryUtil/SlhaBlock.java:63-71 | the name's char-code sum, wrapped to 32 bits |
| Blocks.SlhaBlock.ContainsVariable | src/binaryUtil/SlhaBlock.java:74-83 | true iff some variable equals the argument |
| Blocks.SlhaBlock.GetVariable | src/binaryUtil/SlhaBlock.java:87-96 | the first variable with that description ignoring case, or InvalidParameterException |
| Blocks.SlhaBlock.GetNumberOfVariables | src/binaryUtil/SlhaBlock.java:101-104 | the count field, which addVariable never raises, so it is always 0 |
| Blocks.DecayBlock.constructor | src/binaryUtil/DecayBlock.java:40-46 | a new decay block has the header code, data and description, and no variables |
| Blocks.DecayBlock.AddVariable | src/binaryUtil/DecayBlock.java:72-84 | appends exactly the normalised variable and returns true |
| Blocks.DecayBlock.GetVariables | src/binaryUtil/DecayBlock.java:87-90 | the block's variables, in order |
| Blocks.DecayBlock.BlockName | src/binaryUtil/DecayBlock.java:93-96 | the header description, which is the block's name |
| Blocks.DecayBlock.ContainsVariable | src/binaryUtil/DecayBlock.java:99-108 | true iff some variable equals the argument |
| Blocks.DecayBlock.GetVariable | src/binaryUtil/DecayBlock.java:111-120 | the first variable with that description ignoring case, or InvalidParameterException |
| Slha.FileNameIsLastComponent | src/binaryUtil/SlhaFile.java:56-57 | the file name is the path's suffix after its last backslash, and it holds no backslash |
| Slha.DataLineVariable | src/binaryUtil/SlhaFile.java:228-268 | one token: a bare value with codes 0 0. Three tokens: two codes and the value plus a space. Two or more than three: one code and the rest joined with trailing spaces. The third code is always empty, so it is stored as "0" |
| Slha.DecayLineVariable | src/binaryUtil/SlhaFile.java:156-172 | the value, three codes, a skipped token, then the description up to a comment; the block is "DECAY" |
| Slha.NegativeDaughterNotHashable | src/binaryUtil/SlhaFile.java:156-172 | a DECAY line with a negative daughter code, such as "0.5 2 -11 12 x" (five tokens, as the fifth `s.next()` needs), yields a variable whose hashCode throws |
| Slha.SkipEmptyLines | src/binaryUtil/SlhaFile.java:273-274 | advances to a non-empty line, or reports the end of the file |
| Slha.BlockDataLine | src/binaryUtil/SlhaFile.java:209-281 | one data line adds exactly one variable and either moves on or reports the end of the file |
| Slha.InBlockBody | src/binaryUtil/SlhaFile.java:191-287 | a parsed block keeps its name and only adds variables; the body ends at the end of the file or at a line starting with 'B' or 'D'; the count rises by the number of variables added |
| Slha.DecayHeader | src/binaryUtil/SlhaFile.java:121-138 | a parsed DECAY header is a decay block with no variables |
| Slha.DecayDataLine | src/binaryUtil/SlhaFile.java:155-181 | one decay line adds exactly one variable; the loop either moves past the line or reports the end of the file |
| Slha.DecayBody | src/binaryUtil/SlhaFile.java:140-184 | the decay block keeps its header, only adds variables, and ends as the loop does |
| Slha.TopLine | src/binaryUtil/SlhaFile.java:78-106 | one top-level line is consumed; the count rises only for a plain block |
| Slha.DecayRead | src/binaryUtil/SlhaFile.java:117-185 | parseDecayBlock consumes at least its header and yields a decay block |
| Slha.BlockOf | src/binaryUtil/SlhaFile.java:191-287 | the block parseInBlock returns, without where it stopped; failures and non-termination are kept |
| Slha.DecayOf | src/binaryUtil/SlhaFile.java:117-185 | the same for parseDecayBlock |
| Slha.TopLevel | src/binaryUtil/SlhaFile.java:76-110 | the loop only adds blocks, ends with at least one, and counts exactly the plain blocks' variables |
| Slha.Parse | src/binaryUtil/SlhaFile.java:54-112 | a parsed file has at least one block, and numberOfVariables is the number of plain-block variables |
| Slha.ParseRejects | src/binaryUtil/SlhaFile.java:67-74 | an empty or one-line file, or a first word that is not a comment, BLOCK or DECAY, throws; a blank first line throws NoSuchElementException |
| Slha.DescriptionStopsAtComment | src/binaryUtil/SlhaFile.java:130-135 | the description ends at the first token starting with '#' |
| Slha.FieldOf | src/binaryUtil/SlhaFile.java:314-323 | getField succeeds iff a block's name equals the argument ignoring case, and otherwise throws InvalidParameterException |
| Slha.FirstBlockNamed | src/binaryUtil/SlhaFile.java:316-320 | the first block whose name matches ignoring case, or -1 |
| Slha.FirstBlockNamedIs | src/binaryUtil/SlhaFile.java:316-320 | any index that matches, with no match before it, is the one FirstBlockNamed returns |
| Slha.HasBlockByNames | src/binaryUtil/SlhaFile.java:347-356 | ContainsBlock holds iff some name in getBlocks equals the argument ignoring case |
| Slha.SlhaFile.constructor | src/binaryUtil/SlhaFile.java:54-60 | a new file holds its lines, the name after the last backslash and the date, and no blocks yet |
| Slha.SlhaFile.Open | src/binaryUtil/SlhaFile.java:54-112 | opening succeeds, or fails with the same exception, exactly as Parse does; on success it holds Parse's blocks (as a set) and count |
| Slha.SlhaFile.ReadAll | src/binaryUtil/SlhaFile.java:67-110 | the constructor's loop ends as Parse does and leaves Parse's blocks and count |
| Slha.SlhaFile.AddBlock | src/binaryUtil/SlhaFile.java:90 | data gains exactly the block (HashSet.add) |
| Slha.SlhaFile.TopStep | src/binaryUtil/SlhaFile.java:78-106 | one loop step either ends as TopLevel does or moves forward and keeps TopLevel's result |
| Slha.SlhaFile.TopBlock | src/binaryUtil/SlhaFile.java:85-93 | the BLOCK branch keeps TopLevel's result |
| Slha.SlhaFile.TopDecay | src/binaryUtil/SlhaFile.java:94-101 | the DECAY branch keeps TopLevel's result |
| Slha.SlhaFile.TopHeader | src/binaryUtil/SlhaFile.java:85-104 | the dispatch on the first token keeps TopLevel's result: BLOCK, DECAY, or the exception for any other word |
| Slha.SlhaFile.ParseInBlock | src/binaryUtil/SlhaFile.java:191-287 | returns InBlockBody's block, cursor and count |
| Slha.SlhaFile.InBlockStep | src/binaryUtil/SlhaFile.java:197-284 | one step of parseInBlock's loop keeps InBlockBody's result |
| Slha.SlhaFile.ReadBlockDataLine | src/binaryUtil/SlhaFile.java:209-281 | one data line as BlockDataLine specifies, with the count one higher |
| Slha.SlhaFile.SkipEmpty | src/binaryUtil/SlhaFile.java:273-274 | the empty-line loop as SkipEmptyLines specifies |
| Slha.SlhaFile.ParseDecayBlock | src/binaryUtil/SlhaFile.java:117-185 | returns DecayRead's block and cursor |
| Slha.SlhaFile.DecayLoop | src/binaryUtil/SlhaFile.java:140-182 | the variable loop as DecayBody specifies |
| Slha.SlhaFile.DecayStep | src/binaryUtil/SlhaFile.java:141-181 | one step keeps DecayBody's result |
| Slha.SlhaFile.ReadDecayDataLine | src/binaryUtil/SlhaFile.java:155-181 | one decay line as DecayDataLine specifies |
| Slha.SlhaFile.GetField | src/binaryUtil/SlhaFile.java:314-323 | returns FieldOf over the blocks read |
| Slha.SlhaFile.GetBlocks | src/binaryUtil/SlhaFile.java:329-337 | exactly the names of the blocks read |
| Slha.SlhaFile.ContainsBlock | src/binaryUtil/SlhaFile.java:347-356 | true iff getField would succeed |
| Slha.FirstComment | src/binaryUtil/SlhaFile.java:212-218 | the position of the first token starting with '#', or the end, with no comment before it |
| Slha.SplitAtComment | src/binaryUtil/SlhaFile.java:212-218 | the part before the first comment holds no comment, and both parts are tokens when the input is |
| Slha.TakeData | src/binaryUtil/SlhaFile.java:212-218 | the tokens before the first comment token, and the rest |
| Slha.DataLineFields | src/binaryUtil/SlhaFile.java:221-268 | the fields the branches pick build exactly DataLineVariable's variable |
| Slha.GatherDescription | src/binaryUtil/SlhaFile.java:263-268 | the description loop joins each token after a space, up to a comment |
| Slha.JoinLoop | src/binaryUtil/SlhaFile.java:260-262 | the data loop joins the remaining tokens, each followed by a space |
| FileChecker.MissingNames | src/binaryUtil/FileChecker.java:45-55 | exactly the template's block names the file lacks (ignoring case) |
| FileChecker.PresentNames | src/binaryUtil/FileChecker.java:45-55 | exactly the template's block names the file has |
| FileChecker.MissingBlockFindings | src/binaryUtil/FileChecker.java:48-52 | for each missing block, the code "1"+name, then the worded message |
| FileChecker.NotContained | src/binaryUtil/FileChecker.java:62-83 | exactly the variables of one block that the other block does not contain |
| FileChecker.VariableFindings | src/binaryUtil/FileChecker.java:66-82 | two findings per variable given |
| FileChecker.BlockFindings | src/binaryUtil/FileChecker.java:60-83 | the findings for one shared block: its "2" findings, then its "3" findings (explained by BlockFindingsExplained) |
| FileChecker.VariableCheck | src/binaryUtil/FileChecker.java:58-84 | the variable loop over the shared names, block after block (explained by VariableCheckExplained) |
| FileChecker.Differences | src/binaryUtil/FileChecker.java:40-87 | reportDifferences for a given order of the template's names: the missing-block findings, then the variable findings (its properties: DifferencesShape, DifferencesExplained and the three Reported lemmas) |
| FileChecker.OrderExists | src/binaryUtil/FileChecker.java:45 | every set of block names has an iteration order (the HashSet's) |
| FileChecker.DifferencesShape | src/binaryUtil/FileChecker.java:40-87 | the list has even length, codes sit at exactly the even positions, and every missing-block code comes before every variable code |
| FileChecker.DifferencesWorded | src/binaryUtil/FileChecker.java:51-81 | every odd-position message starts with a word that is not an integer |
| FileChecker.MissingBlocksReported | src/binaryUtil/FileChecker.java:48-52 | a template block the file lacks is reported with its "1" code |
| FileChecker.UnmatchedVariableReported | src/binaryUtil/FileChecker.java:62-72 | a file variable the template's block lacks is reported with a "2" code |
| FileChecker.MissingVariableReported | src/binaryUtil/FileChecker.java:74-82 | a template variable the file's block lacks is reported with a "3" code |
| FileChecker.DifferencesExplained | src/binaryUtil/FileChecker.java:40-87 | every code reported has a cause: a missing block, or a variable present on one side of a shared block only |
| FileChecker.BlockFindingsExplained | src/binaryUtil/FileChecker.java:62-82 | every code for one shared block names a variable missing on the other side |
| FileChecker.VariableCheckExplained | src/binaryUtil/FileChecker.java:58-84 | every code from the variable loop has a cause in one of the checked blocks |
| FileChecker.NoDifferencesWithItself | src/binaryUtil/FileChecker.java:40-87 | a file compared with itself has no differences |
| FileChecker.SelfVariableCheck | src/binaryUtil/FileChecker.java:58-84 | a file's blocks checked against themselves give nothing |
| FileChecker.SelfContained | src/binaryUtil/FileChecker.java:62-72 | every variable of a block is contained in it |
| FileChecker.AllContained | src/binaryUtil/FileChecker.java:62-72 | variables all contained in a block give no findings |
| FileChecker.NoneMissing | src/binaryUtil/FileChecker.java:45-55 | a file with every template block has no missing-block findings |
| FileChecker.CandidateOnlyBlockIgnored | src/binaryUtil/FileChecker.java:45-84 | a block only the file has changes nothing reported, wherever it sits |
| FileChecker.InsertedBlockInvisible | src/binaryUtil/SlhaFile.java:314-356 | inserting a block of another name changes neither ContainsBlock nor getField for a name |
| FileChecker.FirstAfterInsert | src/binaryUtil/SlhaFile.java:316-320 | the first match shifts by one exactly when the insertion is before it |
| FileChecker.VariableFindingsAt | src/binaryUtil/FileChecker.java:66-82 | finding 2k is the code and 2k+1 the message of the k-th unmatched variable |
| FileChecker.CheckBlocks | src/binaryUtil/FileChecker.java:45-55 | the block loop returns the missing-block findings and the shared names, in the set's order |
| FileChecker.VisitBlock | src/binaryUtil/FileChecker.java:47-54 | one step of the block loop |
| FileChecker.CheckVariables | src/binaryUtil/FileChecker.java:62-72 | one variable loop returns exactly VariableFindings of the uncontained variables |
| FileChecker.CheckBlock | src/binaryUtil/FileChecker.java:60-83 | both variable loops for one shared block |
| FileChecker.CheckValidBlocks | src/binaryUtil/FileChecker.java:58-84 | the loop over shared blocks |
| FileChecker.ReportDifferences | src/binaryUtil/FileChecker.java:40-87 | returns Differences for some iteration order of the template's names |
| JavaStrings.Wrap32 | src/binaryUtil/ProgramModel.java:242 | the 32-bit int congruent to x, and x itself when x fits |
| JavaStrings.Trim | src/binaryUtil/Variable.java:46 | trim never lengthens a string, and what it leaves is empty or starts and ends with a char above U+0020 |
| JavaStrings.Tokens | src/binaryUtil/BinaryParser.java:482-530 | Scanner's tokens are each a non-empty run of non-whitespace chars |
| JavaStrings.TokensOfToken | src/binaryUtil/BinaryParser.java:482-530 | a single token scans as itself |
| JavaStrings.Fold | src/binaryUtil/SlhaFile.java:318 | the case-folded string has the same length, each char folded |
| JavaStrings.TrimIdempotent | src/binaryUtil/Variable.java:46 | trimming twice is trimming once |
| JavaStrings.TrimOfTrimmed | src/binaryUtil/Variable.java:46 | a string with no blank ends is unchanged by trim |
| JavaStrings.TokensSplit | src/binaryUtil/BinaryParser.java:482-530 | Scanner's tokens of a + " " + b are a's tokens then b's |
| JavaStrings.EqualsIgnoreCaseCharwise | src/binaryUtil/Variable.java:126-129 | equalsIgnoreCase holds iff the lengths agree and each char pair folds alike |
| JavaStrings.IndexOf | src/binaryUtil/BinaryParser.java:362 | the first position of c, or -1 iff c does not occur |
| JavaStrings.LastIndexOf | src/binaryUtil/BinaryParser.java:464 | the last position of c, or -1 iff c does not occur |
| JavaStrings.CompareToAntisymmetric | src/binaryUtil/ProgramModel.java:239 | compareTo(a, b) = -compareTo(b, a), and it is 0 iff a = b |
| JavaStrings.ParseInt | src/binaryUtil/BinaryParser.java:597-599 | a parsed value always fits in 32 bits |
| JavaStrings.ParseIntToString | src/binaryUtil/BinaryParser.java:308 | parseInt of an int's decimal string is that int |
| JavaStrings.IntToStringCanonical | src/binaryUtil/BinaryParser.java:308 | an int's decimal string is canonical |
| JavaStrings.IntToStringIsToken | src/binaryUtil/BinaryParser.java:308 | an int's decimal string is one token, and trimming leaves it unchanged |
| JavaStrings.IntCodesJoinedParse | src/binaryUtil/Variable.java:148 | three int codes written together are a literal Double.parseDouble accepts iff neither the second nor the third carries a sign |
| Layout.UnsignedBigEndian | src/binaryUtil/BinaryParser.java:554-558 | big-endian decoding inverts encoding for any value that fits |
| Layout.BigEndianUnsigned | src/binaryUtil/BinaryParser.java:554-558 | encoding inverts decoding for any bytes |
| Layout.SignedRoundTrip | src/binaryUtil/BinaryParser.java:554-558 | two's-complement decoding inverts encoding for any value that fits |
| Layout.IntRoundTrip | src/binaryUtil/BinaryParser.java:318-321 | readInt of putInt is the int |
| Layout.EncodeInt | src/binaryUtil/BinaryParser.java:337-340 | putInt: four bytes, read back by IntRoundTrip |
| Layout.EncodeLong | src/binaryUtil/BinaryParser.java:361 | putLong: eight bytes, read back by LongRoundTrip |
| Layout.LongRoundTrip | src/binaryUtil/BinaryParser.java:116 | readLong of putLong is the long |
| Layout.CharsRoundTrip | src/binaryUtil/BinaryParser.java:286-303 | reading n chars while skipping NULs gives back the first n chars written |
| Layout.NameRoundTrip | src/binaryUtil/BinaryParser.java:115-123 | reading chars up to the first NUL gives back a name that fits |
| Layout.EncodeHeader | src/binaryUtil/BinaryParser.java:552-561 | the header is exactly 16 bytes |
| Layout.HeaderRoundTrip | src/binaryUtil/BinaryParser.java:316-322 | gatherHeader reads back the four counts updateBinary wrote |
| Layout.DecodeHeader | src/binaryUtil/BinaryParser.java:316-322 | gatherHeader: four ints in order (HeaderRoundTrip) |
| Layout.EncodeVarEntry | src/binaryUtil/BinaryParser.java:595-618 | a variable entry is VARIABLE_BINARY_SIZE = 110 bytes long |
| Layout.VarEntryRoundTrip | src/binaryUtil/BinaryParser.java:276-310 | gatherVariables rebuilds a variable equal to the stored one, with its first column |
| Layout.DecodeVarEntry | src/binaryUtil/BinaryParser.java:276-310 | an entry as gatherVariables reads it: three ints, 20 and 25 chars skipping NULs, a long (VarEntryRoundTrip) |
| Layout.VarEntryFields | src/binaryUtil/BinaryParser.java:282-306 | the three codes and the first column read back exactly |
| Layout.PrintedPdg | src/binaryUtil/BinaryParser.java:308 | a canonical code printed back from its int is the code |
| Layout.EncodeFileEntry | src/binaryUtil/BinaryParser.java:360-372 | a file entry is exactly 62 bytes |
| Layout.FileEntryRoundTrip | src/binaryUtil/BinaryParser.java:113-125 | a 25-char name reads back with its date and row number |
| Layout.ShortNameReadsSlotZero | src/binaryUtil/BinaryParser.java:117-124 | for a name shorter than 23 chars, verifyFiles stops at the NUL and readInt reads padding, so the row number reads as 0 |
| Layout.ShortNameFields | src/binaryUtil/BinaryParser.java:115-123 | a short name's date and name read back exactly |
| Layout.ShortNamePadding | src/binaryUtil/BinaryParser.java:367-370 | the four bytes after a short name's NUL are zero |
| Layout.CorrectedReadFileEntry | src/binaryUtil/BinaryParser.java:113-124 | verifyFiles as intended: the name up to its NUL within the 25-char field, the row number read where the field ends |
| Layout.CorrectedFileEntryRoundTrip | src/binaryUtil/BinaryParser.java:113-124 | with the corrected read every name of at most 25 chars comes back with its date and row number |
| Layout.Write | src/binaryUtil/BinaryParser.java:1050-1051 | a seek and write replaces exactly the written range, extending the file with zeros |
| Layout.ApplyAllAppend | src/binaryUtil/BinaryParser.java:1040-1060 | draining two queues in turn is draining their concatenation |
| Layout.ReadAt | src/binaryUtil/BinaryParser.java:977-978 | a read succeeds iff the range lies inside the file |
| Layout.ReadDouble | src/binaryUtil/BinaryParser.java:976-983 | a read past the end gives MAX_VALUE's bits |
| Layout.ReadAfterWrite | src/binaryUtil/BinaryParser.java:1050-1051 | reading the written range gives the written bytes |
| Layout.WriteElsewhere | src/binaryUtil/BinaryParser.java:1050-1051 | a write leaves every disjoint range as it was |
| Layout.PutDouble | src/binaryUtil/BinaryParser.java:406 | ByteBuffer.putDouble(index, d) succeeds iff 8 bytes fit at index, and then changes exactly those 8 bytes |
| StoreState.Drained | src/binaryUtil/BinaryParser.java:645-652 | waiting for the queue empties it without changing the contents |
| StoreState.EnqueueContents | src/binaryUtil/BinaryParser.java:1086-1093 | addRequest makes the contents the old contents with that write applied |
| StoreState.MaxBytesSpellMaxValue | src/binaryUtil/BinaryParser.java:391-393 | the sentinel bytes are Double.MAX_VALUE's bits, big-endian |
| StoreState.EnqueueSound | src/binaryUtil/BinaryParser.java:1086-1093 | queuing a write keeps the store well-formed and never shrinks it |
| StoreState.Created | src/binaryUtil/BinaryParser.java:327-347 | a new store has 150 variable and 2000 file places, none used, and stride 8*150 |
| StoreState.Valid | src/binaryUtil/BinaryParser.java:33-59 | the class's layout: room in both tables, used counts within them, stride 8*availableVars, distinct columns inside a row, and every used entry inside the file (kept by CreatedContents, GrowKeepsValid, InsertKeepsValid, AddFileKeepsValid) |
| StoreState.CreatedContents | src/binaryUtil/BinaryParser.java:327-347 | a new store's bytes are the header followed by zeroed tables, and its layout is valid |
| StoreState.ReadVarEntry | src/binaryUtil/BinaryParser.java:279-308 | reading entry i fails iff the file ends before it |
| StoreState.GatherVariables | src/binaryUtil/BinaryParser.java:276-310 | gathering n entries succeeds iff all n lie in the file; otherwise EOFException |
| StoreState.GatherOkIff | src/binaryUtil/BinaryParser.java:276-310 | the same for any entry reader that fails only past the end |
| StoreState.FileTable | src/binaryUtil/BinaryParser.java:107-133 | the table loop reads entries in order, and stops at the first one that cannot be read |
| StoreState.Opened | src/binaryUtil/BinaryParser.java:61-87 | opening succeeds iff the header and the used variable entries can be read; the counts are the header's, the stride is 8 times the variable places, and nothing is queued |
| StoreState.OpenCreated | src/binaryUtil/BinaryParser.java:61-101 | reopening a newly created store gives the created store with its queue drained |
| StoreState.GatherFindsEntry | src/binaryUtil/BinaryParser.java:276-310 | a variable whose entry is written at place n is gathered with its first column |
| StoreState.GetData | src/binaryUtil/BinaryParser.java:973-984 | getData returns a value iff the variable can be hashed and is stored; NumberFormatException iff its hashCode throws; NullPointerException iff it hashes but is not stored |
| StoreState.GetDataInRow | src/binaryUtil/BinaryParser.java:973-984 | a stored variable's value for file n is read from inside row n |
| StoreState.GetDataRespectsEquals | src/binaryUtil/BinaryParser.java:973-984 | equal variables read the same value, or throw alike, whenever both or neither can be hashed |
| StoreState.StoredName | src/binaryUtil/BinaryParser.java:964-967 | CotainsFile cuts the name at its last '.' only when that '.' is not the first char |
| StoreState.ContainsFile | src/binaryUtil/BinaryParser.java:961-970 | CotainsFile: the stored form of the name is a key of the file map (AddedFileIsContained, LeadingDotFileNotFound) |
| StoreUpdate.EnqueueAllSound | src/binaryUtil/BinaryParser.java:1086-1093 | queuing any writes keeps the store well-formed |
| StoreUpdate.GrownSound | src/binaryUtil/BinaryParser.java:643-703 | grow leaves a well-formed store |
| StoreUpdate.NewEntry | src/binaryUtil/BinaryParser.java:587-633 | queuing a new variable entry keeps the store well-formed |
| StoreUpdate.InsertVariable | src/binaryUtil/BinaryParser.java:579-638 | when hashCode throws: NumberFormatException and nothing changes; false iff the variable is already stored; on success it is stored and the layout stays sound; the files, the file count and the log count are unchanged |
| StoreUpdate.AddVariable | src/binaryUtil/BinaryParser.java:575-641 | the same after growing when the variable table is full, so the NumberFormatException of hashCode comes after the grow, as the lookup at 579 follows it; on success the variable is stored |
| StoreUpdate.AddKnownVariable | src/binaryUtil/BinaryParser.java:579-581 | a variable already stored returns false and changes nothing |
| StoreUpdate.AddNewVariable | src/binaryUtil/BinaryParser.java:581-635 | a new variable with numeric codes queues exactly its entry at place usedVars, gets the next column, and returns true |
| StoreUpdate.NewEntryValid | src/binaryUtil/BinaryParser.java:617-633 | a new entry keeps the columns distinct and inside a row |
| StoreUpdate.InsertKeepsValid | src/binaryUtil/BinaryParser.java:579-638 | adding a variable when there is room keeps the layout valid |
| StoreUpdate.AddVariableKeepsValid | src/binaryUtil/BinaryParser.java:575-641 | adding a variable keeps the layout valid, whenever grow can succeed |
| StoreUpdate.AddedVariableReadsBack | src/binaryUtil/BinaryParser.java:595-631 | after adding a variable, reopening gathers it with the column addVariable gave it |
| StoreUpdate.WrittenEntryGathers | src/binaryUtil/BinaryParser.java:276-310 | an entry written at place n is gathered by reading n+1 entries |
| StoreUpdate.NewEntryReadsBack | src/binaryUtil/BinaryParser.java:595-631 | the queued entry is gathered with its column |
| StoreUpdate.NewEntryContents | src/binaryUtil/BinaryParser.java:587-623 | the new entry's effect on the contents is exactly one write at the entry's place |
| StoreUpdate.ColumnMarks | src/binaryUtil/BinaryParser.java:504-512 | at most one MAX_VALUE write per variable; the only exceptions are NumberFormatException and NullPointerException |
| StoreUpdate.ColumnMarksStopAtFirstMissing | src/binaryUtil/BinaryParser.java:504-512 | a MAX_VALUE write for each variable of the longest prefix that hashes and is stored; the loop completes iff that is all of them, and otherwise throws at the next one: NumberFormatException when its hashCode throws, NullPointerException when it is not stored |
| StoreUpdate.ColumnMarksStopAtError | src/binaryUtil/BinaryParser.java:504-512 | once the loop throws, later variables change nothing |
| StoreUpdate.ColumnMarksExtend | src/binaryUtil/BinaryParser.java:504-512 | a variable that hashes and is stored adds exactly its own MAX_VALUE write |
| StoreUpdate.ColumnMarksThrowAt | src/binaryUtil/BinaryParser.java:504-512 | the loop throws at the first variable that cannot be marked: NumberFormatException when its hashCode throws, NullPointerException otherwise, with only the earlier writes queued |
| StoreUpdate.ResolveError | src/binaryUtil/BinaryParser.java:479-547 | resolveError only adds writes to the queue, and counts one inconsistency when the first token is an int; the maps, the counts, the sizes and the disk are unchanged |
| StoreUpdate.ResolveCode | src/binaryUtil/BinaryParser.java:486-546 | each case only adds writes to the queue; NumberFormatException or NullPointerException only in cases 1 and 3; in case 3 NumberFormatException exactly when the rebuilt variable cannot be hashed, and then nothing is queued |
| StoreUpdate.ResolveUnknownCode | src/binaryUtil/BinaryParser.java:542-545 | a code other than 1, 2 or 3 is counted, then throws IllegalArgumentException |
| StoreUpdate.ResolveMissingVariable | src/binaryUtil/BinaryParser.java:519-541 | the "3" code for a stored variable is counted and queues MAX_VALUE at its column in row usedFiles, or, when the variable cannot be hashed, is counted and throws NumberFormatException with nothing queued |
| StoreUpdate.ResolveNamedVariable | src/binaryUtil/BinaryParser.java:519-541 | any "3" code whose tokens name a stored variable is counted and queues that one write, or throws NumberFormatException when the rebuilt variable cannot be hashed |
| StoreUpdate.NamedVariable | src/binaryUtil/BinaryParser.java:519-534 | the variable case 3 rebuilds from the tokens, null where the Scanner ran out (CodeNamesVariable) |
| StoreUpdate.CodeNamesVariable | src/binaryUtil/FileChecker.java:80-81 | the tokens of a "3" code name the variable it was made from |
| StoreUpdate.ResolveCaseThree | src/binaryUtil/BinaryParser.java:519-541 | case 3 counts, then marks the named variable's column |
| StoreUpdate.MissingBlockNeverResolved | src/binaryUtil/BinaryParser.java:485 | a "1"+name code, with no space, never resolves: nextInt throws |
| StoreUpdate.ResolveSpacedMissingBlock | src/binaryUtil/BinaryParser.java:488-513 | a "1 "+name code is counted; a block the template lacks ends the case; otherwise each of its variables' columns gets MAX_VALUE in row usedFiles, up to the first variable that cannot be hashed or is not stored |
| StoreUpdate.Sentinels | src/binaryUtil/BinaryParser.java:391-397 | one MAX_VALUE write per earlier row, for rows usedFiles down to 1 |
| StoreUpdate.SentinelsSkipRowZero | src/binaryUtil/BinaryParser.java:394-397 | the sentinel loop marks rows 1 to usedFiles, and never row 0 |
| StoreUpdate.CorrectedSentinels | src/binaryUtil/BinaryParser.java:391-397 | the sentinel loop as intended: rows usedFiles-1 down to 0 |
| StoreUpdate.CorrectedSentinelsMarkStoredRows | src/binaryUtil/BinaryParser.java:391-397 | the corrected loop marks exactly the rows of the files already stored, row 0 included |
| StoreUpdate.StoreVariable | src/binaryUtil/BinaryParser.java:383-400 | a variable whose hashCode throws gives NumberFormatException with nothing changed; a stored one changes nothing; on success the variable is stored; files and log count are unchanged |
| StoreUpdate.FillVariable | src/binaryUtil/BinaryParser.java:380-412 | one variable of the fill: the row keeps its length and the store is StoreVariable's |
| StoreUpdate.PlaceValue | src/binaryUtil/BinaryParser.java:402-412 | a null value throws NullPointerException; an unparsable value is skipped; a parsable one lands at the variable's column, or throws IndexOutOfBoundsException when the column lies outside the row |
| StoreUpdate.FillAll | src/binaryUtil/BinaryParser.java:378-414 | the whole fill keeps the row's length, the files and the log count |
| StoreUpdate.FillAllStep | src/binaryUtil/BinaryParser.java:378-414 | the fill of vs + [v] is the fill of vs followed by v |
| StoreUpdate.FillAllStopsAtError | src/binaryUtil/BinaryParser.java:378-414 | after an exception, later variables change nothing |
| StoreUpdate.FillAllHashes | src/binaryUtil/BinaryParser.java:378-414 | a fill that runs through has hashed every variable it met |
| StoreUpdate.FileVariablesAppend | src/binaryUtil/BinaryParser.java:378-380 | the variables of a concatenated block order are the concatenation of the variables |
| StoreUpdate.FileVariables | src/binaryUtil/BinaryParser.java:378-380 | the variables addFile visits: block by block in the set's order, each block's list in order (FileVariablesAppend) |
| StoreUpdate.ResolveAll | src/binaryUtil/BinaryParser.java:427-456 | the loop only adds writes to the queue, and on success counts the even-position findings whose first token is an int |
| StoreUpdate.ResolveAllStep | src/binaryUtil/BinaryParser.java:427-456 | even entries are resolved and odd entries skipped |
| StoreUpdate.ResolveAllStopsAtError | src/binaryUtil/BinaryParser.java:427-456 | once resolveError throws, later entries change nothing |
| StoreUpdate.MissingBlockStopsResolution | src/binaryUtil/BinaryParser.java:417-456 | a file missing a template block always makes addFile throw at resolution |
| StoreUpdate.DifferencesStartWithMissing | src/binaryUtil/FileChecker.java:45-55 | when a block is missing, the first finding is its missing-block code |
| StoreUpdate.ResolveFirstFails | src/binaryUtil/BinaryParser.java:427-456 | if the first code throws, the loop throws |
| StoreUpdate.StoreRow | src/binaryUtil/BinaryParser.java:458-469 | the file is recorded under its name cut at the last '.', with its date and row; usedFiles rises by one |
| StoreUpdate.RowSlot | src/binaryUtil/BinaryParser.java:459-460 | the byte where addFile writes its row: past both tables, at usedFiles strides (StoreRowWrites, UpdateWritesPastOwnRow) |
| StoreUpdate.UpdateBinary | src/binaryUtil/BinaryParser.java:552-568 | updateBinary: the header with the current counters queued at 0 (HeaderRoundTrip reads it back) |
| StoreUpdate.AddRow | src/binaryUtil/BinaryParser.java:377-471 | addFile after the entry: on success it returns true, and the file is recorded and counted |
| StoreUpdate.AddFileWithRoom | src/binaryUtil/BinaryParser.java:358-471 | the same, including the file-table entry |
| StoreUpdate.AddFile | src/binaryUtil/BinaryParser.java:349-471 | the same after growing when the file table is full, including the NumberFormatException of a variable that cannot be hashed |
| StoreUpdate.AddedFileIsContained | src/binaryUtil/BinaryParser.java:961-970 | a file added whose last '.' is not its first char is found by CotainsFile, with its date and row |
| StoreUpdate.LeadingDotFileNotFound | src/binaryUtil/BinaryParser.java:961-970 | a file whose only '.' is its first char is stored under "" and adding it does not change CotainsFile |
| StoreUpdate.CorrectedLookupFindsAddedFile | src/binaryUtil/BinaryParser.java:464-465 | with the lookup cut at any last '.', every added file is found with its date and row |
| StoreUpdate.NullTemplateStoresNothing | src/binaryUtil/BinaryParser.java:417-426 | with a null template, addFile throws from the error handler, and neither records nor counts the file |
| StoreUpdate.NullTemplateWithRoom | src/binaryUtil/BinaryParser.java:417-426 | the same when the file table has room |
| StoreUpdate.AddFileRefusesName | src/binaryUtil/BinaryParser.java:362-368 | a name with no '.' in its first 26 chars throws IndexOutOfBoundsException and queues nothing |
| StoreUpdate.UnhashableRowRefused | src/binaryUtil/BinaryParser.java:358-414 | with room in the file table, a file holding a variable whose hashCode throws is refused |
| StoreUpdate.UnhashableFileRefused | src/binaryUtil/BinaryParser.java:349-414 | addFile refuses a file holding a variable whose hashCode throws |
| StoreUpdate.NegativeDaughterRefused | src/binaryUtil/BinaryParser.java:349-414 | addFile refuses a file with a DECAY line whose daughter code is negative |
| StoreUpdate.FillStoredVariable | src/binaryUtil/BinaryParser.java:399-412 | a stored variable leaves the store alone and puts its parsed double at its column and nowhere else |
| StoreUpdate.FillNewVariable | src/binaryUtil/BinaryParser.java:384-398 | a new variable queues its entry, then MAX_VALUE in every earlier row but row 0 |
| StoreUpdate.FillAddedVariable | src/binaryUtil/BinaryParser.java:384-398 | the sentinel writes follow whatever addVariable did, including a grow |
| StoreGrow.LoadedIsQuotient | src/binaryUtil/BinaryParser.java:656-662 | the float load test is the integer quotient reaching 1 |
| StoreGrow.LoadedIffFull | src/binaryUtil/BinaryParser.java:656-662 | within bounds, a table counts as loaded iff it is full |
| StoreGrow.GrownVars | src/binaryUtil/BinaryParser.java:917-951 | the new variable places are about 5/4 of the old, rounded down |
| StoreGrow.GrownVarsExample | src/binaryUtil/BinaryParser.java:917-951 | 150 places grow to 187, then to 233 |
| StoreGrow.EntryKeys | src/binaryUtil/BinaryParser.java:833-889 | one key per copied entry |
| StoreGrow.CopyVariables | src/binaryUtil/BinaryParser.java:833-889 | one write per variable, at the same place, with the new first column |
| StoreGrow.ColumnsOfValid | src/binaryUtil/BinaryParser.java:833-889 | copyVariables gives distinct columns 8 bytes apart |
| StoreGrow.ColumnsOfKeys | src/binaryUtil/BinaryParser.java:833-889 | a key's new column is that of its last entry |
| StoreGrow.CopyFiles | src/binaryUtil/BinaryParser.java:800-826 | each old file entry is copied to its place in the new table, up to the first unreadable one |
| StoreGrow.Grown | src/binaryUtil/BinaryParser.java:643-703 | grow throws ArithmeticException iff a table has no places; otherwise it empties the queue and keeps the counts, the files and the log count |
| StoreGrow.NewSizesOfValid | src/binaryUtil/BinaryParser.java:654-662 | a full table grows (variables by 5/4, files doubled) and any other table keeps its size |
| StoreGrow.NewSizes | src/binaryUtil/BinaryParser.java:654-662 | writeNewHeader's sizes: a loaded variable table grows by 5/4, a loaded file table doubles (NewSizesOfValid) |
| StoreGrow.GrowSizes | src/binaryUtil/BinaryParser.java:654-678 | the grown store has those sizes and stride 8 times the new variable places |
| StoreGrow.GrowWithoutFilesSucceeds | src/binaryUtil/BinaryParser.java:751-773 | with no files, copying the rows cannot fail |
| StoreGrow.GrowKeepsValid | src/binaryUtil/BinaryParser.java:643-703 | grow keeps the layout valid and leaves room in a table that was full |
| StoreGrow.GrowCopiesFileEntries | src/binaryUtil/BinaryParser.java:800-826 | every readable file entry is copied to the new table |
| StoreGrow.CopyRowsColumn | src/binaryUtil/BinaryParser.java:751-773 | each copied row holds, at a variable's new column, the double read at its old column |
| StoreGrow.GrowKeepsKeys | src/binaryUtil/BinaryParser.java:782-791 | every stored variable has a column after grow |
| StoreGrow.AsWrittenCopyRows | src/binaryUtil/BinaryParser.java:751-773 | one row write per file, reading at the new stride |
| StoreGrow.GrowChangesStride | src/binaryUtil/BinaryParser.java:677-678 | when the variable table grows, the new stride differs from the old for every row but 0 |
| StoreGrow.GrowReadsRowsAtNewStride | src/binaryUtil/BinaryParser.java:751-773 | row i of the copy holds what lies at the old column plus i times the NEW stride |
| StoreGrow.GrowWritesRows | src/binaryUtil/BinaryParser.java:688-691 | grow's row writes are exactly the as-written copy |
| StoreGrow.CorrectedCopyRows | src/binaryUtil/BinaryParser.java:751-773 | one row write per file, reading at the old stride |
| StoreGrow.CopyRows | src/binaryUtil/BinaryParser.java:751-773 | one row write per file at the new stride, each column read at the old start plus the given read stride |
| StoreGrow.CorrectedCopyKeepsValues | src/binaryUtil/BinaryParser.java:751-773 | the corrected copy's row i holds, at each variable's new column, what getData returned for file i before the grow |
| StoreGrow.DrainedData | src/binaryUtil/BinaryParser.java:973-984 | getData after the queue drains reads the contents at the column plus n strides |
| StoreOpen.GatherVariablesLoop | src/binaryUtil/BinaryParser.java:276-310 | the loop returns GatherVariables |
| StoreOpen.GatherLoop | src/binaryUtil/BinaryParser.java:279-309 | the loop with any entry reader returns GatherWith |
| StoreOpen.GatherStops | src/binaryUtil/BinaryParser.java:279-309 | the first unreadable entry ends the loop with EOFException |
| StoreOpen.VerifyFilesLoop | src/binaryUtil/BinaryParser.java:107-133 | the table loop returns FileTable |
| StoreOpen.SeekFileEntry | src/binaryUtil/BinaryParser.java:113-124 | one entry is read at its place |
| StoreOpen.TableNext | src/binaryUtil/BinaryParser.java:124-125 | one readable entry extends FileTable by one |
| StoreOpen.FileTableStops | src/binaryUtil/BinaryParser.java:128-133 | the first unreadable entry ends the table |
| StoreCopy.CopyEntry | src/binaryUtil/BinaryParser.java:838-879 | one copied entry and its key |
| StoreCopy.CopyVariablesLoop | src/binaryUtil/BinaryParser.java:833-889 | the loop returns CopyVariables and the new column map |
| StoreCopy.CopyNext | src/binaryUtil/BinaryParser.java:838-879 | one step of copyVariables |
| StoreCopy.PutColumn | src/binaryUtil/BinaryParser.java:876-878 | tempMap.put extends ColumnsOf by one key |
| StoreCopy.ReadOldFileEntry | src/binaryUtil/BinaryParser.java:805-818 | one old entry is read |
| StoreCopy.CopyFilesLoop | src/binaryUtil/BinaryParser.java:800-826 | the loop returns CopyFiles |
| StoreCopy.CopyFilesStops | src/binaryUtil/BinaryParser.java:819-825 | the first unreadable entry ends the copy |
| StoreCopy.CopyRow | src/binaryUtil/BinaryParser.java:754-771 | one row: fails iff a stored variable has no new column (tempMap.get gives null), otherwise Row |
| StoreCopy.EmptyRow | src/binaryUtil/BinaryParser.java:756 | a zeroed row buffer |
| StoreCopy.FillColumn | src/binaryUtil/BinaryParser.java:758-767 | one variable's double is placed at its new column |
| StoreCopy.ColumnOf | src/binaryUtil/BinaryParser.java:760 | a key's column and its index |
| StoreCopy.CopyDataLoop | src/binaryUtil/BinaryParser.java:751-773 | the loop fails iff some row fails, and otherwise returns CopyRows |
| StoreCopy.AppendRow | src/binaryUtil/BinaryParser.java:769-770 | one more row write |
| StoreCopy.Drain | src/binaryUtil/BinaryParser.java:1040-1060 | the worker's loop applies the queue in order |
| StoreCopy.GrowCopy | src/binaryUtil/BinaryParser.java:664-694 | the new file is the zeroed tables with grow's writes applied, and the new map is the copied columns; it fails iff the row copy fails |
| StoreCopy.GrowDrained | src/binaryUtil/BinaryParser.java:643-703 | grow's body returns Grown |
| StoreCopy.ChooseSizes | src/binaryUtil/BinaryParser.java:654-662 | the sizes grow chooses |
| StoreCopy.GrownFromCopy | src/binaryUtil/BinaryParser.java:694 | switching to the temporary file gives Grown |
| StoreAdd.StoreVariableWithRoom | src/binaryUtil/BinaryParser.java:383-400 | with room for the variable, the layout stays valid and earlier columns are kept |
| StoreAdd.StoreNewVariable | src/binaryUtil/BinaryParser.java:384-398 | the same for a variable not yet stored |
| StoreAdd.PlaceValueInColumn | src/binaryUtil/BinaryParser.java:402-412 | a placed value changes only its own column, and holds the parsed bits |
| StoreAdd.FillVariableWithRoom | src/binaryUtil/BinaryParser.java:380-412 | one step of the fill keeps other columns and holds the new value |
| StoreAdd.FillAllWithRoom | src/binaryUtil/BinaryParser.java:378-414 | after the fill, each variable's column holds its last parsed value |
| StoreAdd.StoreRowWrites | src/binaryUtil/BinaryParser.java:458-469 | storing the row queues exactly the row at slot usedFiles, then the header |
| StoreAdd.RowStored | src/binaryUtil/BinaryParser.java:458-469 | the stored row holds every filled value |
| StoreAdd.AddRowOk | src/binaryUtil/BinaryParser.java:377-471 | on success, addFile filled, resolved with no exception, and stored the row |
| StoreAdd.AddRowErr | src/binaryUtil/BinaryParser.java:377-456 | on failure, the state is the fill's or the resolution's, with their writes |
| StoreAdd.AddRowWithRoom | src/binaryUtil/BinaryParser.java:377-471 | with room, the row is queued holding every value |
| StoreAdd.AddFileEntry | src/binaryUtil/BinaryParser.java:358-374 | the file entry is queued at place usedFiles, with the name up to its first '.' |
| StoreAdd.AddFileOkNamed | src/binaryUtil/BinaryParser.java:362-368 | an accepted name has a '.' within its first 26 chars |
| StoreAdd.AddFileWrites | src/binaryUtil/BinaryParser.java:349-471 | an added file's entry and row are both queued |
| StoreAdd.AddFileKeepsValid | src/binaryUtil/BinaryParser.java:349-471 | addFile keeps the layout valid |
| StoreAdd.RowReadsBack | src/binaryUtil/BinaryParser.java:973-984 | a value in the last queued row reads back through getData |
| StoreAdd.QueuedRowReadsBack | src/binaryUtil/BinaryParser.java:458-469 | each value of the stored row reads back for file usedFiles |
| StoreAdd.AddedFileReadsBack | src/binaryUtil/BinaryParser.java:349-471 | after addFile, getData(v, n) returns the value parsed from the file, where n is the file's row |
| StoreRefresh.ResolveEvery | src/binaryUtil/BinaryParser.java:252-255 | updateFile's loop resolves every message, coded or worded, and only queues writes |
| StoreRefresh.WordedNeverResolved | src/binaryUtil/BinaryParser.java:485 | a worded message makes resolveError throw InputMismatchException before counting |
| StoreRefresh.DifferencesNeverResolved | src/binaryUtil/BinaryParser.java:252-255 | any non-empty difference list makes updateFile's loop throw |
| StoreRefresh.Refresh | src/binaryUtil/BinaryParser.java:258-269 | the header, row and date writes leave the counts and files as they were |
| StoreRefresh.RefreshWrites | src/binaryUtil/BinaryParser.java:258-269 | exactly three writes are queued, in order: the header, the row, then the date in the file's entry |
| StoreRefresh.UpdateFile | src/binaryUtil/BinaryParser.java:178-270 | updateFile keeps the file count and file map, whatever it throws |
| StoreRefresh.UpdateRow | src/binaryUtil/BinaryParser.java:193-270 | the same after the parse |
| StoreRefresh.ResolveThenRefresh | src/binaryUtil/BinaryParser.java:243-269 | the same after the fill |
| StoreRefresh.ResolveThenRefreshOkIff | src/binaryUtil/BinaryParser.java:243-269 | the end of updateFile completes iff the file has no differences from the template |
| StoreRefresh.UpdateNeedsNoDifferences | src/binaryUtil/BinaryParser.java:243-255 | once the fill succeeds, updateFile completes iff the file has no differences from the template |
| StoreRefresh.UpdateFileOk | src/binaryUtil/BinaryParser.java:178-270 | a completed update filled with no exception, had no differences, and then refreshed |
| StoreRefresh.UpdateWritesPastOwnRow | src/binaryUtil/BinaryParser.java:261-264 | the row is written at slot usedFiles, which lies past the file's own slot |
| StoreRefresh.UpdatedValuesLandAtNextSlot | src/binaryUtil/BinaryParser.java:261-264 | after updateFile, getData for file usedFiles returns the file's values |
| StoreRefresh.RefreshedPastOwnRow | src/binaryUtil/BinaryParser.java:258-269 | refreshing at slot usedFiles writes the row there, and the file's own slot ends at or before it |
| StoreRefresh.RefreshReadsBack | src/binaryUtil/BinaryParser.java:258-269 | a value in the refreshed row reads back at that row |
| StoreRefresh.UpdatedDateReadsBack | src/binaryUtil/BinaryParser.java:266-269 | after updateFile, the file's entry starts with the new date |
| StoreRefresh.CorrectedUpdateFile | src/binaryUtil/BinaryParser.java:178-270 | the evidently intended update (only codes resolved, the row at the file's own slot) keeps the file count and file map |
| StoreRefresh.CorrectedUpdateAcceptsWhatAddRowAccepts | src/binaryUtil/BinaryParser.java:252-255 | the corrected update completes iff addFile's row step succeeds on the same file |
| StoreRefresh.CorrectedUpdateReadsBack | src/binaryUtil/BinaryParser.java:261-264 | after the corrected update, getData for the file's own row returns its values |
| StoreRefresh.CorrectedUpdateOk | src/binaryUtil/BinaryParser.java:178-270 | a completed corrected update filled, resolved and refreshed the file's own slot |
| BinaryStore.TemplateOf | src/binaryUtil/BinaryParser.java:233-242 | the template is parsed iff there is one; a null File is told apart from an unparsable one |
| BinaryStore.BinaryParser.FromState | src/binaryUtil/BinaryParser.java:61-101 | the object holds exactly the given store |
| BinaryStore.BinaryParser.Create | src/binaryUtil/BinaryParser.java:88-99 | a new store is Created |
| BinaryStore.BinaryParser.Open | src/binaryUtil/BinaryParser.java:73-87 | opening succeeds iff Opened does, holding its store; otherwise EOFException |
| BinaryStore.BinaryParser.AddRequest | src/binaryUtil/BinaryParser.java:1086-1093 | the queue gains exactly the write |
| BinaryStore.BinaryParser.Flush | src/binaryUtil/BinaryParser.java:645-652 | the queue is applied in order and emptied |
| BinaryStore.BinaryParser.Grow | src/binaryUtil/BinaryParser.java:643-703 | the new state and exception are Grown's |
| BinaryStore.BinaryParser.GetData | src/binaryUtil/BinaryParser.java:973-984 | returns StoreState.GetData, including NumberFormatException when hashCode throws |
| BinaryStore.BinaryParser.CotainsFile | src/binaryUtil/BinaryParser.java:961-970 | true iff the stored name is a key of the file map |
| BinaryStore.BinaryParser.AddVariable | src/binaryUtil/BinaryParser.java:575-641 | the new state and result are StoreUpdate.AddVariable's, including NumberFormatException when hashCode throws |
| BinaryStore.BinaryParser.InsertVariable | src/binaryUtil/BinaryParser.java:579-638 | the new state and result are StoreUpdate.InsertVariable's, including NumberFormatException when hashCode throws |
| BinaryStore.BinaryParser.QueueEntry | src/binaryUtil/BinaryParser.java:587-633 | the new state is NewEntry's |
| BinaryStore.BinaryParser.ResolveError | src/binaryUtil/BinaryParser.java:479-547 | the new state and exception are StoreUpdate.ResolveError's |
| BinaryStore.BinaryParser.ResolveCode | src/binaryUtil/BinaryParser.java:486-546 | the switch as StoreUpdate.ResolveCode, including NumberFormatException when the rebuilt variable cannot be hashed |
| BinaryStore.BinaryParser.MarkColumns | src/binaryUtil/BinaryParser.java:504-512 | the MAX_VALUE loop as ColumnMarks |
| BinaryStore.BinaryParser.AddFile | src/binaryUtil/BinaryParser.java:349-471 | the new state and result are StoreUpdate.AddFile's, for the sets' iteration orders, including NumberFormatException when a variable cannot be hashed |
| BinaryStore.BinaryParser.AddFileWithRoom | src/binaryUtil/BinaryParser.java:358-471 | as StoreUpdate.AddFileWithRoom |
| BinaryStore.BinaryParser.AddRow | src/binaryUtil/BinaryParser.java:377-471 | as StoreUpdate.AddRow |
| BinaryStore.BinaryParser.FillRow | src/binaryUtil/BinaryParser.java:378-414 | the fill loop as FillAll over the file's blocks in the set's order |
| BinaryStore.BinaryParser.FillNamedBlock | src/binaryUtil/BinaryParser.java:380-413 | one block of the fill |
| BinaryStore.BinaryParser.VariablesOf | src/binaryUtil/BinaryParser.java:380 | the named block's variables |
| BinaryStore.BinaryParser.FillBlock | src/binaryUtil/BinaryParser.java:380-413 | the inner loop extends FillAll by the block's variables |
| BinaryStore.BinaryParser.FillStep | src/binaryUtil/BinaryParser.java:381-412 | one variable extends FillAll |
| BinaryStore.BinaryParser.FillVariable | src/binaryUtil/BinaryParser.java:383-412 | as StoreUpdate.FillVariable |
| BinaryStore.BinaryParser.StoreVariable | src/binaryUtil/BinaryParser.java:383-400 | as StoreUpdate.StoreVariable, including NumberFormatException when hashCode throws |
| BinaryStore.BinaryParser.MarkEarlierRows | src/binaryUtil/BinaryParser.java:391-397 | queues exactly the Sentinels writes |
| BinaryStore.BinaryParser.ResolveFindings | src/binaryUtil/BinaryParser.java:427-456 | as StoreUpdate.ResolveAll |
| BinaryStore.BinaryParser.UpdateFile | src/binaryUtil/BinaryParser.java:178-270 | as StoreRefresh.UpdateFile |
| BinaryStore.BinaryParser.UpdateRow | src/binaryUtil/BinaryParser.java:193-270 | as StoreRefresh.UpdateRow |
| BinaryStore.BinaryParser.ResolveThenRefresh | src/binaryUtil/BinaryParser.java:243-269 | as StoreRefresh.ResolveThenRefresh |
| BinaryStore.BinaryParser.Refresh | src/binaryUtil/BinaryParser.java:258-269 | as StoreRefresh.Refresh |
| BinaryStore.BinaryParser.ResolveEvery | src/binaryUtil/BinaryParser.java:252-255 | as StoreRefresh.ResolveEvery |
| BinaryStore.BinaryParser.StoreRow | src/binaryUtil/BinaryParser.java:458-469 | as StoreUpdate.StoreRow |
| BinaryStore.BinaryParser.UpdateBinary | src/binaryUtil/BinaryParser.java:552-568 | queues exactly the encoded header at 0 |
| ProgramModel.Stem | src/binaryUtil/ProgramModel.java:229-232 | the name before its last '.', and none iff there is no '.' |
| ProgramModel.StemOf | src/binaryUtil/ProgramModel.java:229-232 | the stem of stem.ext is stem |
| ProgramModel.StemNumber | src/binaryUtil/ProgramModel.java:229-235 | the number parseInt reads from the name before its last '.', or none when either step throws |
| ProgramModel.Compare | src/binaryUtil/ProgramModel.java:223-243 | FileComparator.compare: the 32-bit difference of the numbers when both names have one, else String.compareTo (properties: CompareNumbered, CompareUnnumbered, CompareOverflows) |
| ProgramModel.CompareNumbered | src/binaryUtil/ProgramModel.java:234-242 | two numbered names, whose difference fits in an int, compare as their numbers |
| ProgramModel.CompareUnnumbered | src/binaryUtil/ProgramModel.java:237-240 | if either stem is not an int, the names compare as strings |
| ProgramModel.NumberedName | src/binaryUtil/ProgramModel.java:229-235 | n.slha has the number n |
| ProgramModel.TwoBeforeTen | src/binaryUtil/ProgramModel.java:223-243 | 2.slha sorts before 10.slha, though as strings it comes after |
| ProgramModel.CompareSubtracts | src/binaryUtil/ProgramModel.java:242 | numbered names compare as the 32-bit difference of their numbers |
| ProgramModel.CompareOverflows | src/binaryUtil/ProgramModel.java:242 | 0.slha and -2147483648.slha each compare below the other |
| ProgramModel.CorrectedCompare | src/binaryUtil/ProgramModel.java:223-243 | the comparator as intended: the numbers' order without the subtraction (CorrectedCompareIsAntisymmetric) |
| ProgramModel.CorrectedCompareIsAntisymmetric | src/binaryUtil/ProgramModel.java:223-243 | comparing by the numbers' order is antisymmetric, and orders numbered names by number |
| ProgramModel.RunTakes | src/binaryUtil/ProgramModel.java:110 | run adds a file iff the store lacks it and its name holds neither ".bin" nor ".log" (RunSkipsOwnFiles) |
| ProgramModel.Legal | src/binaryUtil/ProgramModel.java:178 | writeDataFile keeps a name iff it holds none of ".log", ".bin", ".dat" (LegalFilesMembers) |
| ProgramModel.RunSkipsOwnFiles | src/binaryUtil/ProgramModel.java:110 | the run loop never adds binary.bin, inconsistencies.log, or a file the store holds |
| ProgramModel.LegalFiles | src/binaryUtil/ProgramModel.java:174-182 | the filter never lengthens the list |
| ProgramModel.LegalFilesMembers | src/binaryUtil/ProgramModel.java:174-182 | a name is kept iff it contains none of ".log", ".bin", ".dat" |
| ProgramModel.LegalFilesAppend | src/binaryUtil/ProgramModel.java:174-182 | the filter distributes over concatenation, so order is kept |
| ProgramModel.LegalFilesOfLegal | src/binaryUtil/ProgramModel.java:174-182 | a list of legal names is kept whole |
| ProgramModel.LegalFilesIdempotent | src/binaryUtil/ProgramModel.java:174-182 | filtering twice is filtering once |
| ProgramModel.CollectLegalFiles | src/binaryUtil/ProgramModel.java:174-182 | the loop returns LegalFiles |
| DataFilter.Extension | src/gui/DataFilter.java:26-30 | the text after the last '.', present iff that '.' is neither first nor last |
| DataFilter.Description | src/gui/DataFilter.java:40-43 | ".dat Files" |
| DataFilter.Accept | src/gui/DataFilter.java:22-37 | accept: directories, and files whose extension is "dat" ignoring case (characterised by AcceptIff) |
| DataFilter.AcceptIff | src/gui/DataFilter.java:22-37 | a file is accepted iff it ends in '.' and "dat" in any case, with at least one char before the '.' |
| DataFilter.AcceptedHasDatEnding | src/gui/DataFilter.java:22-37 | the "only if" half |
| DataFilter.DatEndingAccepted | src/gui/DataFilter.java:22-37 | the "if" half |
| DataFilter.AcceptEdges | src/gui/DataFilter.java:22-37 | directories are accepted; ".dat" alone and names ending in '.' are not |
| TransferHandler.FirstIndex | src/gui/SlhaTransferHandler.java:108 | indexOf: the first position holding the name |
| TransferHandler.RemovedAt | src/gui/SlhaTransferHandler.java:108 | remove(i) drops one entry |
| TransferHandler.InsertedAt | src/gui/SlhaTransferHandler.java:105 | add(i, x) puts x at i and adds one entry |
| TransferHandler.Placed | src/gui/SlhaTransferHandler.java:99-134 | placeString: a listed copy removed, then the name inserted at the front, the end or the index, or IndexOutOfBounds (properties: PlacedAtFront, PlacedAtEnd, PlacedBetween, PlacedContents, PlacedKeepsOrder) |
| TransferHandler.PlacedAtFront | src/gui/SlhaTransferHandler.java:101-111 | dropping at 0 puts the name first |
| TransferHandler.PlacedAtEnd | src/gui/SlhaTransferHandler.java:112-122 | dropping at or past the shown size puts the name last |
| TransferHandler.PlacedBetween | src/gui/SlhaTransferHandler.java:123-133 | dropping between entries puts the name at that index |
| TransferHandler.PlacedContents | src/gui/SlhaTransferHandler.java:99-134 | a successful drop moves a present name or adds a new one, and leaves one copy of a name that had at most one |
| TransferHandler.PlacedKeepsOrder | src/gui/SlhaTransferHandler.java:99-134 | the other names keep their order |
| TransferHandler.RemovedFirst | src/gui/SlhaTransferHandler.java:108 | removing the first copy removes exactly one |
| TransferHandler.RemovedFirstKeepsOrder | src/gui/SlhaTransferHandler.java:108 | removing it keeps the others' order |
| TransferHandler.Inserted | src/gui/SlhaTransferHandler.java:105 | inserting adds exactly one copy |
| TransferHandler.InsertedKeepsOrder | src/gui/SlhaTransferHandler.java:105 | inserting keeps the others' order |
| TransferHandler.NegativeIndexDropsName | src/gui/SlhaTransferHandler.java:126-131 | a negative index that is not past the end removes the name, then throws on add, losing it |
| TransferHandler.TransferList.constructor | src/gui/SlhaTransferHandler.java:99-134 | a new list is empty |
| TransferHandler.TransferList.Add | src/gui/SlhaTransferHandler.java:105 | add(i, x) inserts at a valid index, and otherwise throws and changes nothing |
| TransferHandler.TransferList.Remove | src/gui/SlhaTransferHandler.java:108 | remove(i) as RemovedAt |
| TransferHandler.TransferList.PlaceString | src/gui/SlhaTransferHandler.java:99-134 | the new list and exception are Placed's |
| TransferHandler.TransferList.ClearList | src/gui/SlhaTransferHandler.java:220-224 | the list ends empty |

## Left out

- StoreUpdate.AddVariable, StoreUpdate.InsertVariable, StoreState.GetData, StoreUpdate.ResolveCode: the variable map is keyed by the case-folded key (`Key`), the relation `equals` uses. Java's HashMap hashes with `hashCode` (Variable.java:140-148), which is case-sensitive in the block name and parses the concatenated PDG codes as a double.
  - Whether `hashCode` throws is modelled: `Hashable` holds when the joined codes are a literal `Double.parseDouble` accepts. Every lookup at BinaryParser.java:383, 399, 506, 534, 579 and 975 throws NumberFormatException when it does not hold, before the map is consulted.
  - The hash value itself (the double product and `Math.sqrt`) and which bucket a variable lands in are not modelled. Two variables that differ only in the case of the block name are one key here. In Java they usually land in different buckets. This mismatch is a finding below.
  - StoreState.GetDataRespectsEquals: equal variables read the same only when both or neither can be hashed. EqualsIgnoresHashable shows two equal variables of which only one can be.
- StoreOpen.GatherVariablesLoop, StoreGrow.Grown: the variables `gather` (BinaryParser.java:307) and `copyVariables` rebuild from stored entries are put in the map without modelling their `hashCode`. An entry `addVariable` wrote always hashes again, because its second and third codes carry no sign (IntCodesHashable). A store written by another program with a negative code there would make `gather` throw NumberFormatException; that is not modelled.
- StoreGrow.GrownVars, StoreState.Created, StoreUpdate.AddNewVariable, StoreState.GetData: Java computes sizes and offsets in 32-bit `int` or 64-bit `long` arithmetic (`availableFiles*2`, the saturating `(int)(availableVars*1.25)`, `8*availableVars`, `offset*i`); here they are unbounded integers, so their overflow is not modelled. The comparator's subtraction (`Wrap32`) and the byte encodings (`EncodeInt`, `EncodeLong`) are the exceptions, and wrap explicitly.
- Layout.CodeUnit, Layout.UnitChar: a Dafny char is a Unicode scalar value, while a Java char is one UTF-16 code unit. A char outside the Basic Multilingual Plane is one char here but two in Java, and `putChar` writes both halves. The model writes a single U+FFFD instead: the char is lost, and a name holding such chars fits a different number of them into the 20- and 25-unit fields than Java would. A lone surrogate unit read back becomes U+FFFD, where Java keeps it as a char.
- JavaStrings.Fold, JavaStrings.ParseInt, JavaStrings.Trim: `equalsIgnoreCase` folds only ASCII letters, and `parseInt` takes only ASCII digits. Java folds and parses all of Unicode. The `Scanner.nextInt` of resolveError (BinaryParser.java:485) also accepts the locale's group separators, as in "1,000"; `ParseInt` rejects them.
- StoreGrow.Grown: the zeroed tables are written to the temporary file directly (BinaryParser.java:681-685), while the header goes through the temporary worker (675). The model applies the header write over the zeroed tables, which is the order the worker's delay makes usual.
- StoreUpdate.PlaceValue, StoreUpdate.FillAll, StoreRefresh.UpdateFile: `Double.parseDouble` is the parameter `parseDouble`, which maps a string to the double's 64-bit pattern, or to none when the value does not parse. No floating-point arithmetic is modelled.
- StoreUpdate.AddFile, StoreRefresh.UpdateFile, FileChecker.ReportDifferences: the HashSet and keySet iteration orders (`getBlocks`, `variableInfo.keySet()`) are ghost parameters (`blockOrder`, `diffOrder`, `order`), constrained to be orders of the sets.
- StoreAdd.AddFileWrites, StoreAdd.AddFileKeepsValid, StoreAdd.AddedFileReadsBack: these require room in both tables, so that `addFile` does not grow. A grow inside the variable loop (through `addVariable`, line 576) copies only the first `usedFiles` file entries (copyFiles, 805), so the entry just queued for the new file is not carried over. This is not proved.
- StoreRefresh.UpdatedValuesLandAtNextSlot, StoreRefresh.CorrectedUpdateReadsBack: these carry the same no-grow precondition.
- The worker thread: it is the queue in `Store.queue`. `Flush` and the start of `grow` drain it in order. Concurrency, `Thread.sleep`, `synchronized` and the progress listeners (`notifyListeners`, `IBinaryListener`) are not modelled.
- File I/O: `RandomAccessFile` is a byte sequence. Creating, deleting and renaming the temporary file (`ChangePrimaryFile`, 714-745) becomes swapping in the new bytes. IOException paths that only print are not modelled. A read past the end is EOFException, or MAX_VALUE in `getData`.
- The inconsistency log: the writer and `inconsistencies.log` are left out. The log count `loggedInconsistencies` is modelled.
- verifyFiles' directory walk (BinaryParser.java:137-168): this lists the directory, compares file dates, and calls `addFile` or `updateFile`. It depends on the file system. `updateFile` and `addFile` are modelled on their own.
- File names and lines: `SlhaFile` takes its lines and modification date as parameters instead of opening a `Scanner` over a `File`. A failed parse is the exception value.
- `Variable.hashCode` itself: whether it throws is `Hashable`; its value is modelled only by its inputs (`HashInput`) and the square-root bounds, because the double arithmetic and `Math.sqrt` are not modelled.
- ProgramModel.ParseDirectory, run, writeDataFile: only their comparator and name filters are modelled. Swing, `JOptionPane`, the controller, and the output formatting are left out.
- SlhaTransferHandler: only `placeString` and `clearList` and the list model they use. The drag-and-drop transfer and the tree are left out.

## Findings

| source | as written | input that shows it | evidently intended | confidence | as-written member | corrected member |
|---|---|---|---|---|---|---|
| src/binaryUtil/BinaryParser.java:751-773 | `CopyData` reads row i at `location + offset*i` after line 678 has already set `offset` to the new stride | a store whose 150 variable places are all used, with 2 files: grow reads row 1 at 8*187 bytes past the column instead of 8*150 | read the old rows at the old stride `oldOffset` | high; not executed | StoreGrow.GrowReadsRowsAtNewStride | StoreGrow.CorrectedCopyKeepsValues |
| src/binaryUtil/ProgramModel.java:242 | `compare` returns `lVal - rVal` in 32-bit int | "0.slha" and "-2147483648.slha": each compares below the other | compare the two numbers by order (`Integer.compare`) | high; not executed | ProgramModel.CompareOverflows | ProgramModel.CorrectedCompareIsAntisymmetric |
| src/binaryUtil/Variable.java:119-149 | `equals` ignores case, while `hashCode` sums the block's case-sensitive chars and parses the codes as a double | 1 0 0 MASS and 1 0 0 mass are equal but hash to 175 and 208; NaN and nan codes are equal but only the first can be hashed | hash only what equals compares, case-folded, without parsing (`CorrectedHashCode`) | high; not executed | Variables.HashCodeDisagreesWithEquals | Variables.CorrectedHashRepairsExamples |
| src/binaryUtil/FileChecker.java:50 | the missing-block code is "1"+name with no space, so resolveError's `nextInt` (BinaryParser.java:485) fails on it | a file missing block MASS gets code "1MASS", and addFile throws InputMismatchException | "1 "+name, which case 1 (488-513) reads | high; not executed | StoreUpdate.MissingBlockNeverResolved | StoreUpdate.ResolveSpacedMissingBlock |
| src/binaryUtil/BinaryParser.java:252-255 | updateFile passes every message, worded ones too, to resolveError | any altered file with one difference: its worded message starts with a word, and `nextInt` throws | resolve only the even-index codes, as addFile does (433-434) | high; not executed | StoreRefresh.DifferencesNeverResolved | StoreRefresh.CorrectedUpdateAcceptsWhatAddRowAccepts |
| src/binaryUtil/BinaryParser.java:261-264 | updateFile writes the new row at slot `usedFiles`, not the file's own `fInfo.fileLocation` | updating file 0 of a store holding 2 files writes row 2, so getData(v, 0) still returns the old value | write at `fInfo.fileLocation * offset` | high; not executed | StoreRefresh.UpdatedValuesLandAtNextSlot | StoreRefresh.CorrectedUpdateReadsBack |
| src/binaryUtil/BinaryParser.java:961-970 | CotainsFile cuts the name only when its last '.' is past the first char, while addFile (464) cuts at any last '.' | ".slha" is stored under "" but looked up as ".slha", so it is never found and is added again on each run | cut at the last '.' wherever it is | medium; not executed | StoreUpdate.LeadingDotFileNotFound | StoreUpdate.CorrectedLookupFindsAddedFile |
| src/binaryUtil/BinaryParser.java:394-397 | the sentinel loop for a new variable writes rows `usedFiles` down to 1 | a store holding 1 file adds a second file with a new variable: only row 1, the new file's own row, is marked, so file 0 reads 0.0 for it instead of MAX_VALUE | rows `usedFiles-1` down to 0, the files stored before | high; not executed | StoreUpdate.SentinelsSkipRowZero | StoreUpdate.CorrectedSentinelsMarkStoredRows |
| src/binaryUtil/BinaryParser.java:113-124 | verifyFiles stops reading the name at its NUL and reads the row number from the next four bytes | the entry addFile writes for "1.slha" (name "1") with row 7: the int is read from the NUL padding, so the row reads as 0, and updateFile writes that file's date into entry 0 | read the int at the end of the 25-char field | high; not executed | Layout.ShortNameReadsSlotZero | Layout.CorrectedFileEntryRoundTrip |

The store functions follow the code as written: `Grown` copies rows at the
new stride, `Differences` emits "1"+name, and `UpdateFile` resolves every
message and writes at slot `usedFiles`. The corrected definitions
(`CorrectedCopyRows`, `SpacedMissingBlockCode`, `CorrectedUpdateFile`,
`CorrectedCompare`, `CorrectedStoredName`, `CorrectedHashCode`,
`CorrectedSentinels`, `CorrectedReadFileEntry`) stand beside them, each with its
intended property proved.
