/**
 * The SLHA file reader (src/binaryUtil/SlhaFile.java). A file is read line by
 * line; each top-level line is a comment, a "BLOCK name" header or a "DECAY"
 * header, and the lines after a header up to the next line starting with 'B'
 * or 'D' are that block's data lines.
 *
 * The reading is specified by the recursive functions TopLevel, InBlockBody
 * and DecayBody over the file's lines, and carried out by the loops of the
 * class SlhaFile, which are proved to compute exactly what they specify.
 */
module Slha {
  import opened Wrappers
  import opened JavaStrings
  import opened Variables
  import opened Blocks
  import opened Thrown

  /** How a parse ends: a value, an exception, or the source's endless loop. */
  datatype Outcome<+T> = Done(value: T) | Fails(error: Exception) | Hangs

  /** The Scanner's position: how many lines nextLine has handed out, and the current one. */
  datatype Cursor = Cursor(next: nat, line: string)

  /** What a successful parse produces: the blocks and the count of BLOCK data lines. */
  datatype Parsed = Parsed(blocks: seq<Block>, numberOfVariables: int)

  /** The file name kept by the constructor: the part of the path after the last '\'. */
  function FileNameOf(path: string): string {
    path[LastIndexOf(path, '\\') + 1..]
  }

  /** The kept name is a suffix of the path without any '\', preceded by a '\' unless it is the whole path. */
  lemma FileNameIsLastComponent(path: string)
    ensures var r := FileNameOf(path);
            '\\' !in r && |r| <= |path| && path[|path| - |r|..] == r
            && (|r| < |path| ==> path[|path| - |r| - 1] == '\\')
  {
    var k := LastIndexOf(path, '\\');
    var r := path[k + 1..];
    assert FileNameOf(path) == r;
    forall i | 0 <= i < |r|
      ensures r[i] != '\\'
    {
      assert r[i] == path[k + 1 + i];
    }
    assert path[|path| - |r|..] == r;
  }

  function Advance(lines: seq<string>, c: Cursor): (r: Cursor)
    requires c.next < |lines|
    ensures r.next == c.next + 1
  {
    Cursor(c.next + 1, lines[c.next])
  }

  predicate IsCommentToken(t: string) {
    |t| > 0 && t[0] == '#'
  }

  /** Position of the first '#'-token, or the number of tokens when there is none. */
  function FirstComment(toks: seq<string>): (m: nat)
    ensures m <= |toks|
    ensures forall i :: 0 <= i < m ==> !IsCommentToken(toks[i])
    ensures m < |toks| ==> IsCommentToken(toks[m])
  {
    if |toks| == 0 || IsCommentToken(toks[0]) then 0 else 1 + FirstComment(toks[1..])
  }

  /** The tokens before the first '#'-token, and the tokens after it. */
  function SplitAtComment(toks: seq<string>): (r: (seq<string>, seq<string>))
    ensures forall i :: 0 <= i < |r.0| ==> !IsCommentToken(r.0[i])
    ensures (forall i :: 0 <= i < |toks| ==> IsToken(toks[i]))
            ==> (forall i :: 0 <= i < |r.0| ==> IsToken(r.0[i])) && (forall i :: 0 <= i < |r.1| ==> IsToken(r.1[i]))
  {
    var m := FirstComment(toks);
    (toks[..m], if m < |toks| then toks[m + 1..] else [])
  }

  /** The description gathered from tokens: each word up to the next '#'-token, with a space before it. */
  function DescriptionOf(toks: seq<string>): string {
    if |toks| == 0 || IsCommentToken(toks[0]) then "" else " " + toks[0] + DescriptionOf(toks[1..])
  }

  /** The value text of a data line with several tokens: each token followed by a space. */
  function JoinTrailing(toks: seq<string>): string {
    if |toks| == 0 then "" else toks[0] + " " + JoinTrailing(toks[1..])
  }

  /** The Variable a BLOCK data line adds, chosen by the number of its data tokens. */
  function DataLineVariable(data: seq<string>, description: string, blockName: string): (r: Variable)
    requires |data| >= 1 && forall i :: 0 <= i < |data| ==> IsToken(data[i])
    ensures r.pdg3 == "0" && r.description == Trim(description) && r.block == Trim(blockName)
    ensures |data| == 1 ==> r.pdg == "0" && r.pdg2 == "0" && r.value == Some(data[0])
    ensures |data| == 3 ==> r.pdg == Trim(data[0]) && r.pdg2 == Trim(data[1]) && r.value == Some(data[2] + " ")
    ensures |data| == 2 || |data| > 3 ==> r.pdg == Trim(data[0]) && r.pdg2 == "0" && r.value == Some(JoinTrailing(data[1..]))
  {
    TrimIdempotent(description);
    TrimIdempotent(blockName);
    assert IsToken(data[0]);
    if |data| == 1 then PlainEntry("", "", "", data[0], description, blockName)
    else if |data| == 3 then
      assert IsToken(data[1]);
      assert JoinTrailing(data[2..]) == data[2] + " " by { assert data[2..][1..] == []; }
      PlainEntry(data[0], data[1], "", JoinTrailing(data[2..]), description, blockName)
    else PlainEntry(data[0], "", "", JoinTrailing(data[1..]), description, blockName)
  }

  /** The Variable a DECAY data line "value pdg pdg2 pdg3 skipped description…" adds. */
  function DecayLineVariable(toks: seq<string>): (r: Variable)
    requires |toks| >= 5 && forall i :: 0 <= i < |toks| ==> IsToken(toks[i])
    ensures r.value == Some(toks[0]) && r.block == "DECAY"
    ensures r.pdg == Trim(toks[1]) && r.pdg2 == Trim(toks[2]) && r.pdg3 == Trim(toks[3])
    ensures r.description == Trim(DescriptionOf(toks[5..]))
  {
    TrimOfTrimmed("DECAY");
    assert IsToken(toks[1]) && IsToken(toks[2]) && IsToken(toks[3]);
    assert |toks[1]| > 0 && |toks[2]| > 0 && |toks[3]| > 0;
    DecayEntry(toks[1], toks[2], toks[3], toks[0], DescriptionOf(toks[5..]), "DECAY")
  }

  /**
   * A DECAY data line whose daughter codes are ints, one of them negative,
   * yields a Variable whose hashCode throws: for "0.5 2 -11 12 x" (five
   * tokens, since the line's fifth `s.next()` needs one) the joined codes
   * "2-1112" are no double literal.
   */
  lemma NegativeDaughterNotHashable(toks: seq<string>)
    requires |toks| >= 5 && forall i :: 0 <= i < |toks| ==> IsToken(toks[i])
    requires ParseInt(toks[1]).Some? && ParseInt(toks[2]).Some? && ParseInt(toks[3]).Some?
    requires toks[2][0] == '-' || toks[3][0] == '-'
    ensures !Hashable(DecayLineVariable(toks))
  {
    ParsedShape(toks[1]);
    ParsedShape(toks[2]);
    ParsedShape(toks[3]);
    TrimOfTrimmed(toks[1]);
    TrimOfTrimmed(toks[2]);
    TrimOfTrimmed(toks[3]);
    IntCodesHashable(DecayLineVariable(toks));
  }

  /** The loop `while (line.length() == 0) line = nextLine();`; false when the lines ran out. */
  function SkipEmptyLines(lines: seq<string>, c: Cursor): (r: (Cursor, bool))
    requires c.next <= |lines|
    ensures c.next <= r.0.next <= |lines|
    ensures r.1 <==> |r.0.line| > 0
    ensures !r.1 ==> r.0.next == |lines|
    decreases |lines| - c.next
  {
    if |c.line| > 0 then (c, true)
    else if c.next < |lines| then SkipEmptyLines(lines, Advance(lines, c))
    else (c, false)
  }

  /**
   * One data line of a BLOCK body at cursor c: the variables with the line's
   * Variable added, the cursor after it, and whether reading goes on (false
   * when the lines ran out). None for a line without data tokens, on which the
   * source loops for ever.
   */
  function BlockDataLine(lines: seq<string>, c: Cursor, name: string, vars: seq<Variable>): (r: Option<(seq<Variable>, Cursor, bool)>)
    requires c.next <= |lines|
    ensures r.Some? ==> c.next <= r.value.1.next <= |lines| && (r.value.2 ==> c.next < r.value.1.next)
    ensures r.Some? ==> |r.value.0| == |vars| + 1 && vars <= r.value.0
    ensures r.Some? && !r.value.2 ==> r.value.1.next == |lines|
  {
    var split := SplitAtComment(Tokens(c.line));
    var data := split.0;
    if |data| == 0 then None
    else
      var more := vars + [DataLineVariable(data, DescriptionOf(split.1), name)];
      if c.next == |lines| then Some((more, c, false))
      else if |data| == 1 then Some((more, Advance(lines, c), true))
      else
        var skipped := SkipEmptyLines(lines, Advance(lines, c));
        Some((more, skipped.0, skipped.1))
  }

  /** Where a block body stops: at the end of the input or at a line starting with 'B' or 'D'. */
  predicate EndsBody(lines: seq<string>, c: Cursor) {
    c.next == |lines| || (|c.line| > 0 && (c.line[0] == 'B' || c.line[0] == 'D'))
  }

  /**
   * parseInBlock from its loop onwards: the data lines of block `name`,
   * starting at cursor c with `vars` already read and `nv` data lines counted.
   * It yields the block, the cursor it stopped at and the new count.
   */
  function InBlockBody(lines: seq<string>, c: Cursor, name: string, vars: seq<Variable>, nv: int): (r: Outcome<(Block, Cursor, int)>)
    requires c.next <= |lines|
    ensures r.Done? ==> c.next <= r.value.1.next <= |lines|
    ensures r.Done? ==> r.value.0.Plain? && r.value.0.name == name && vars <= r.value.0.vars
    ensures r.Done? ==> r.value.2 == nv + |r.value.0.vars| - |vars|
    ensures r.Done? ==> EndsBody(lines, r.value.1)
    decreases |lines| - c.next
  {
    if |c.line| == 0 then Fails(IndexOutOfBounds)
    else if c.line[0] == 'B' || c.line[0] == 'D' then Done((Plain(name, vars), c, nv))
    else if c.line[0] == '#' then
      if c.next < |lines| then InBlockBody(lines, Advance(lines, c), name, vars, nv)
      else Done((Plain(name, vars), c, nv))
    else
      var step := BlockDataLine(lines, c, name, vars);
      if step.None? then Hangs
      else if step.value.2 then InBlockBody(lines, step.value.1, name, step.value.0, nv + 1)
      else Done((Plain(name, step.value.0), step.value.1, nv + 1))
  }

  /** The header "DECAY code value x description… # …" of a decay block. */
  function DecayHeader(line: string): (r: Outcome<Block>)
    ensures r.Done? ==> r.value.Decay? && r.value.vars == []
  {
    var toks := Tokens(line);
    if |toks| < 4 then Fails(NoSuchElement)
    else Done(Decay(toks[1], toks[2], DescriptionOf(toks[4..]), []))
  }

  /** One data line of a DECAY body, as BlockDataLine; a line of fewer than five tokens throws. */
  function DecayDataLine(lines: seq<string>, c: Cursor, vars: seq<Variable>): (r: Result<(seq<Variable>, Cursor, bool), Exception>)
    requires c.next <= |lines|
    ensures r.Ok? ==> c.next <= r.value.1.next <= |lines| && (r.value.2 ==> c.next < r.value.1.next)
    ensures r.Ok? ==> |r.value.0| == |vars| + 1 && vars <= r.value.0
    ensures r.Ok? && !r.value.2 ==> r.value.1.next == |lines|
  {
    var toks := Tokens(c.line);
    if |toks| < 5 then Err(NoSuchElement)
    else
      var more := vars + [DecayLineVariable(toks)];
      if c.next < |lines| then Ok((more, Advance(lines, c), true)) else Ok((more, c, false))
  }

  /** parseDecayBlock from its loop onwards: the data lines of decay block b. */
  function DecayBody(lines: seq<string>, c: Cursor, b: Block): (r: Outcome<(Block, Cursor)>)
    requires c.next <= |lines| && b.Decay?
    ensures r.Done? ==> c.next <= r.value.1.next <= |lines|
    ensures r.Done? ==> r.value.0 == Decay(b.code, b.data, b.description, r.value.0.vars) && b.vars <= r.value.0.vars
    ensures r.Done? ==> EndsBody(lines, r.value.1)
    decreases |lines| - c.next
  {
    if |c.line| == 0 then Fails(IndexOutOfBounds)
    else if c.line[0] == 'D' || c.line[0] == 'B' then Done((b, c))
    else if c.line[0] == '#' then
      if c.next < |lines| then DecayBody(lines, Advance(lines, c), b) else Done((b, c))
    else
      var step := DecayDataLine(lines, c, b.vars);
      if step.Err? then Fails(step.error)
      else
        var b' := Decay(b.code, b.data, b.description, step.value.0);
        if step.value.2 then DecayBody(lines, step.value.1, b') else Done((b', step.value.1))
  }

  /** The block a body reading produced, without where it stopped. */
  function BlockOf(o: Outcome<(Block, Cursor, int)>): Outcome<Block> {
    match o
    case Done(v) => Done(v.0)
    case Fails(e) => Fails(e)
    case Hangs => Hangs
  }

  /** The same for a decay body. */
  function DecayOf(o: Outcome<(Block, Cursor)>): Outcome<Block> {
    match o
    case Done(v) => Done(v.0)
    case Fails(e) => Fails(e)
    case Hangs => Hangs
  }

  /** The number of variables in the plain (BLOCK) blocks of bs. */
  function PlainCount(bs: seq<Block>): nat {
    if |bs| == 0 then 0
    else PlainCount(bs[..|bs| - 1]) + (if bs[|bs| - 1].Plain? then |bs[|bs| - 1].vars| else 0)
  }

  /** Appending a block adds its variables if it is a plain one. */
  lemma PlainCountAppend(blocks: seq<Block>, b: Block)
    ensures blocks <= blocks + [b]
    ensures PlainCount(blocks + [b]) == PlainCount(blocks) + (if b.Plain? then |b.vars| else 0)
  {
    assert (blocks + [b])[..|blocks|] == blocks;
  }

  /**
   * One line of the constructor's main loop, at a cursor with another line
   * after it: a comment line is skipped, a BLOCK or DECAY header line reads
   * its block; the result is the block read (None for a comment), the new
   * cursor and the new count of BLOCK data lines.
   */
  function TopLine(lines: seq<string>, c: Cursor, nv: int): (r: Outcome<(Option<Block>, Cursor, int)>)
    requires c.next < |lines|
    ensures r.Done? ==> c.next < r.value.1.next <= |lines|
    ensures r.Done? ==> r.value.2 == nv + (if r.value.0.Some? && r.value.0.value.Plain? then |r.value.0.value.vars| else 0)
  {
    var toks := Tokens(c.line);
    if |toks| == 0 then Fails(NoSuchElement)
    else if IsCommentToken(toks[0]) then Done((None, Advance(lines, c), nv))
    else if EqualsIgnoreCase(toks[0], "BLOCK") then
      if |toks| < 2 then Fails(NoSuchElement)
      else
        match InBlockBody(lines, Advance(lines, c), toks[1], [], nv)
        case Done((b, c', nv')) => Done((Some(b), c', nv'))
        case Fails(e) => Fails(e)
        case Hangs => Hangs
    else if EqualsIgnoreCase(toks[0], "DECAY") then
      match DecayRead(lines, c)
      case Done((b, c')) => Done((Some(b), c', nv))
      case Fails(e) => Fails(e)
      case Hangs => Hangs
    else Fails(BadInput)
  }

  /** A DECAY block read from its header line at cursor c: the header, then the data lines after it. */
  function DecayRead(lines: seq<string>, c: Cursor): (r: Outcome<(Block, Cursor)>)
    requires c.next < |lines|
    ensures r.Done? ==> c.next < r.value.1.next <= |lines| && r.value.0.Decay?
  {
    match DecayHeader(c.line)
    case Done(h) => DecayBody(lines, Advance(lines, c), h)
    case Fails(e) => Fails(e)
    case Hangs => Hangs
  }

  /**
   * The constructor's main loop at cursor c, with `blocks` read so far and
   * `nv` BLOCK data lines counted. A line is only looked at while another
   * line follows it.
   */
  function TopLevel(lines: seq<string>, c: Cursor, blocks: seq<Block>, nv: int): (r: Outcome<Parsed>)
    requires c.next <= |lines|
    ensures r.Done? ==> |r.value.blocks| > 0 && blocks <= r.value.blocks
    ensures r.Done? ==> r.value.numberOfVariables - PlainCount(r.value.blocks) == nv - PlainCount(blocks)
    decreases |lines| - c.next
  {
    if c.next == |lines| then
      if |blocks| == 0 then Fails(BadInput) else Done(Parsed(blocks, nv))
    else
      match TopLine(lines, c, nv)
      case Done((read, c', nv')) =>
        if read.None? then TopLevel(lines, c', blocks, nv')
        else
          PlainCountAppend(blocks, read.value);
          TopLevel(lines, c', blocks + [read.value], nv')
      case Fails(e) => Fails(e)
      case Hangs => Hangs
  }

  /** A line without tokens ends the main loop: nextToken throws. */
  lemma BlankLineFails(lines: seq<string>, c: Cursor, blocks: seq<Block>, nv: int)
    requires c.next < |lines| && |Tokens(c.line)| == 0
    ensures TopLevel(lines, c, blocks, nv) == Fails(NoSuchElement)
  {
  }

  /** The main loop passes over a comment line without reading a block. */
  lemma CommentLineSkipped(lines: seq<string>, c: Cursor, blocks: seq<Block>, nv: int)
    requires c.next < |lines| && |Tokens(c.line)| > 0 && IsCommentToken(Tokens(c.line)[0])
    ensures TopLevel(lines, c, blocks, nv) == TopLevel(lines, Advance(lines, c), blocks, nv)
  {
  }

  /** Reading a whole file: an empty file is an error, otherwise the main loop from the first line. */
  function Parse(lines: seq<string>): (r: Outcome<Parsed>)
    ensures r.Done? ==> |r.value.blocks| > 0
    ensures r.Done? ==> r.value.numberOfVariables == PlainCount(r.value.blocks)
  {
    if |lines| == 0 then Fails(BadInput) else TopLevel(lines, Cursor(1, lines[0]), [], 0)
  }

  /** A description is made of the words before the next '#'-token only. */
  lemma {:induction false} DescriptionStopsAtComment(toks: seq<string>)
    ensures DescriptionOf(toks) == DescriptionOf(toks[..FirstComment(toks)])
  {
    var m := FirstComment(toks);
    if |toks| > 0 && !IsCommentToken(toks[0]) {
      DescriptionStopsAtComment(toks[1..]);
      assert toks[..m][1..] == toks[1..][..m - 1];
    }
  }

  /** Inputs the constructor rejects: no lines, a single line, or an unknown first line. */
  lemma ParseRejects(lines: seq<string>)
    ensures |lines| <= 1 ==> Parse(lines) == Fails(BadInput)
    ensures |lines| >= 2 && |Tokens(lines[0])| > 0 && !IsCommentToken(Tokens(lines[0])[0])
            && !EqualsIgnoreCase(Tokens(lines[0])[0], "BLOCK") && !EqualsIgnoreCase(Tokens(lines[0])[0], "DECAY")
            ==> Parse(lines) == Fails(BadInput)
    ensures |lines| >= 2 && |Tokens(lines[0])| == 0 ==> Parse(lines) == Fails(NoSuchElement)
  {
  }

  // ------------------------------------------------------------ lookups

  predicate HasBlock(blocks: seq<Block>, name: string) {
    exists i :: 0 <= i < |blocks| && EqualsIgnoreCase(blocks[i].BlockName(), name)
  }

  /** getBlocks: the set of the blocks' names. */
  function BlockNames(blocks: seq<Block>): set<string> {
    set i | 0 <= i < |blocks| :: blocks[i].BlockName()
  }

  /** Position of the first block (in iteration order) whose name equals `name` ignoring case, or -1. */
  function FirstBlockNamed(blocks: seq<Block>, name: string): (r: int)
    ensures -1 <= r < |blocks|
    ensures r >= 0 ==> EqualsIgnoreCase(blocks[r].BlockName(), name)
    ensures forall i :: 0 <= i < |blocks| && (r == -1 || i < r) ==> !EqualsIgnoreCase(blocks[i].BlockName(), name)
  {
    if |blocks| == 0 then -1
    else if EqualsIgnoreCase(blocks[0].BlockName(), name) then 0
    else var k := FirstBlockNamed(blocks[1..], name); if k < 0 then -1 else k + 1
  }

  /** getField: the first block whose name equals `name` ignoring case, else InvalidParameterException. */
  function FieldOf(blocks: seq<Block>, name: string): (r: Result<Block, Exception>)
    ensures r.Ok? <==> HasBlock(blocks, name)
    ensures r.Ok? ==> r.value in blocks && EqualsIgnoreCase(r.value.BlockName(), name)
    ensures r.Err? ==> r.error == InvalidParameter
  {
    var i := FirstBlockNamed(blocks, name);
    if i < 0 then Err(InvalidParameter) else Ok(blocks[i])
  }

  /** ContainsBlock, which searches the name set, agrees with getField. */
  lemma HasBlockByNames(blocks: seq<Block>, name: string)
    ensures HasBlock(blocks, name) <==> exists s :: s in BlockNames(blocks) && EqualsIgnoreCase(s, name)
  {
    if HasBlock(blocks, name) {
      var i :| 0 <= i < |blocks| && EqualsIgnoreCase(blocks[i].BlockName(), name);
      assert blocks[i].BlockName() in BlockNames(blocks);
    }
  }

  /** What a read file offers to the rest of the program. */
  datatype Dataset = Dataset(fileName: string, lastModified: int, blocks: seq<Block>, numberOfVariables: int)

  /**
   * A file being read. `data` stands for the HashSet of blocks: its order is
   * the set's iteration order, which the model leaves open.
   */
  class SlhaFile {
    const lines: seq<string>
    const fileName: string
    const lastModified: int
    var data: seq<Block>
    var next: nat
    var line: string
    var numberOfVariables: int

    function Contents(): Dataset
      reads this
    {
      Dataset(fileName, lastModified, data, numberOfVariables)
    }

    /** The part of the constructor before reading: the file name, the time stamp and an empty set of blocks. */
    constructor (filepath: string, lines: seq<string>, lastModified: int)
      ensures this.lines == lines && fileName == FileNameOf(filepath) && this.lastModified == lastModified
      ensures data == [] && next == 0 && numberOfVariables == 0
    {
      this.lines := lines;
      fileName := FileNameOf(filepath);
      this.lastModified := lastModified;
      data := [];
      next := 0;
      line := "";
      numberOfVariables := 0;
    }

    /** Reading a file: the constructor. An exception means no SlhaFile is created. */
    static method Open(filepath: string, lines: seq<string>, lastModified: int) returns (r: Outcome<SlhaFile>)
      ensures Parse(lines).Done? <==> r.Done?
      ensures Parse(lines).Fails? <==> r.Fails?
      ensures r.Fails? ==> r.error == Parse(lines).error
      ensures r.Done? ==> fresh(r.value) && r.value.fileName == FileNameOf(filepath)
                          && r.value.lastModified == lastModified
                          && multiset(r.value.data) == multiset(Parse(lines).value.blocks)
                          && r.value.numberOfVariables == Parse(lines).value.numberOfVariables
    {
      var f := new SlhaFile(filepath, lines, lastModified);
      var status := f.ReadAll();
      match status
      case Done(_) => r := Done(f);
      case Fails(e) => r := Fails(e);
      case Hangs => r := Hangs;
    }

    /** HashSet.add: the block joins the set at a position the model leaves open. */
    method AddBlock(b: Block)
      modifies this
      ensures multiset(data) == multiset(old(data)) + multiset{b}
      ensures next == old(next) && line == old(line) && numberOfVariables == old(numberOfVariables)
    {
      var k :| 0 <= k <= |data|;
      assert data == data[..k] + data[k..];
      data := data[..k] + [b] + data[k..];
    }

    /** The main loop stopped early with o, as the reading spec does. */
    static predicate EndsAs(o: Outcome<()>, spec: Outcome<Parsed>) {
      match o
      case Done(_) => false
      case Fails(e) => spec == Fails(e)
      case Hangs => spec == Hangs
    }

    /** The constructor's main loop, from the first nextLine to the check for an empty set. */
    method ReadAll() returns (r: Outcome<()>)
      requires next == 0 && data == [] && numberOfVariables == 0
      modifies this
      ensures Parse(lines).Done? <==> r.Done?
      ensures Parse(lines).Fails? <==> r.Fails?
      ensures r.Fails? ==> r.error == Parse(lines).error
      ensures r.Done? ==> multiset(data) == multiset(Parse(lines).value.blocks)
                          && numberOfVariables == Parse(lines).value.numberOfVariables
    {
      if |lines| == 0 {
        return Fails(BadInput);
      }
      next, line := 1, lines[0];
      ghost var read: seq<Block> := [];
      while next < |lines|
        invariant next <= |lines|
        invariant TopLevel(lines, Cursor(next, line), read, numberOfVariables) == Parse(lines)
        invariant multiset(data) == multiset(read)
        decreases |lines| - next
      {
        var stop;
        stop, read := TopStep(read);
        if stop.Some? {
          return stop.value;
        }
      }
      if |data| == 0 {
        return Fails(BadInput);
      }
      return Done(());
    }

    /**
     * One turn of the constructor's main loop: a comment line is skipped, a
     * BLOCK or DECAY header has its block read and added; any other line, or
     * an exception in the block, ends the reading.
     */
    method TopStep(ghost read: seq<Block>) returns (stop: Option<Outcome<()>>, ghost read': seq<Block>)
      requires next < |lines| && multiset(data) == multiset(read)
      modifies this
      ensures var spec := TopLevel(lines, old(Cursor(next, line)), read, old(numberOfVariables));
              if stop.Some?
              then EndsAs(stop.value, spec)
              else old(next) < next <= |lines| && multiset(data) == multiset(read')
                   && TopLevel(lines, Cursor(next, line), read', numberOfVariables) == spec
    {
      read' := read;
      var toks := Tokens(line);
      if |toks| == 0 {
        BlankLineFails(lines, Cursor(next, line), read, numberOfVariables);
        return Some(Fails(NoSuchElement)), read';
      }
      var first := toks[0];
      if first[0] == '#' {
        ghost var c := Cursor(next, line);
        CommentLineSkipped(lines, c, read, numberOfVariables);
        next, line := next + 1, lines[next];
        assert Cursor(next, line) == Advance(lines, c);
        return None, read';
      }
      stop, read' := TopHeader(read);
    }

    /** The main loop on a line that is not a comment: a BLOCK or DECAY header, or the end of the reading. */
    method TopHeader(ghost read: seq<Block>) returns (stop: Option<Outcome<()>>, ghost read': seq<Block>)
      requires next < |lines| && multiset(data) == multiset(read)
      requires |Tokens(line)| > 0 && !IsCommentToken(Tokens(line)[0])
      modifies this
      ensures var spec := TopLevel(lines, old(Cursor(next, line)), read, old(numberOfVariables));
              if stop.Some?
              then EndsAs(stop.value, spec)
              else old(next) < next <= |lines| && multiset(data) == multiset(read')
                   && TopLevel(lines, Cursor(next, line), read', numberOfVariables) == spec
    {
      read' := read;
      var first := Tokens(line)[0];
      if EqualsIgnoreCase(first, "BLOCK") {
        stop, read' := TopBlock(read);
      } else if EqualsIgnoreCase(first, "DECAY") {
        stop, read' := TopDecay(read);
      } else {
        stop := Some(Fails(BadInput));
      }
    }

    /** The main loop on a BLOCK header line. */
    method TopBlock(ghost read: seq<Block>) returns (stop: Option<Outcome<()>>, ghost read': seq<Block>)
      requires next < |lines| && multiset(data) == multiset(read)
      requires |Tokens(line)| > 0 && !IsCommentToken(Tokens(line)[0]) && EqualsIgnoreCase(Tokens(line)[0], "BLOCK")
      modifies this
      ensures var spec := TopLevel(lines, old(Cursor(next, line)), read, old(numberOfVariables));
              if stop.Some?
              then EndsAs(stop.value, spec)
              else old(next) < next <= |lines| && multiset(data) == multiset(read')
                   && TopLevel(lines, Cursor(next, line), read', numberOfVariables) == spec
    {
      read' := read;
      var toks := Tokens(line);
      if |toks| < 2 {
        return Some(Fails(NoSuchElement)), read';
      }
      var b := ParseInBlock(toks[1]);
      match b
      case Done(blk) =>
        AddBlock(blk);
        read' := read + [blk];
        return None, read';
      case Fails(e) =>
        return Some(Fails(e)), read';
      case Hangs =>
        return Some(Hangs), read';
    }

    /** The main loop on a DECAY header line. */
    method TopDecay(ghost read: seq<Block>) returns (stop: Option<Outcome<()>>, ghost read': seq<Block>)
      requires next < |lines| && multiset(data) == multiset(read)
      requires |Tokens(line)| > 0 && !IsCommentToken(Tokens(line)[0])
      requires !EqualsIgnoreCase(Tokens(line)[0], "BLOCK") && EqualsIgnoreCase(Tokens(line)[0], "DECAY")
      modifies this
      ensures var spec := TopLevel(lines, old(Cursor(next, line)), read, old(numberOfVariables));
              if stop.Some?
              then EndsAs(stop.value, spec)
              else old(next) < next <= |lines| && multiset(data) == multiset(read')
                   && TopLevel(lines, Cursor(next, line), read', numberOfVariables) == spec
    {
      read' := read;
      var b := ParseDecayBlock();
      match b
      case Done(blk) =>
        AddBlock(blk);
        read' := read + [blk];
        return None, read';
      case Fails(e) =>
        return Some(Fails(e)), read';
      case Hangs =>
        return Some(Hangs), read';
    }

    /** parseInBlock: reads the data lines of block `name`, starting with the line after the header. */
    method ParseInBlock(name: string) returns (r: Outcome<Block>)
      requires next < |lines|
      modifies this
      ensures var spec := InBlockBody(lines, Advance(lines, old(Cursor(next, line))), name, [], old(numberOfVariables));
              r == BlockOf(spec)
              && (r.Done? ==> Cursor(next, line) == spec.value.1 && numberOfVariables == spec.value.2)
      ensures data == old(data)
    {
      ghost var start := Advance(lines, Cursor(next, line));
      var field := new SlhaBlock(name);
      next, line := next + 1, lines[next];
      assert Cursor(next, line) == start;
      ghost var spec := InBlockBody(lines, start, name, [], numberOfVariables);
      while true
        invariant next <= |lines| && field.name == name && fresh(field)
        invariant InBlockBody(lines, Cursor(next, line), name, field.vars, numberOfVariables) == spec
        invariant data == old(data)
        decreases |lines| - next
      {
        var stop := InBlockStep(field, name);
        if stop.Some? {
          return stop.value;
        }
      }
    }

    /**
     * One turn of parseInBlock's loop: a line that ends the block or throws
     * gives the outcome; a comment line or a data line followed by more moves
     * on, with the rest of the reading unchanged.
     */
    method InBlockStep(field: SlhaBlock, name: string) returns (stop: Option<Outcome<Block>>)
      requires next <= |lines| && field.name == name
      modifies this, field
      ensures field.name == name && data == old(data)
      ensures var spec := InBlockBody(lines, old(Cursor(next, line)), name, old(field.vars), old(numberOfVariables));
              if stop.Some?
              then stop.value == BlockOf(spec)
                   && (stop.value.Done? ==> Cursor(next, line) == spec.value.1 && numberOfVariables == spec.value.2)
              else old(next) < next <= |lines|
                   && InBlockBody(lines, Cursor(next, line), name, field.vars, numberOfVariables) == spec
    {
      if |line| == 0 {
        return Some(Fails(IndexOutOfBounds));
      }
      if line[0] == 'B' || line[0] == 'D' {
        return Some(Done(field.Value()));
      }
      if line[0] == '#' {
        if next == |lines| {
          return Some(Done(field.Value()));
        }
        next, line := next + 1, lines[next];
        return None;
      }
      ghost var before := Cursor(next, line);
      ghost var varsBefore := field.vars;
      var goOn := ReadBlockDataLine(field, name);
      if goOn.None? {
        assert BlockDataLine(lines, before, name, varsBefore).None?;
        return Some(Hangs);
      }
      assert BlockDataLine(lines, before, name, varsBefore) == Some((field.vars, Cursor(next, line), goOn.value));
      if !goOn.value {
        return Some(Done(field.Value()));
      }
      return None;
    }

    /** The body of parseInBlock's loop for a data line: one Variable into `field`, then on to the next line. */
    method ReadBlockDataLine(field: SlhaBlock, name: string) returns (goOn: Option<bool>)
      requires next <= |lines|
      modifies this, field
      ensures var spec := BlockDataLine(lines, old(Cursor(next, line)), name, old(field.vars));
              (spec.None? <==> goOn.None?)
              && (goOn.Some? ==> spec.value == (field.vars, Cursor(next, line), goOn.value)
                                 && numberOfVariables == old(numberOfVariables) + 1)
      ensures data == old(data)
    {
      ghost var c := Cursor(next, line);
      ghost var spec := BlockDataLine(lines, c, name, field.vars);
      var tokenList, rest := TakeData(Tokens(line));
      if |tokenList| == 0 {
        return None;
      }
      numberOfVariables := numberOfVariables + 1;
      var pdg, pdg2, value, description := DataLineFields(tokenList, rest);
      var _ := field.AddVariable(pdg, pdg2, "", value, description, name);
      assert field.vars == spec.value.0;
      if next == |lines| {
        assert spec.value == (field.vars, c, false);
        return Some(false);
      }
      next, line := next + 1, lines[next];
      assert Cursor(next, line) == Advance(lines, c);
      if |tokenList| == 1 {
        assert spec.value == (field.vars, Cursor(next, line), true);
        return Some(true);
      }
      ghost var skipped := SkipEmptyLines(lines, Cursor(next, line));
      assert spec.value == (field.vars, skipped.0, skipped.1);
      var more := SkipEmpty();
      return Some(more);
    }

    /** `while (line.length() == 0) line = parser.nextLine();`, false once the lines ran out. */
    method SkipEmpty() returns (more: bool)
      requires next <= |lines|
      modifies this
      ensures (Cursor(next, line), more) == SkipEmptyLines(lines, old(Cursor(next, line)))
      ensures data == old(data) && numberOfVariables == old(numberOfVariables)
    {
      ghost var skipped := SkipEmptyLines(lines, Cursor(next, line));
      while |line| == 0
        invariant next <= |lines|
        invariant SkipEmptyLines(lines, Cursor(next, line)) == skipped
        invariant data == old(data) && numberOfVariables == old(numberOfVariables)
        decreases |lines| - next
      {
        if next == |lines| {
          return false;
        }
        next, line := next + 1, lines[next];
      }
      return true;
    }

    /** parseDecayBlock: reads the header of the current line, then the data lines after it. */
    method ParseDecayBlock() returns (r: Outcome<Block>)
      requires next < |lines|
      modifies this
      ensures var spec := DecayRead(lines, old(Cursor(next, line)));
              r == DecayOf(spec) && (r.Done? ==> Cursor(next, line) == spec.value.1)
      ensures data == old(data) && numberOfVariables == old(numberOfVariables)
    {
      var toks := Tokens(line);
      if |toks| < 4 {
        return Fails(NoSuchElement);
      }
      var headerDescription := GatherDescription(toks[4..]);
      var d := new DecayBlock(toks[1], toks[2], headerDescription);
      assert DecayHeader(line) == Done(d.Value());
      next, line := next + 1, lines[next];
      r := DecayLoop(d);
    }

    /** parseDecayBlock's loop over the data lines, adding each to d until the next header. */
    method DecayLoop(d: DecayBlock) returns (r: Outcome<Block>)
      requires next <= |lines|
      modifies this, d
      ensures var spec := DecayBody(lines, old(Cursor(next, line)), old(d.Value()));
              r == DecayOf(spec) && (r.Done? ==> Cursor(next, line) == spec.value.1)
      ensures data == old(data) && numberOfVariables == old(numberOfVariables)
    {
      ghost var spec := DecayBody(lines, Cursor(next, line), d.Value());
      while true
        invariant next <= |lines|
        invariant DecayBody(lines, Cursor(next, line), d.Value()) == spec
        invariant data == old(data) && numberOfVariables == old(numberOfVariables)
        decreases |lines| - next
      {
        var stop := DecayStep(d);
        if stop.Some? {
          return stop.value;
        }
      }
    }

    /** One turn of parseDecayBlock's loop, as InBlockStep. */
    method DecayStep(d: DecayBlock) returns (stop: Option<Outcome<Block>>)
      requires next <= |lines|
      modifies this, d
      ensures data == old(data) && numberOfVariables == old(numberOfVariables)
      ensures var spec := DecayBody(lines, old(Cursor(next, line)), old(d.Value()));
              if stop.Some?
              then stop.value == DecayOf(spec) && (stop.value.Done? ==> Cursor(next, line) == spec.value.1)
              else old(next) < next <= |lines| && DecayBody(lines, Cursor(next, line), d.Value()) == spec
    {
      if |line| == 0 {
        return Some(Fails(IndexOutOfBounds));
      }
      if line[0] == 'D' || line[0] == 'B' {
        return Some(Done(d.Value()));
      }
      if line[0] == '#' {
        if next == |lines| {
          return Some(Done(d.Value()));
        }
        next, line := next + 1, lines[next];
        return None;
      }
      ghost var before := Cursor(next, line);
      ghost var varsBefore := d.vars;
      var goOn := ReadDecayDataLine(d);
      if goOn.Err? {
        assert DecayDataLine(lines, before, varsBefore).Err?;
        return Some(Fails(goOn.error));
      }
      assert DecayDataLine(lines, before, varsBefore) == Ok((d.vars, Cursor(next, line), goOn.value));
      if !goOn.value {
        return Some(Done(d.Value()));
      }
      return None;
    }

    /** The body of parseDecayBlock's loop for a data line. */
    method ReadDecayDataLine(d: DecayBlock) returns (goOn: Result<bool, Exception>)
      requires next <= |lines|
      modifies this, d
      ensures var spec := DecayDataLine(lines, old(Cursor(next, line)), old(d.vars));
              (spec.Err? <==> goOn.Err?) && (goOn.Err? ==> goOn.error == spec.error)
              && (goOn.Ok? ==> spec.value == (d.vars, Cursor(next, line), goOn.value))
      ensures data == old(data) && numberOfVariables == old(numberOfVariables)
    {
      var fields := Tokens(line);
      if |fields| < 5 {
        return Err(NoSuchElement);
      }
      var description := GatherDescription(fields[5..]);
      var _ := d.AddVariable(fields[1], fields[2], fields[3], fields[0], description, "DECAY");
      if next == |lines| {
        return Ok(false);
      }
      next, line := next + 1, lines[next];
      return Ok(true);
    }

    /** getField: searches the blocks in iteration order. */
    method GetField(name: string) returns (r: Result<Block, Exception>)
      ensures r == FieldOf(data, name)
    {
      var i := 0;
      while i < |data|
        invariant 0 <= i <= |data|
        invariant forall j :: 0 <= j < i ==> !EqualsIgnoreCase(data[j].BlockName(), name)
      {
        if EqualsIgnoreCase(data[i].BlockName(), name) {
          FirstBlockNamedIs(data, name, i);
          return Ok(data[i]);
        }
        i := i + 1;
      }
      FirstBlockNamedIs(data, name, -1);
      return Err(InvalidParameter);
    }

    /** getBlocks: collects the names of all blocks. */
    method GetBlocks() returns (names: set<string>)
      ensures names == BlockNames(data)
    {
      names := {};
      var i := 0;
      while i < |data|
        invariant 0 <= i <= |data|
        invariant names == BlockNames(data[..i])
      {
        assert BlockNames(data[..i + 1]) == BlockNames(data[..i]) + {data[i].BlockName()} by {
          assert data[..i + 1][i] == data[i];
          forall s | s in BlockNames(data[..i + 1])
            ensures s in BlockNames(data[..i]) + {data[i].BlockName()}
          {
            var j :| 0 <= j < i + 1 && data[..i + 1][j].BlockName() == s;
            if j < i {
              assert data[..i][j] == data[..i + 1][j];
            }
          }
          forall s | s in BlockNames(data[..i])
            ensures s in BlockNames(data[..i + 1])
          {
            var j :| 0 <= j < i && data[..i][j].BlockName() == s;
            assert data[..i + 1][j] == data[..i][j];
          }
        }
        names := names + {data[i].BlockName()};
        i := i + 1;
      }
      assert data[..i] == data;
    }

    /** ContainsBlock: searches the name set of getBlocks ignoring case. */
    method ContainsBlock(name: string) returns (r: bool)
      ensures r == HasBlock(data, name)
      ensures r <==> FieldOf(data, name).Ok?
    {
      var names := GetBlocks();
      HasBlockByNames(data, name);
      var left := names;
      while left != {}
        invariant left <= names
        invariant forall s :: s in names && s !in left ==> !EqualsIgnoreCase(s, name)
        decreases |left|
      {
        var s :| s in left;
        if EqualsIgnoreCase(s, name) {
          return true;
        }
        left := left - {s};
      }
      return false;
    }
  }

  lemma FirstBlockNamedIs(blocks: seq<Block>, name: string, k: int)
    requires -1 <= k < |blocks|
    requires k >= 0 ==> EqualsIgnoreCase(blocks[k].BlockName(), name)
    requires forall i :: 0 <= i < |blocks| && (k == -1 || i < k) ==> !EqualsIgnoreCase(blocks[i].BlockName(), name)
    ensures FirstBlockNamed(blocks, name) == k
  {
  }

  /** The token-list loop of parseInBlock: data tokens up to the first '#'-token, which is consumed. */
  method TakeData(toks: seq<string>) returns (data: seq<string>, rest: seq<string>)
    requires forall i :: 0 <= i < |toks| ==> IsToken(toks[i])
    ensures (data, rest) == SplitAtComment(toks)
    ensures forall i :: 0 <= i < |data| ==> IsToken(data[i])
  {
    var m := FirstComment(toks);
    var k := 0;
    while k < |toks|
      invariant 0 <= k <= m
    {
      if toks[k][0] == '#' {
        return toks[..k], toks[k + 1..];
      }
      k := k + 1;
    }
    assert toks[..|toks|] == toks;
    return toks, [];
  }

  /**
   * How parseInBlock fills in PDG, PDG2 and the value from the data tokens, and
   * gathers the description from the tokens after the '#'-token.
   */
  method DataLineFields(tokenList: seq<string>, rest: seq<string>) returns (pdg: string, pdg2: string, value: string, description: string)
    requires |tokenList| >= 1 && forall i :: 0 <= i < |tokenList| ==> IsToken(tokenList[i])
    requires forall i :: 0 <= i < |rest| ==> IsToken(rest[i])
    ensures description == DescriptionOf(rest)
    ensures forall name :: PlainEntry(pdg, pdg2, "", value, description, name) == DataLineVariable(tokenList, description, name)
  {
    description := GatherDescription(rest);
    pdg, pdg2, value := "", "", "";
    if |tokenList| == 1 {
      value := tokenList[0];
    } else {
      pdg := tokenList[0];
      var grab := 1;
      if |tokenList| == 3 {
        pdg2 := tokenList[1];
        grab := 2;
      }
      value := JoinLoop(tokenList, grab);
    }
  }

  /** The description loop: words up to the next '#'-token, each after a space. */
  method GatherDescription(toks: seq<string>) returns (description: string)
    requires forall i :: 0 <= i < |toks| ==> IsToken(toks[i])
    ensures description == DescriptionOf(toks)
  {
    description := "";
    var k := 0;
    while k < |toks|
      invariant 0 <= k <= |toks|
      invariant description + DescriptionOf(toks[k..]) == DescriptionOf(toks)
    {
      if toks[k][0] == '#' {
        return;
      }
      assert toks[k..][1..] == toks[k + 1..];
      description := description + " " + toks[k];
      k := k + 1;
    }
  }

  /** The loop `for (i = grab; i < size; i++) data += token + " ";`. */
  method JoinLoop(toks: seq<string>, grab: nat) returns (value: string)
    requires grab <= |toks|
    ensures value == JoinTrailing(toks[grab..])
  {
    value := "";
    var k := grab;
    while k < |toks|
      invariant grab <= k <= |toks|
      invariant value + JoinTrailing(toks[k..]) == JoinTrailing(toks[grab..])
    {
      assert toks[k..][1..] == toks[k + 1..];
      value := value + toks[k] + " ";
      k := k + 1;
    }
  }
}
