/**
 * FileChecker.reportDifferences (src/binaryUtil/FileChecker.java): the schema
 * difference of a candidate file against a template, as a list of findings.
 * Each finding is a pair: a coded string the store resolves (at an even
 * position) and a readable message it logs (at the next, odd position).
 *   1<name>                         the candidate lacks a template block
 *   2 PDG PDG2 PDG3 block desc      a candidate variable the template block lacks
 *   3 PDG PDG2 PDG3 block desc      a template variable the candidate block lacks
 */
module FileChecker {
  import opened Wrappers
  import opened JavaStrings
  import opened Variables
  import opened Blocks
  import opened Slha

  // ------------------------------------------------------------- messages

  /** The code of a missing block: "1" and the name, with no separator. */
  function MissingBlockCode(name: string): string { "1" + name }

  /** The missing-block code with the blank the other codes have between the digit and the rest. */
  function SpacedMissingBlockCode(name: string): string { "1 " + name }

  function MissingBlockText(name: string, fileName: string): string {
    "Missing Block: " + name + " in file: " + fileName
  }

  /** The code of a variable finding: the digit, then the PDG codes, the block name and the description. */
  function VariableCode(code: string, v: Variable, blockName: string): string {
    code + " " + v.pdg + " " + v.pdg2 + " " + v.pdg3 + " " + blockName + " " + v.description
  }

  function UnmatchedText(v: Variable, blockName: string, fileName: string): string {
    "Unmatched Variable: " + "PDG Code " + v.pdg + ", " + v.pdg2 + ", " + v.pdg3
    + " Description: " + v.description + "in block: " + blockName + " in File " + fileName
  }

  function MissingText(v: Variable, blockName: string, fileName: string): string {
    "Missing Variable: " + "PDG Code " + v.pdg + ", " + v.pdg2 + ", " + v.pdg3
    + " Description: " + v.description + "in block: " + blockName + " in File " + fileName + " not found."
  }

  /** A coded string, as opposed to a readable message. */
  predicate IsCode(s: string) { |s| > 0 && '1' <= s[0] <= '3' }

  /**
   * Which finding a string belongs to: 1 missing block, 2 unmatched variable,
   * 3 missing variable -- read off the code digit or the message's wording.
   */
  function KindOf(s: string): int {
    if |s| == 0 then 0
    else if s[0] == '1' then 1
    else if s[0] == '2' || s[0] == 'U' then 2
    else if s[0] == '3' then 3
    else if |s| > 8 && s[8] == 'B' then 1
    else 3
  }

  /** A list of findings: code and message alternate, both of the given kind. */
  predicate Alternating(r: seq<string>, kind: int) {
    |r| % 2 == 0 && forall i :: 0 <= i < |r| ==> KindOf(r[i]) == kind && (IsCode(r[i]) <==> i % 2 == 0)
  }

  /** Codes at the even positions, messages at the odd ones. */
  predicate Paired(r: seq<string>) {
    |r| % 2 == 0 && forall i :: 0 <= i < |r| ==> (IsCode(r[i]) <==> i % 2 == 0)
  }

  // --------------------------------------------------------- specification

  /** The template block names the candidate lacks, in visiting order. */
  function MissingNames(candidate: Dataset, names: seq<string>): (r: seq<string>)
    ensures forall n :: n in r <==> n in names && !HasBlock(candidate.blocks, n)
  {
    if |names| == 0 then []
    else
      var prev := MissingNames(candidate, names[..|names| - 1]);
      var n := names[|names| - 1];
      assert forall m :: m in names <==> m in names[..|names| - 1] || m == n;
      if HasBlock(candidate.blocks, n) then prev else prev + [n]
  }

  /** The template block names the candidate has (validBlocks), in visiting order. */
  function PresentNames(candidate: Dataset, names: seq<string>): (r: seq<string>)
    ensures forall n :: n in r <==> n in names && HasBlock(candidate.blocks, n)
  {
    if |names| == 0 then []
    else
      var prev := PresentNames(candidate, names[..|names| - 1]);
      var n := names[|names| - 1];
      assert forall m :: m in names <==> m in names[..|names| - 1] || m == n;
      if HasBlock(candidate.blocks, n) then prev + [n] else prev
  }

  /** One pair per missing block name. */
  function MissingBlockFindings(fileName: string, missing: seq<string>): (r: seq<string>)
    ensures |r| == 2 * |missing| && |r| % 2 == 0
    ensures forall k :: 0 <= k < |missing| ==>
              r[2 * k] == MissingBlockCode(missing[k]) && r[2 * k + 1] == MissingBlockText(missing[k], fileName)
  {
    if |missing| == 0 then []
    else
      var prev := MissingBlockFindings(fileName, missing[..|missing| - 1]);
      var n := missing[|missing| - 1];
      prev + [MissingBlockCode(n), MissingBlockText(n, fileName)]
  }

  /** The variables of vs that block b does not contain, in order. */
  function NotContained(vs: seq<Variable>, b: Block): (r: seq<Variable>)
    ensures forall v :: v in r <==> v in vs && !HasVariable(b, v)
  {
    if |vs| == 0 then []
    else
      var prev := NotContained(vs[..|vs| - 1], b);
      var v := vs[|vs| - 1];
      assert forall w :: w in vs <==> w in vs[..|vs| - 1] || w == v;
      if HasVariable(b, v) then prev else prev + [v]
  }

  /** The message of a variable finding: "2" unmatched, "3" missing. */
  function VariableText(code: string, v: Variable, blockName: string, fileName: string): string {
    if code == "2" then UnmatchedText(v, blockName, fileName) else MissingText(v, blockName, fileName)
  }

  /** One pair per variable, with the given code digit. */
  function VariableFindings(code: string, vs: seq<Variable>, blockName: string, fileName: string): (r: seq<string>)
    ensures |r| == 2 * |vs| && |r| % 2 == 0
  {
    if |vs| == 0 then []
    else
      var prev := VariableFindings(code, vs[..|vs| - 1], blockName, fileName);
      var v := vs[|vs| - 1];
      prev + [VariableCode(code, v, blockName), VariableText(code, v, blockName, fileName)]
  }

  /**
   * The findings of one block both files have: candidate variables the
   * template block lacks ("2"), then template variables the candidate block
   * lacks ("3"), both naming the template block.
   */
  function BlockFindings(candidate: Dataset, template: Dataset, name: string): seq<string>
    requires HasBlock(template.blocks, name) && HasBlock(candidate.blocks, name)
  {
    var tb := FieldOf(template.blocks, name).value;
    var cb := FieldOf(candidate.blocks, name).value;
    VariableFindings("2", NotContained(cb.vars, tb), tb.BlockName(), candidate.fileName)
    + VariableFindings("3", NotContained(tb.vars, cb), tb.BlockName(), candidate.fileName)
  }

  /** The second loop, over the names found in the candidate. */
  function VariableCheck(candidate: Dataset, template: Dataset, valid: seq<string>): seq<string>
    requires forall n :: n in valid ==> HasBlock(template.blocks, n) && HasBlock(candidate.blocks, n)
  {
    if |valid| == 0 then []
    else VariableCheck(candidate, template, valid[..|valid| - 1]) + BlockFindings(candidate, template, valid[|valid| - 1])
  }

  /** An enumeration of a set, as a for-each loop over a HashSet visits it: every member exactly once. */
  ghost predicate IsOrderOf(order: seq<string>, s: set<string>) {
    (forall i, j :: 0 <= i < j < |order| ==> order[i] != order[j])
    && (forall x :: x in order <==> x in s)
  }

  /** Every finite set of names can be visited in some order. */
  lemma {:induction false} OrderExists(names: set<string>) returns (order: seq<string>)
    ensures IsOrderOf(order, names)
    decreases |names|
  {
    if names == {} {
      order := [];
    } else {
      var n :| n in names;
      var rest := OrderExists(names - {n});
      order := [n] + rest;
      assert forall i :: 0 < i < |order| ==> order[i] == rest[i - 1];
    }
  }

  /** A for-each loop over `names` part-way through: `order` visited, `left` still to come. */
  ghost predicate Visiting(names: set<string>, order: seq<string>, left: set<string>) {
    left <= names
    && (forall x :: x in order <==> x in names && x !in left)
    && (forall i, k :: 0 <= i < k < |order| ==> order[i] != order[k])
  }

  /** The loop visits one more name. */
  lemma VisitingStep(names: set<string>, order: seq<string>, left: set<string>, name: string)
    requires Visiting(names, order, left) && name in left
    ensures Visiting(names, order + [name], left - {name})
  {
    var next := order + [name];
    forall i, k | 0 <= i < k < |next|
      ensures next[i] != next[k]
    {
      if k < |order| {
        assert next[i] == order[i] && next[k] == order[k];
      } else {
        assert next[i] == order[i] && order[i] in order;
      }
    }
  }

  /** A loop with nothing left has visited the set in order. */
  lemma VisitingDone(names: set<string>, order: seq<string>)
    requires Visiting(names, order, {})
    ensures IsOrderOf(order, names)
  {
  }

  /** A loop part-way through a set, the element it is at and an order of what is left make an order of the set. */
  lemma OrderGoesOn(names: set<string>, order: seq<string>, name: string, left: set<string>, rest: seq<string>)
    requires Visiting(names, order, left) && name in left
    requires IsOrderOf(rest, left - {name})
    ensures IsOrderOf(order + [name] + rest, names)
  {
    var full := order + [name] + rest;
    forall i, k | 0 <= i < k < |full|
      ensures full[i] != full[k]
    {
      if k < |order| {
        assert full[i] == order[i] && full[k] == order[k];
      } else if k == |order| {
        assert full[i] == order[i] && order[i] in order;
      } else if i < |order| {
        assert full[i] == order[i] && order[i] in order;
        assert full[k] == rest[k - |order| - 1] && rest[k - |order| - 1] in rest;
      } else if i == |order| {
        assert full[k] == rest[k - |order| - 1] && rest[k - |order| - 1] in rest;
      } else {
        assert full[i] == rest[i - |order| - 1] && full[k] == rest[k - |order| - 1];
      }
    }
  }

  /**
   * reportDifferences, the template's block names visited in `order`: all
   * missing-block findings, then the variable findings block by block.
   */
  function Differences(candidate: Dataset, template: Dataset, order: seq<string>): seq<string>
    requires forall n :: n in order ==> n in BlockNames(template.blocks)
  {
    var present := PresentNames(candidate, order);
    PresentAreBlocks(candidate, template, order);
    MissingBlockFindings(candidate.fileName, MissingNames(candidate, order))
    + VariableCheck(candidate, template, present)
  }

  lemma PresentAreBlocks(candidate: Dataset, template: Dataset, order: seq<string>)
    requires forall n :: n in order ==> n in BlockNames(template.blocks)
    ensures forall n :: n in PresentNames(candidate, order) ==> HasBlock(template.blocks, n) && HasBlock(candidate.blocks, n)
  {
    forall n | n in PresentNames(candidate, order)
      ensures HasBlock(template.blocks, n)
    {
      NameIsBlock(template.blocks, n);
    }
  }

  /** Every name getBlocks reports is found by getField. */
  lemma NameIsBlock(blocks: seq<Block>, n: string)
    requires n in BlockNames(blocks)
    ensures HasBlock(blocks, n)
  {
    var i :| 0 <= i < |blocks| && blocks[i].BlockName() == n;
    EqualsIgnoreCaseReflexive(n);
  }

  lemma EqualsIgnoreCaseReflexive(s: string)
    ensures EqualsIgnoreCase(s, s)
  {
  }

  // ----------------------------------------------------------- properties

  lemma MissingBlockFindingsShape(fileName: string, missing: seq<string>)
    ensures Alternating(MissingBlockFindings(fileName, missing), 1)
  {
    var r := MissingBlockFindings(fileName, missing);
    forall i | 0 <= i < |r|
      ensures KindOf(r[i]) == 1 && (IsCode(r[i]) <==> i % 2 == 0)
    {
      var k := i / 2;
      if i % 2 == 0 {
        assert r[i] == MissingBlockCode(missing[k]);
        assert r[i][0] == '1';
      } else {
        assert i == 2 * k + 1;
        assert r[i] == MissingBlockText(missing[k], fileName);
        assert r[i][0] == 'M' && r[i][8] == 'B';
      }
    }
  }

  lemma UnmatchedPair(v: Variable, blockName: string, fileName: string)
    ensures Alternating([VariableCode("2", v, blockName), VariableText("2", v, blockName, fileName)], 2)
  {
    assert VariableCode("2", v, blockName)[0] == '2';
    assert UnmatchedText(v, blockName, fileName)[0] == 'U';
  }

  lemma MissingPair(v: Variable, blockName: string, fileName: string)
    ensures Alternating([VariableCode("3", v, blockName), VariableText("3", v, blockName, fileName)], 3)
  {
    assert VariableCode("3", v, blockName)[0] == '3';
    assert MissingText(v, blockName, fileName)[0] == 'M' && MissingText(v, blockName, fileName)[8] == 'V';
  }

  lemma AlternatingAppend(a: seq<string>, b: seq<string>, kind: int)
    requires Alternating(a, kind) && Alternating(b, kind)
    ensures Alternating(a + b, kind)
  {
    assert forall i :: |a| <= i < |a + b| ==> (a + b)[i] == b[i - |a|];
  }

  lemma {:induction false} VariableFindingsShape(code: string, vs: seq<Variable>, blockName: string, fileName: string)
    requires code == "2" || code == "3"
    ensures Alternating(VariableFindings(code, vs, blockName, fileName), if code == "2" then 2 else 3)
  {
    if |vs| > 0 {
      var v := vs[|vs| - 1];
      VariableFindingsShape(code, vs[..|vs| - 1], blockName, fileName);
      if code == "2" {
        UnmatchedPair(v, blockName, fileName);
      } else {
        MissingPair(v, blockName, fileName);
      }
      AlternatingAppend(VariableFindings(code, vs[..|vs| - 1], blockName, fileName),
                        [VariableCode(code, v, blockName), VariableText(code, v, blockName, fileName)],
                        if code == "2" then 2 else 3);
    }
  }

  /** Codes and messages of two paired lists stay paired when joined. */
  lemma PairedAppend(a: seq<string>, b: seq<string>)
    requires Paired(a) && Paired(b)
    ensures Paired(a + b)
  {
    assert forall i :: |a| <= i < |a + b| ==> (a + b)[i] == b[i - |a|];
  }

  /** The variable findings of a block, and of several blocks in a row. */
  predicate VariableKinds(r: seq<string>) {
    Paired(r) && forall i :: 0 <= i < |r| ==> KindOf(r[i]) == 2 || KindOf(r[i]) == 3
  }

  lemma UnmatchedThenMissing(u: seq<string>, m: seq<string>)
    requires Alternating(u, 2) && Alternating(m, 3)
    ensures VariableKinds(u + m)
    ensures forall i, j :: 0 <= i < j < |u + m| && KindOf((u + m)[i]) == 3 ==> KindOf((u + m)[j]) == 3
  {
    PairedAppend(u, m);
    assert forall i :: |u| <= i < |u + m| ==> (u + m)[i] == m[i - |u|];
  }

  /** Within one block: all unmatched findings, then all missing ones. */
  lemma BlockFindingsShape(candidate: Dataset, template: Dataset, name: string)
    requires HasBlock(template.blocks, name) && HasBlock(candidate.blocks, name)
    ensures var r := BlockFindings(candidate, template, name);
            VariableKinds(r) && forall i, j :: 0 <= i < j < |r| && KindOf(r[i]) == 3 ==> KindOf(r[j]) == 3
  {
    var tb := FieldOf(template.blocks, name).value;
    var cb := FieldOf(candidate.blocks, name).value;
    VariableFindingsShape("2", NotContained(cb.vars, tb), tb.BlockName(), candidate.fileName);
    VariableFindingsShape("3", NotContained(tb.vars, cb), tb.BlockName(), candidate.fileName);
    UnmatchedThenMissing(VariableFindings("2", NotContained(cb.vars, tb), tb.BlockName(), candidate.fileName),
                         VariableFindings("3", NotContained(tb.vars, cb), tb.BlockName(), candidate.fileName));
  }

  lemma VariableKindsAppend(a: seq<string>, b: seq<string>)
    requires VariableKinds(a) && VariableKinds(b)
    ensures VariableKinds(a + b)
  {
    PairedAppend(a, b);
    assert forall i :: |a| <= i < |a + b| ==> (a + b)[i] == b[i - |a|];
  }

  lemma {:induction false} VariableCheckShape(candidate: Dataset, template: Dataset, valid: seq<string>)
    requires forall n :: n in valid ==> HasBlock(template.blocks, n) && HasBlock(candidate.blocks, n)
    ensures VariableKinds(VariableCheck(candidate, template, valid))
  {
    if |valid| > 0 {
      VariableCheckShape(candidate, template, valid[..|valid| - 1]);
      BlockFindingsShape(candidate, template, valid[|valid| - 1]);
      VariableKindsAppend(VariableCheck(candidate, template, valid[..|valid| - 1]),
                          BlockFindings(candidate, template, valid[|valid| - 1]));
    }
  }

  lemma BlocksThenVariables(a: seq<string>, b: seq<string>)
    requires Alternating(a, 1) && VariableKinds(b)
    ensures Paired(a + b)
    ensures forall i, j :: 0 <= i < j < |a + b| && KindOf((a + b)[j]) == 1 ==> KindOf((a + b)[i]) == 1
  {
    PairedAppend(a, b);
    assert forall i :: |a| <= i < |a + b| ==> (a + b)[i] == b[i - |a|];
  }

  /**
   * The result has even length with codes at even positions and messages at
   * odd ones, and every missing-block finding comes before every variable finding.
   */
  lemma DifferencesShape(candidate: Dataset, template: Dataset, order: seq<string>)
    requires forall n :: n in order ==> n in BlockNames(template.blocks)
    ensures var r := Differences(candidate, template, order);
            |r| % 2 == 0 && (forall i :: 0 <= i < |r| ==> (IsCode(r[i]) <==> i % 2 == 0))
            && (forall i, j :: 0 <= i < j < |r| && KindOf(r[j]) == 1 ==> KindOf(r[i]) == 1)
  {
    MissingBlockFindingsShape(candidate.fileName, MissingNames(candidate, order));
    PresentAreBlocks(candidate, template, order);
    VariableCheckShape(candidate, template, PresentNames(candidate, order));
    BlocksThenVariables(MissingBlockFindings(candidate.fileName, MissingNames(candidate, order)),
                        VariableCheck(candidate, template, PresentNames(candidate, order)));
  }

  /** A template block the candidate lacks is reported as missing. */
  lemma MissingBlocksReported(candidate: Dataset, template: Dataset, order: seq<string>, name: string)
    requires forall n :: n in order ==> n in BlockNames(template.blocks)
    requires name in order && !HasBlock(candidate.blocks, name)
    ensures MissingBlockCode(name) in Differences(candidate, template, order)
  {
    var m := MissingNames(candidate, order);
    var d := Differences(candidate, template, order);
    var k :| 0 <= k < |m| && m[k] == name;
    assert d[2 * k] == MissingBlockFindings(candidate.fileName, m)[2 * k];
  }

  /** A file compared with itself has no differences. */
  lemma NoDifferencesWithItself(d: Dataset, order: seq<string>)
    requires forall n :: n in order ==> n in BlockNames(d.blocks)
    ensures Differences(d, d, order) == []
  {
    forall n | n in order
      ensures HasBlock(d.blocks, n)
    {
      NameIsBlock(d.blocks, n);
    }
    NoneMissing(d, order);
    PresentAreBlocks(d, d, order);
    SelfVariableCheck(d, PresentNames(d, order));
  }

  lemma {:induction false} SelfVariableCheck(d: Dataset, valid: seq<string>)
    requires forall n :: n in valid ==> HasBlock(d.blocks, n)
    ensures VariableCheck(d, d, valid) == []
  {
    if |valid| > 0 {
      SelfVariableCheck(d, valid[..|valid| - 1]);
      var b := FieldOf(d.blocks, valid[|valid| - 1]).value;
      SelfContained(b);
    }
  }

  /** Every variable of a block is contained in the block itself. */
  lemma SelfContained(b: Block)
    ensures NotContained(b.vars, b) == []
  {
    forall i | 0 <= i < |b.vars|
      ensures HasVariable(b, b.vars[i])
    {
      EqualsIsEquivalence(b.vars[i], b.vars[i], b.vars[i]);
    }
    AllContained(b.vars, b);
  }

  lemma {:induction false} AllContained(vs: seq<Variable>, b: Block)
    requires forall i :: 0 <= i < |vs| ==> HasVariable(b, vs[i])
    ensures NotContained(vs, b) == []
  {
    if |vs| > 0 {
      AllContained(vs[..|vs| - 1], b);
    }
  }

  lemma {:induction false} NoneMissing(candidate: Dataset, order: seq<string>)
    requires forall n :: n in order ==> HasBlock(candidate.blocks, n)
    ensures MissingNames(candidate, order) == []
  {
    if |order| > 0 {
      NoneMissing(candidate, order[..|order| - 1]);
    }
  }

  /** VariableCheck over one more name: that block's findings are appended. */
  lemma VariableCheckStep(candidate: Dataset, template: Dataset, valid: seq<string>, i: nat)
    requires i < |valid|
    requires forall n :: n in valid ==> HasBlock(template.blocks, n) && HasBlock(candidate.blocks, n)
    ensures VariableCheck(candidate, template, valid[..i + 1])
            == VariableCheck(candidate, template, valid[..i]) + BlockFindings(candidate, template, valid[i])
  {
    assert valid[..i + 1][..i] == valid[..i];
  }

  /**
   * A block only the candidate has does not change the findings, wherever it
   * sits in the candidate's block order, since only template blocks are visited.
   */
  lemma CandidateOnlyBlockIgnored(candidate: Dataset, template: Dataset, order: seq<string>, b: Block, k: nat)
    requires forall n :: n in order ==> n in BlockNames(template.blocks)
    requires forall n :: n in BlockNames(template.blocks) ==> !EqualsIgnoreCase(b.BlockName(), n)
    requires k <= |candidate.blocks|
    ensures var more := candidate.(blocks := candidate.blocks[..k] + [b] + candidate.blocks[k..]);
            Differences(more, template, order) == Differences(candidate, template, order)
  {
    var more := candidate.(blocks := candidate.blocks[..k] + [b] + candidate.blocks[k..]);
    forall n | n in order
      ensures HasBlock(more.blocks, n) == HasBlock(candidate.blocks, n)
      ensures FieldOf(more.blocks, n) == FieldOf(candidate.blocks, n)
    {
      InsertedBlockInvisible(candidate.blocks, b, k, n);
    }
    NamesSame(candidate, more, order);
    PresentAreBlocks(candidate, template, order);
    VariableCheckSame(candidate, more, template, PresentNames(candidate, order));
  }

  lemma {:induction false} NamesSame(c1: Dataset, c2: Dataset, order: seq<string>)
    requires forall n :: n in order ==> HasBlock(c1.blocks, n) == HasBlock(c2.blocks, n)
    ensures MissingNames(c1, order) == MissingNames(c2, order)
    ensures PresentNames(c1, order) == PresentNames(c2, order)
  {
    if |order| > 0 {
      NamesSame(c1, c2, order[..|order| - 1]);
    }
  }

  lemma {:induction false} VariableCheckSame(c1: Dataset, c2: Dataset, template: Dataset, valid: seq<string>)
    requires c1.fileName == c2.fileName
    requires forall n :: n in valid ==> HasBlock(template.blocks, n) && HasBlock(c1.blocks, n)
    requires forall n :: n in valid ==> HasBlock(c2.blocks, n) && FieldOf(c1.blocks, n) == FieldOf(c2.blocks, n)
    ensures VariableCheck(c1, template, valid) == VariableCheck(c2, template, valid)
  {
    if |valid| > 0 {
      VariableCheckSame(c1, c2, template, valid[..|valid| - 1]);
    }
  }

  /** Inserting a block whose name matches nobody's leaves every lookup as it was. */
  lemma InsertedBlockInvisible(blocks: seq<Block>, b: Block, k: nat, n: string)
    requires k <= |blocks| && !EqualsIgnoreCase(b.BlockName(), n)
    ensures HasBlock(blocks[..k] + [b] + blocks[k..], n) == HasBlock(blocks, n)
    ensures FieldOf(blocks[..k] + [b] + blocks[k..], n) == FieldOf(blocks, n)
  {
    var more := blocks[..k] + [b] + blocks[k..];
    var f := FirstBlockNamed(blocks, n);
    FirstAfterInsert(blocks, b, k, n);
    HasBlockIsFound(blocks, n);
    HasBlockIsFound(more, n);
    if f >= 0 {
      assert more[if f < k then f else f + 1] == blocks[f];
    }
  }

  /** A block is present exactly when getField's search finds one. */
  lemma HasBlockIsFound(blocks: seq<Block>, n: string)
    ensures HasBlock(blocks, n) <==> FirstBlockNamed(blocks, n) >= 0
  {
    var f := FirstBlockNamed(blocks, n);
    if f >= 0 {
      assert EqualsIgnoreCase(blocks[f].BlockName(), n);
    }
  }

  lemma {:induction false} FirstAfterInsert(blocks: seq<Block>, b: Block, k: nat, n: string)
    requires k <= |blocks| && !EqualsIgnoreCase(b.BlockName(), n)
    ensures var f := FirstBlockNamed(blocks, n);
            FirstBlockNamed(blocks[..k] + [b] + blocks[k..], n) == if f < 0 then -1 else if f < k then f else f + 1
  {
    var more := blocks[..k] + [b] + blocks[k..];
    if k == 0 {
      assert more[0] == b && more[1..] == blocks;
    } else if EqualsIgnoreCase(blocks[0].BlockName(), n) {
      assert more[0] == blocks[0];
    } else {
      assert more[0] == blocks[0];
      assert more[1..] == blocks[1..][..k - 1] + [b] + blocks[1..][k - 1..];
      FirstAfterInsert(blocks[1..], b, k - 1, n);
      var f, g := FirstBlockNamed(blocks[1..], n), FirstBlockNamed(more[1..], n);
      assert FirstBlockNamed(blocks, n) == if f < 0 then -1 else f + 1;
      assert FirstBlockNamed(more, n) == if g < 0 then -1 else g + 1;
    }
  }

  // ------------------------------------------------- findings, one by one

  /** A readable message: it begins with an upper-case letter. */
  predicate IsWorded(s: string) { |s| > 0 && 'A' <= s[0] <= 'Z' }

  /** The strings at the odd positions, the messages, are all worded. */
  predicate Worded(r: seq<string>) {
    forall i :: 0 <= i < |r| && i % 2 == 1 ==> IsWorded(r[i])
  }

  /** Why reportDifferences emits a code: a block missing, or a variable one of two same-named blocks lacks. */
  datatype Cause = BlockMissing(name: string) | VariableUnmatched(name: string, v: Variable) | VariableMissing(name: string, v: Variable)

  /** c is the code "2" of v: a variable of the candidate's block that the template's block lacks. */
  predicate UnmatchedBy(candidate: Dataset, template: Dataset, name: string, v: Variable, c: string) {
    HasBlock(template.blocks, name) && HasBlock(candidate.blocks, name)
    && v in NotContained(FieldOf(candidate.blocks, name).value.vars, FieldOf(template.blocks, name).value)
    && c == VariableCode("2", v, FieldOf(template.blocks, name).value.BlockName())
  }

  /** c is the code "3" of v: a variable of the template's block that the candidate's block lacks. */
  predicate MissingBy(candidate: Dataset, template: Dataset, name: string, v: Variable, c: string) {
    HasBlock(template.blocks, name) && HasBlock(candidate.blocks, name)
    && v in NotContained(FieldOf(template.blocks, name).value.vars, FieldOf(candidate.blocks, name).value)
    && c == VariableCode("3", v, FieldOf(template.blocks, name).value.BlockName())
  }

  lemma MissingBlockTextWorded(name: string, fileName: string)
    ensures IsWorded(MissingBlockText(name, fileName))
  {
    assert MissingBlockText(name, fileName)[0] == 'M';
  }

  lemma VariableTextWorded(code: string, v: Variable, blockName: string, fileName: string)
    ensures IsWorded(VariableText(code, v, blockName, fileName))
  {
    if code == "2" {
      assert UnmatchedText(v, blockName, fileName)[0] == 'U';
    } else {
      assert MissingText(v, blockName, fileName)[0] == 'M';
    }
  }

  lemma WordedAppend(a: seq<string>, b: seq<string>)
    requires |a| % 2 == 0 && Worded(a) && Worded(b)
    ensures Worded(a + b)
  {
    forall i | 0 <= i < |a + b| && i % 2 == 1
      ensures IsWorded((a + b)[i])
    {
      if i >= |a| {
        assert (a + b)[i] == b[i - |a|] && (i - |a|) % 2 == 1;
      }
    }
  }

  lemma {:induction false} MissingBlockFindingsWorded(fileName: string, missing: seq<string>)
    ensures Worded(MissingBlockFindings(fileName, missing))
  {
    if |missing| > 0 {
      var n := missing[|missing| - 1];
      MissingBlockFindingsWorded(fileName, missing[..|missing| - 1]);
      MissingBlockTextWorded(n, fileName);
      WordedAppend(MissingBlockFindings(fileName, missing[..|missing| - 1]), [MissingBlockCode(n), MissingBlockText(n, fileName)]);
    }
  }

  lemma {:induction false} VariableFindingsWorded(code: string, vs: seq<Variable>, blockName: string, fileName: string)
    ensures Worded(VariableFindings(code, vs, blockName, fileName))
  {
    if |vs| > 0 {
      var v := vs[|vs| - 1];
      VariableFindingsWorded(code, vs[..|vs| - 1], blockName, fileName);
      VariableTextWorded(code, v, blockName, fileName);
      WordedAppend(VariableFindings(code, vs[..|vs| - 1], blockName, fileName),
                   [VariableCode(code, v, blockName), VariableText(code, v, blockName, fileName)]);
    }
  }

  lemma {:induction false} VariableCheckWorded(candidate: Dataset, template: Dataset, valid: seq<string>)
    requires forall n :: n in valid ==> HasBlock(template.blocks, n) && HasBlock(candidate.blocks, n)
    ensures Worded(VariableCheck(candidate, template, valid))
  {
    if |valid| > 0 {
      var name := valid[|valid| - 1];
      var tb := FieldOf(template.blocks, name).value;
      var cb := FieldOf(candidate.blocks, name).value;
      VariableCheckWorded(candidate, template, valid[..|valid| - 1]);
      VariableCheckShape(candidate, template, valid[..|valid| - 1]);
      VariableFindingsWorded("2", NotContained(cb.vars, tb), tb.BlockName(), candidate.fileName);
      VariableFindingsWorded("3", NotContained(tb.vars, cb), tb.BlockName(), candidate.fileName);
      var u := VariableFindings("2", NotContained(cb.vars, tb), tb.BlockName(), candidate.fileName);
      WordedAppend(u, VariableFindings("3", NotContained(tb.vars, cb), tb.BlockName(), candidate.fileName));
      WordedAppend(VariableCheck(candidate, template, valid[..|valid| - 1]), BlockFindings(candidate, template, name));
    }
  }

  /** Every message reportDifferences returns begins with an upper-case letter. */
  lemma DifferencesWorded(candidate: Dataset, template: Dataset, order: seq<string>)
    requires forall n :: n in order ==> n in BlockNames(template.blocks)
    ensures Worded(Differences(candidate, template, order))
  {
    MissingBlockFindingsWorded(candidate.fileName, MissingNames(candidate, order));
    PresentAreBlocks(candidate, template, order);
    VariableCheckWorded(candidate, template, PresentNames(candidate, order));
    WordedAppend(MissingBlockFindings(candidate.fileName, MissingNames(candidate, order)),
                 VariableCheck(candidate, template, PresentNames(candidate, order)));
  }

  /** Pair k of a variable list's findings: the code, then the message, of the k-th variable. */
  lemma {:induction false} VariableFindingsAt(code: string, vs: seq<Variable>, blockName: string, fileName: string, k: nat)
    requires k < |vs|
    ensures var r := VariableFindings(code, vs, blockName, fileName);
            r[2 * k] == VariableCode(code, vs[k], blockName) && r[2 * k + 1] == VariableText(code, vs[k], blockName, fileName)
  {
    if k < |vs| - 1 {
      VariableFindingsAt(code, vs[..|vs| - 1], blockName, fileName, k);
    }
  }

  /**
   * Pair k of the findings of two blocks: the code "2" of a variable of cb
   * that tb lacks, or the code "3" of a variable of tb that cb lacks.
   */
  lemma PairOfBlocks(cb: Block, tb: Block, fileName: string, k: nat) returns (unmatched: bool, v: Variable)
    requires var bn := tb.BlockName();
             2 * k < |VariableFindings("2", NotContained(cb.vars, tb), bn, fileName)
                      + VariableFindings("3", NotContained(tb.vars, cb), bn, fileName)|
    ensures var bn := tb.BlockName();
            var r := VariableFindings("2", NotContained(cb.vars, tb), bn, fileName)
                     + VariableFindings("3", NotContained(tb.vars, cb), bn, fileName);
            if unmatched then v in NotContained(cb.vars, tb) && r[2 * k] == VariableCode("2", v, bn)
            else v in NotContained(tb.vars, cb) && r[2 * k] == VariableCode("3", v, bn)
  {
    var bn := tb.BlockName();
    var un := NotContained(cb.vars, tb);
    var mi := NotContained(tb.vars, cb);
    var u, m := VariableFindings("2", un, bn, fileName), VariableFindings("3", mi, bn, fileName);
    PairsAt(u, m, |un|, k);
    if k < |un| {
      VariableFindingsAt("2", un, bn, fileName, k);
      assert (u + m)[2 * k] == u[2 * k] == VariableCode("2", un[k], bn);
      unmatched, v := true, un[k];
    } else {
      var j := k - |un|;
      VariableFindingsAt("3", mi, bn, fileName, j);
      assert (u + m)[2 * k] == m[2 * j] == VariableCode("3", mi[j], bn);
      unmatched, v := false, mi[j];
    }
  }

  /** Pair k of two lists of pairs, the first holding nu of them. */
  lemma PairsAt<T>(u: seq<T>, m: seq<T>, nu: nat, k: nat)
    requires |u| == 2 * nu && 2 * k < |u| + |m|
    ensures k < nu ==> (u + m)[2 * k] == u[2 * k]
    ensures k >= nu ==> 2 * (k - nu) < |m| && (u + m)[2 * k] == m[2 * (k - nu)]
  {
  }

  /** The findings of one block both files have: each code is an unmatched or a missing variable of that block. */
  lemma BlockFindingsExplained(candidate: Dataset, template: Dataset, name: string, k: nat) returns (v: Variable)
    requires HasBlock(template.blocks, name) && HasBlock(candidate.blocks, name)
    requires 2 * k < |BlockFindings(candidate, template, name)|
    ensures var c := BlockFindings(candidate, template, name)[2 * k];
            UnmatchedBy(candidate, template, name, v, c) || MissingBy(candidate, template, name, v, c)
  {
    var tb := FieldOf(template.blocks, name).value;
    var cb := FieldOf(candidate.blocks, name).value;
    var unmatched;
    unmatched, v := PairOfBlocks(cb, tb, candidate.fileName, k);
  }

  /** c is the code cause accounts for. */
  predicate Explains(candidate: Dataset, template: Dataset, cause: Cause, c: string) {
    match cause
    case BlockMissing(n) => !HasBlock(candidate.blocks, n) && c == MissingBlockCode(n)
    case VariableUnmatched(n, v) => UnmatchedBy(candidate, template, n, v, c)
    case VariableMissing(n, v) => MissingBy(candidate, template, n, v, c)
  }

  /** The second loop's findings: each code is explained by one of the names visited. */
  lemma {:induction false} VariableCheckExplained(candidate: Dataset, template: Dataset, valid: seq<string>, k: nat)
    returns (cause: Cause)
    requires forall n :: n in valid ==> HasBlock(template.blocks, n) && HasBlock(candidate.blocks, n)
    requires 2 * k < |VariableCheck(candidate, template, valid)|
    ensures !cause.BlockMissing? && cause.name in valid
    ensures Explains(candidate, template, cause, VariableCheck(candidate, template, valid)[2 * k])
  {
    var front := valid[..|valid| - 1];
    var last := valid[|valid| - 1];
    var pre := VariableCheck(candidate, template, front);
    var b := BlockFindings(candidate, template, last);
    assert VariableCheck(candidate, template, valid) == pre + b;
    VariableCheckShape(candidate, template, front);
    assert |pre| == 2 * (|pre| / 2);
    PairsAt(pre, b, |pre| / 2, k);
    if k < |pre| / 2 {
      cause := VariableCheckExplained(candidate, template, front, k);
    } else {
      var v := BlockFindingsExplained(candidate, template, last, k - |pre| / 2);
      if UnmatchedBy(candidate, template, last, v, b[2 * (k - |pre| / 2)]) {
        cause := VariableUnmatched(last, v);
      } else {
        cause := VariableMissing(last, v);
      }
    }
  }

  /**
   * The converse of the reports below: every code reportDifferences returns
   * is the missing-block code of a template block the candidate lacks, or the
   * "2"/"3" code of a variable that one of two same-named blocks lacks.
   */
  lemma DifferencesExplained(candidate: Dataset, template: Dataset, order: seq<string>, k: nat) returns (cause: Cause)
    requires forall n :: n in order ==> n in BlockNames(template.blocks)
    requires 2 * k < |Differences(candidate, template, order)|
    ensures cause.name in order && Explains(candidate, template, cause, Differences(candidate, template, order)[2 * k])
  {
    var missing := MissingNames(candidate, order);
    var present := PresentNames(candidate, order);
    var a := MissingBlockFindings(candidate.fileName, missing);
    PresentAreBlocks(candidate, template, order);
    var b := VariableCheck(candidate, template, present);
    assert Differences(candidate, template, order) == a + b;
    PairsAt(a, b, |missing|, k);
    if k < |missing| {
      cause := BlockMissing(missing[k]);
      assert missing[k] in missing;
    } else {
      cause := VariableCheckExplained(candidate, template, present, k - |missing|);
    }
  }

  /** A name the second loop visits contributes all its block's findings. */
  lemma {:induction false} VariableCheckIncludes(candidate: Dataset, template: Dataset, valid: seq<string>, name: string)
    requires forall n :: n in valid ==> HasBlock(template.blocks, n) && HasBlock(candidate.blocks, n)
    requires name in valid
    ensures forall x :: x in BlockFindings(candidate, template, name) ==> x in VariableCheck(candidate, template, valid)
  {
    var front := valid[..|valid| - 1];
    if name != valid[|valid| - 1] {
      assert name in front;
      VariableCheckIncludes(candidate, template, front, name);
    }
  }

  /** A variable of a block both files have, present in the candidate's block and not the template's, is reported with code 2. */
  lemma UnmatchedVariableReported(candidate: Dataset, template: Dataset, order: seq<string>, name: string, v: Variable)
    requires forall n :: n in order ==> n in BlockNames(template.blocks)
    requires name in order && HasBlock(candidate.blocks, name) && HasBlock(template.blocks, name)
    requires v in FieldOf(candidate.blocks, name).value.vars
    requires !HasVariable(FieldOf(template.blocks, name).value, v)
    ensures VariableCode("2", v, FieldOf(template.blocks, name).value.BlockName()) in Differences(candidate, template, order)
  {
    var tb := FieldOf(template.blocks, name).value;
    var cb := FieldOf(candidate.blocks, name).value;
    var un := NotContained(cb.vars, tb);
    var k :| 0 <= k < |un| && un[k] == v;
    VariableFindingsAt("2", un, tb.BlockName(), candidate.fileName, k);
    var u := VariableFindings("2", un, tb.BlockName(), candidate.fileName);
    PairsAt(u, VariableFindings("3", NotContained(tb.vars, cb), tb.BlockName(), candidate.fileName), |un|, k);
    PresentAreBlocks(candidate, template, order);
    VariableCheckIncludes(candidate, template, PresentNames(candidate, order), name);
  }

  /** A variable of the template's block that the candidate's block lacks is reported with code 3. */
  lemma MissingVariableReported(candidate: Dataset, template: Dataset, order: seq<string>, name: string, v: Variable)
    requires forall n :: n in order ==> n in BlockNames(template.blocks)
    requires name in order && HasBlock(candidate.blocks, name) && HasBlock(template.blocks, name)
    requires v in FieldOf(template.blocks, name).value.vars
    requires !HasVariable(FieldOf(candidate.blocks, name).value, v)
    ensures VariableCode("3", v, FieldOf(template.blocks, name).value.BlockName()) in Differences(candidate, template, order)
  {
    var tb := FieldOf(template.blocks, name).value;
    var cb := FieldOf(candidate.blocks, name).value;
    var mi := NotContained(tb.vars, cb);
    var k :| 0 <= k < |mi| && mi[k] == v;
    VariableFindingsAt("3", mi, tb.BlockName(), candidate.fileName, k);
    var u := VariableFindings("2", NotContained(cb.vars, tb), tb.BlockName(), candidate.fileName);
    var m := VariableFindings("3", mi, tb.BlockName(), candidate.fileName);
    PairsAt(u, m, |NotContained(cb.vars, tb)|, |NotContained(cb.vars, tb)| + k);
    PresentAreBlocks(candidate, template, order);
    VariableCheckIncludes(candidate, template, PresentNames(candidate, order), name);
  }

  // ------------------------------------------------------------- the loop

  /** The first for-each loop of reportDifferences. */
  method CheckBlocks(fileToCompare: SlhaFile, names: set<string>)
    returns (found: seq<string>, validBlocks: seq<string>, ghost order: seq<string>)
    ensures IsOrderOf(order, names)
    ensures found == MissingBlockFindings(fileToCompare.fileName, MissingNames(fileToCompare.Contents(), order))
    ensures validBlocks == PresentNames(fileToCompare.Contents(), order)
  {
    found, validBlocks, order := [], [], [];
    ghost var candidate := fileToCompare.Contents();
    var left := names;
    while left != {}
      invariant left <= names
      invariant forall x :: x in order <==> x in names && x !in left
      invariant forall i, j :: 0 <= i < j < |order| ==> order[i] != order[j]
      invariant found == MissingBlockFindings(fileToCompare.fileName, MissingNames(candidate, order))
      invariant validBlocks == PresentNames(candidate, order)
      decreases |left|
    {
      var name :| name in left;
      found, validBlocks := VisitBlock(fileToCompare, candidate, order, name, found, validBlocks);
      order := order + [name];
      left := left - {name};
    }
  }

  /** The body of the first loop for one template block name. */
  method VisitBlock(fileToCompare: SlhaFile, ghost candidate: Dataset, ghost order: seq<string>, name: string,
                    found: seq<string>, validBlocks: seq<string>)
    returns (found': seq<string>, validBlocks': seq<string>)
    requires candidate == fileToCompare.Contents()
    requires found == MissingBlockFindings(fileToCompare.fileName, MissingNames(candidate, order))
    requires validBlocks == PresentNames(candidate, order)
    ensures found' == MissingBlockFindings(fileToCompare.fileName, MissingNames(candidate, order + [name]))
    ensures validBlocks' == PresentNames(candidate, order + [name])
  {
    var contained := fileToCompare.ContainsBlock(name);
    CheckBlocksStep(candidate, order, name, fileToCompare.fileName);
    if !contained {
      found', validBlocks' := found + [MissingBlockCode(name), MissingBlockText(name, fileToCompare.fileName)], validBlocks;
    } else {
      found', validBlocks' := found, validBlocks + [name];
    }
  }

  /** One more template block visited: two more lines when the candidate lacks it, else one more valid name. */
  lemma CheckBlocksStep(candidate: Dataset, order: seq<string>, name: string, fileName: string)
    ensures MissingBlockFindings(fileName, MissingNames(candidate, order + [name]))
            == MissingBlockFindings(fileName, MissingNames(candidate, order))
               + (if HasBlock(candidate.blocks, name) then [] else [MissingBlockCode(name), MissingBlockText(name, fileName)])
    ensures PresentNames(candidate, order + [name])
            == PresentNames(candidate, order) + (if HasBlock(candidate.blocks, name) then [name] else [])
  {
    var next := order + [name];
    assert next[..|order|] == order;
    if !HasBlock(candidate.blocks, name) {
      var m := MissingNames(candidate, order);
      assert MissingNames(candidate, next) == m + [name];
      assert (m + [name])[..|m|] == m;
    }
  }

  /** The for-each loops over the two blocks' variables, with the given code digit. */
  method CheckVariables(code: string, vs: seq<Variable>, other: Block, blockName: string, fileName: string)
    returns (found: seq<string>)
    ensures found == VariableFindings(code, NotContained(vs, other), blockName, fileName)
  {
    found := [];
    var i := 0;
    while i < |vs|
      invariant 0 <= i <= |vs|
      invariant found == VariableFindings(code, NotContained(vs[..i], other), blockName, fileName)
    {
      var contained := SearchEqual(other.vars, vs[i]);
      FindingsStep(code, vs, i, other, blockName, fileName);
      if !contained {
        found := found + [VariableCode(code, vs[i], blockName), VariableText(code, vs[i], blockName, fileName)];
      }
      i := i + 1;
    }
    assert vs[..i] == vs;
  }

  /** One more variable looked up: two more lines exactly when the other block lacks it. */
  lemma FindingsStep(code: string, vs: seq<Variable>, i: nat, other: Block, blockName: string, fileName: string)
    requires i < |vs|
    ensures VariableFindings(code, NotContained(vs[..i + 1], other), blockName, fileName)
            == VariableFindings(code, NotContained(vs[..i], other), blockName, fileName)
               + (if HasVariable(other, vs[i]) then []
                  else [VariableCode(code, vs[i], blockName), VariableText(code, vs[i], blockName, fileName)])
  {
    assert vs[..i + 1][..i] == vs[..i];
    if !HasVariable(other, vs[i]) {
      var nc := NotContained(vs[..i], other);
      assert (nc + [vs[i]])[..|nc|] == nc;
    }
  }

  /** The body of the second loop, for one block name. */
  method CheckBlock(fileToCompare: SlhaFile, template: SlhaFile, name: string) returns (found: seq<string>)
    requires HasBlock(template.data, name) && HasBlock(fileToCompare.data, name)
    ensures found == BlockFindings(fileToCompare.Contents(), template.Contents(), name)
  {
    var templateBlock := template.GetField(name);
    var compareBlock := fileToCompare.GetField(name);
    var tb, cb := templateBlock.value, compareBlock.value;
    var unmatched := CheckVariables("2", cb.vars, tb, tb.BlockName(), fileToCompare.fileName);
    var missing := CheckVariables("3", tb.vars, cb, tb.BlockName(), fileToCompare.fileName);
    found := unmatched + missing;
  }

  /** The second for-each loop of reportDifferences, over the names both files have. */
  method CheckValidBlocks(fileToCompare: SlhaFile, template: SlhaFile, validBlocks: seq<string>) returns (found: seq<string>)
    requires forall n :: n in validBlocks ==> HasBlock(template.data, n) && HasBlock(fileToCompare.data, n)
    ensures found == VariableCheck(fileToCompare.Contents(), template.Contents(), validBlocks)
  {
    ghost var candidate, tmpl := fileToCompare.Contents(), template.Contents();
    found := [];
    var i := 0;
    while i < |validBlocks|
      invariant 0 <= i <= |validBlocks|
      invariant found == VariableCheck(candidate, tmpl, validBlocks[..i])
    {
      var more := CheckBlock(fileToCompare, template, validBlocks[i]);
      VariableCheckStep(candidate, tmpl, validBlocks, i);
      found := found + more;
      i := i + 1;
    }
    assert validBlocks[..i] == validBlocks;
  }

  /**
   * reportDifferences(fileToCompare, template). The order in which the
   * template's block names are visited is the HashSet's and is returned.
   */
  method ReportDifferences(fileToCompare: SlhaFile, template: SlhaFile)
    returns (foundErrors: seq<string>, ghost order: seq<string>)
    ensures IsOrderOf(order, BlockNames(template.data))
    ensures forall n :: n in order ==> n in BlockNames(template.data)
    ensures foundErrors == Differences(fileToCompare.Contents(), template.Contents(), order)
  {
    var names := template.GetBlocks();
    var validBlocks;
    foundErrors, validBlocks, order := CheckBlocks(fileToCompare, names);
    PresentAreBlocks(fileToCompare.Contents(), template.Contents(), order);
    var rest := CheckValidBlocks(fileToCompare, template, validBlocks);
    foundErrors := foundErrors + rest;
  }
}
