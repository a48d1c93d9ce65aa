/**
 * The two kinds of block of an SLHA file (src/binaryUtil/SlhaBlock.java and
 * src/binaryUtil/DecayBlock.java). Both keep an append-only list of Variables
 * and look variables up by identity or by description. The datatype Block is
 * the value of either kind; the classes hold the list the source mutates.
 */
module Blocks {
  import opened Wrappers
  import opened JavaStrings
  import opened Variables
  import opened Thrown

  datatype Block =
    | Plain(name: string, vars: seq<Variable>)
    | Decay(code: string, data: string, description: string, vars: seq<Variable>)
  {
    /** IBlock.BlockName: a plain block's name, a decay block's header description (not its code). */
    function BlockName(): string {
      if Plain? then name else description
    }
  }

  /** The Variable SlhaBlock.addVariable stores: description and block name are trimmed before the constructor runs. */
  function PlainEntry(pdg: string, pdg2: string, pdg3: string, value: string, description: string, blockName: string): Variable {
    NewVariable(Some(pdg), Some(pdg2), Some(pdg3), Some(value), Some(Trim(description)), Some(Trim(blockName)))
  }

  /** The Variable DecayBlock.addVariable stores: the constructor's normalisation only. */
  function DecayEntry(pdg: string, pdg2: string, pdg3: string, value: string, description: string, blockName: string): Variable {
    NewVariable(Some(pdg), Some(pdg2), Some(pdg3), Some(value), Some(description), Some(blockName))
  }

  /** The extra trim in SlhaBlock.addVariable changes nothing: both kinds store the same Variable. */
  lemma PlainEntryIsDecayEntry(pdg: string, pdg2: string, pdg3: string, value: string, description: string, blockName: string)
    ensures PlainEntry(pdg, pdg2, pdg3, value, description, blockName) == DecayEntry(pdg, pdg2, pdg3, value, description, blockName)
  {
    TrimIdempotent(description);
    TrimIdempotent(blockName);
  }

  /** IBlock.containsVariable: some stored Variable equals v. */
  predicate HasVariable(b: Block, v: Variable) {
    exists i :: 0 <= i < |b.vars| && Equals(b.vars[i], v)
  }

  /** Position of the first Variable whose description equals d ignoring case, or -1. */
  function FirstWithDescription(vars: seq<Variable>, d: string): (r: int)
    ensures -1 <= r < |vars|
    ensures r >= 0 ==> EqualsIgnoreCase(vars[r].description, d)
    ensures forall i :: 0 <= i < |vars| && (r == -1 || i < r) ==> !EqualsIgnoreCase(vars[i].description, d)
  {
    if |vars| == 0 then -1
    else if EqualsIgnoreCase(vars[0].description, d) then 0
    else var k := FirstWithDescription(vars[1..], d); if k < 0 then -1 else k + 1
  }

  /** IBlock.getVariable: the first description match, else InvalidParameterException. */
  function VariableWithDescription(b: Block, d: string): (r: Result<Variable, Exception>)
    ensures r.Ok? <==> exists i :: 0 <= i < |b.vars| && EqualsIgnoreCase(b.vars[i].description, d)
    ensures r.Ok? ==> r.value in b.vars && EqualsIgnoreCase(r.value.description, d)
    ensures r.Err? ==> r.error == InvalidParameter
  {
    var i := FirstWithDescription(b.vars, d);
    if i < 0 then Err(InvalidParameter) else Ok(b.vars[i])
  }

  /** Appending a Variable adds exactly the Variables equal to it to what the block contains. */
  lemma ContainsAfterAppend(b: Block, x: Variable, v: Variable)
    ensures HasVariable(b.(vars := b.vars + [x]), v) <==> HasVariable(b, v) || Equals(x, v)
  {
    var vs := b.vars + [x];
    if HasVariable(b, v) {
      var i :| 0 <= i < |b.vars| && Equals(b.vars[i], v);
      assert vs[i] == b.vars[i];
    }
    if Equals(x, v) {
      assert vs[|b.vars|] == x;
    }
  }

  /** Membership depends only on identity: equal Variables are contained alike. */
  lemma ContainsRespectsEquals(b: Block, v: Variable, w: Variable)
    requires Equals(v, w)
    ensures HasVariable(b, v) <==> HasVariable(b, w)
  {
    if HasVariable(b, v) {
      var i :| 0 <= i < |b.vars| && Equals(b.vars[i], v);
      EqualsIsEquivalence(b.vars[i], v, w);
    }
    if HasVariable(b, w) {
      var i :| 0 <= i < |b.vars| && Equals(b.vars[i], w);
      EqualsIsEquivalence(v, w, b.vars[i]);
      EqualsIsEquivalence(b.vars[i], w, v);
    }
  }

  /** The for-each loop of containsVariable, shared by both block kinds. */
  method SearchEqual(vars: seq<Variable>, v: Variable) returns (found: bool)
    ensures found <==> exists i :: 0 <= i < |vars| && Equals(vars[i], v)
  {
    var i := 0;
    while i < |vars|
      invariant 0 <= i <= |vars|
      invariant forall j :: 0 <= j < i ==> !Equals(vars[j], v)
    {
      if Equals(vars[i], v) {
        return true;
      }
      i := i + 1;
    }
    return false;
  }

  /** The for-each loop of getVariable, shared by both block kinds. */
  method SearchDescription(vars: seq<Variable>, d: string) returns (r: Result<Variable, Exception>)
    ensures r == VariableWithDescription(Plain("", vars), d)
  {
    var i := 0;
    while i < |vars|
      invariant 0 <= i <= |vars|
      invariant forall j :: 0 <= j < i ==> !EqualsIgnoreCase(vars[j].description, d)
    {
      if EqualsIgnoreCase(vars[i].description, d) {
        FirstWithDescriptionIs(vars, d, i);
        return Ok(vars[i]);
      }
      i := i + 1;
    }
    FirstWithDescriptionIs(vars, d, -1);
    return Err(InvalidParameter);
  }

  /** FirstWithDescription is the only index with its defining property. */
  lemma FirstWithDescriptionIs(vars: seq<Variable>, d: string, k: int)
    requires -1 <= k < |vars|
    requires k >= 0 ==> EqualsIgnoreCase(vars[k].description, d)
    requires forall i :: 0 <= i < |vars| && (k == -1 || i < k) ==> !EqualsIgnoreCase(vars[i].description, d)
    ensures FirstWithDescription(vars, d) == k
  {
  }

  /** An SLHA "BLOCK name" section. */
  class SlhaBlock {
    const name: string
    var vars: seq<Variable>
    var numberOfVariables: int

    /** numberOfVariables is set to 0 by the constructor and never incremented. */
    ghost predicate Valid()
      reads this
    {
      numberOfVariables == 0
    }

    function Value(): Block
      reads this
    {
      Plain(name, vars)
    }

    constructor (name: string)
      ensures Valid() && Value() == Plain(name, [])
    {
      this.name := name;
      vars := [];
      numberOfVariables := 0;
    }

    /** Appends one Variable, with the description and block name trimmed first; always answers false. */
    method AddVariable(pdg: string, pdg2: string, pdg3: string, value: string, description: string, blockName: string)
      returns (r: bool)
      modifies this
      ensures vars == old(vars) + [PlainEntry(pdg, pdg2, pdg3, value, description, blockName)]
      ensures numberOfVariables == old(numberOfVariables)
      ensures !r
    {
      vars := vars + [PlainEntry(pdg, pdg2, pdg3, value, description, blockName)];
      r := false;
    }

    method GetVariables() returns (r: seq<Variable>)
      ensures r == Value().vars
    {
      r := vars;
    }

    method BlockName() returns (r: string)
      ensures r == name == Value().BlockName()
    {
      r := name;
    }

    /** The char sum of the name, accumulated in an int. */
    method HashCode() returns (h: int)
      ensures h == Wrap32(CharSum(name))
    {
      var val := 0;
      var i := 0;
      while i < |name|
        invariant 0 <= i <= |name|
        invariant val == CharSum(name[..i])
      {
        assert name[..i + 1][..i] == name[..i];
        val := val + name[i] as int;
        i := i + 1;
      }
      assert name[..i] == name;
      h := Wrap32(val);
    }

    method ContainsVariable(v: Variable) returns (r: bool)
      ensures r == HasVariable(Value(), v)
    {
      r := SearchEqual(vars, v);
    }

    method GetVariable(d: string) returns (r: Result<Variable, Exception>)
      ensures r == VariableWithDescription(Value(), d)
    {
      r := SearchDescription(vars, d);
    }

    method GetNumberOfVariables() returns (n: int)
      requires Valid()
      ensures n == 0
    {
      n := numberOfVariables;
    }
  }

  /** An SLHA "DECAY code width # description" section. */
  class DecayBlock {
    const code: string
    const data: string
    const description: string
    var vars: seq<Variable>

    function Value(): Block
      reads this
    {
      Decay(code, data, description, vars)
    }

    /** Stores the header code, data and description as given, with no variables. */
    constructor (code: string, data: string, description: string)
      ensures Value() == Decay(code, data, description, [])
    {
      this.code := code;
      this.data := data;
      this.description := description;
      vars := [];
    }

    /** Appends one Variable (no extra trimming) and always answers true. */
    method AddVariable(pdg: string, pdg2: string, pdg3: string, value: string, description: string, blockName: string)
      returns (r: bool)
      modifies this
      ensures vars == old(vars) + [DecayEntry(pdg, pdg2, pdg3, value, description, blockName)]
      ensures r
    {
      vars := vars + [DecayEntry(pdg, pdg2, pdg3, value, description, blockName)];
      r := true;
    }

    method GetVariables() returns (r: seq<Variable>)
      ensures r == Value().vars
    {
      r := vars;
    }

    method BlockName() returns (r: string)
      ensures r == description == Value().BlockName()
    {
      r := description;
    }

    method ContainsVariable(v: Variable) returns (r: bool)
      ensures r == HasVariable(Value(), v)
    {
      r := SearchEqual(vars, v);
    }

    method GetVariable(d: string) returns (r: Result<Variable, Exception>)
      ensures r == VariableWithDescription(Value(), d)
    {
      r := SearchDescription(vars, d);
    }
  }
}
