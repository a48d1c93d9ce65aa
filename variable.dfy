/**
 * The Variable value object (src/binaryUtil/Variable.java): three PDG codes,
 * the value text, a description and the name of the block it belongs to.
 * Identity is the four identifying fields compared ignoring case.
 */
module Variables {
  import opened Wrappers
  import opened JavaStrings

  datatype Variable = Variable(
    pdg: string,
    pdg2: string,
    pdg3: string,
    value: Option<string>,
    description: string,
    block: string)

  /** How the constructor stores a PDG code argument (None is Java's null). */
  function NormalisePdg(p: Option<string>): (r: string)
    ensures p.None? || p.value == [] ==> r == "0"
    ensures p.Some? && p.value != [] ==> r == Trim(p.value)
  {
    if p.None? || EqualsIgnoreCase(p.value, "") then "0" else Trim(p.value)
  }

  /** How the constructor stores the description and the block name. */
  function NormaliseText(t: Option<string>): (r: string)
    ensures t.None? ==> r == []
    ensures t.Some? ==> r == Trim(t.value)
  {
    if t.None? then "" else Trim(t.value)
  }

  /** The constructor: the value is kept as given, everything else is normalised. */
  function NewVariable(pdg: Option<string>, pdg2: Option<string>, pdg3: Option<string>,
                       value: Option<string>, description: Option<string>, block: Option<string>): (r: Variable)
    ensures r.value == value
    ensures IsNormal(r)
  {
    Variable(NormalisePdg(pdg), NormalisePdg(pdg2), NormalisePdg(pdg3), value,
             NormaliseText(description), NormaliseText(block))
  }

  predicate Trimmed(s: string) {
    s == [] || (!IsTrimmable(s[0]) && !IsTrimmable(s[|s| - 1]))
  }

  /** What every constructed Variable satisfies: all text fields are trimmed. */
  predicate IsNormal(v: Variable) {
    Trimmed(v.pdg) && Trimmed(v.pdg2) && Trimmed(v.pdg3) && Trimmed(v.description) && Trimmed(v.block)
  }

  /**
   * Constructing again from a constructed Variable's own fields gives it back,
   * unless a PDG argument consisted of blanks only: that one was trimmed to ""
   * and would now become "0".
   */
  lemma NewVariableIdempotent(pdg: Option<string>, pdg2: Option<string>, pdg3: Option<string>,
                              value: Option<string>, description: Option<string>, block: Option<string>)
    requires var v := NewVariable(pdg, pdg2, pdg3, value, description, block);
             v.pdg != [] && v.pdg2 != [] && v.pdg3 != []
    ensures var v := NewVariable(pdg, pdg2, pdg3, value, description, block);
            NewVariable(Some(v.pdg), Some(v.pdg2), Some(v.pdg3), v.value, Some(v.description), Some(v.block)) == v
  {
    var v := NewVariable(pdg, pdg2, pdg3, value, description, block);
    NormalisedPdgKept(v.pdg);
    NormalisedPdgKept(v.pdg2);
    NormalisedPdgKept(v.pdg3);
    NormalisedTextKept(v.description);
    NormalisedTextKept(v.block);
  }

  /** A stored, non-empty PDG code is stored unchanged when given again. */
  lemma NormalisedPdgKept(p: string)
    requires Trimmed(p) && p != []
    ensures NormalisePdg(Some(p)) == p
  {
    TrimOfTrimmed(p);
  }

  /** A stored description or block name is stored unchanged when given again. */
  lemma NormalisedTextKept(t: string)
    requires Trimmed(t)
    ensures NormaliseText(Some(t)) == t
  {
    TrimOfTrimmed(t);
  }

  /** A PDG argument made only of blanks is not "empty" to the constructor: it is stored as "". */
  lemma BlankPdgStoredEmpty()
    ensures NewVariable(Some("  "), None, None, None, None, None).pdg == ""
  {
    assert Trim("  ") == Trim(" ") == Trim("") == "";
  }

  /** Variable.equals between two Variables: PDG, PDG2, PDG3 and block, each ignoring case. */
  predicate Equals(a: Variable, b: Variable) {
    EqualsIgnoreCase(b.pdg, a.pdg) && EqualsIgnoreCase(b.pdg2, a.pdg2)
    && EqualsIgnoreCase(b.pdg3, a.pdg3) && EqualsIgnoreCase(b.block, a.block)
  }

  /** Variable.equals(Object): an argument that is not a Variable (None) is never equal. */
  predicate EqualsObject(a: Variable, o: Option<Variable>) {
    o.Some? && Equals(a, o.value)
  }

  /** The identity of a Variable: its identifying fields, case-folded. The model's maps are keyed by it. */
  datatype VarKey = VarKey(pdg: string, pdg2: string, pdg3: string, block: string)

  function Key(v: Variable): VarKey {
    VarKey(Fold(v.pdg), Fold(v.pdg2), Fold(v.pdg3), Fold(v.block))
  }

  /** equals holds exactly when the keys agree; value and description play no part. */
  lemma EqualsIffSameKey(a: Variable, b: Variable)
    ensures Equals(a, b) <==> Key(a) == Key(b)
    ensures Equals(a, b) <==> Equals(a.(value := None, description := ""), b)
  {
  }

  lemma EqualsIsEquivalence(a: Variable, b: Variable, c: Variable)
    ensures Equals(a, a)
    ensures Equals(a, b) ==> Equals(b, a)
    ensures Equals(a, b) && Equals(b, c) ==> Equals(a, c)
  {
    EqualsIffSameKey(a, b);
    EqualsIffSameKey(b, c);
    EqualsIffSameKey(a, c);
  }

  /** Variable.toString: "BLOCK: b " for a non-empty block, then " Description: d" for a non-empty description. */
  function ToString(v: Variable): (r: string)
    ensures r == [] <==> v.block == [] && v.description == []
  {
    (if v.block != "" then "BLOCK: " + v.block + " " else "")
    + (if v.description != "" then " Description: " + v.description else "")
  }

  /** What toString shows: nothing of the PDGs or the value, the block first, the description last. */
  lemma ToStringShape(v: Variable)
    ensures ToString(v) == [] <==> v.block == [] && v.description == []
    ensures v.block != [] ==> "BLOCK: " + v.block <= ToString(v)
    ensures v.block == [] && v.description != [] ==> ToString(v) == " Description: " + v.description
    ensures forall p, q, r, x :: ToString(v.(pdg := p, pdg2 := q, pdg3 := r, value := x)) == ToString(v)
  {
    if v.block != [] {
      var head := "BLOCK: " + v.block;
      assert ToString(v) == head + (" " + (if v.description != "" then " Description: " + v.description else ""));
    }
  }

  // --------------------------------------------------------------- hashCode

  /** The char-sum loop of hashCode over the block name, with Java int wrap-around. */
  method ScalingFactor(v: Variable) returns (sf: int)
    ensures sf == Wrap32(CharSum(v.block))
  {
    var sum := 0;
    var i := 0;
    while i < |v.block|
      invariant 0 <= i <= |v.block|
      invariant sum == CharSum(v.block[..i])
    {
      assert v.block[..i + 1][..i] == v.block[..i];
      sum := sum + v.block[i] as int;
      i := i + 1;
    }
    assert v.block[..i] == v.block;
    sf := Wrap32(sum);
  }

  /**
   * What hashCode reads: the PDG concatenation handed to Double.parseDouble and
   * the block's char sum. The square root taken of their product is not modelled.
   */
  function HashInput(v: Variable): (r: (string, int))
  {
    (v.pdg + v.pdg2 + v.pdg3, Wrap32(CharSum(v.block)))
  }

  lemma HashIgnoresValueAndDescription(v: Variable, x: Option<string>, d: string)
    ensures HashInput(v.(value := x, description := d)) == HashInput(v)
  {
  }

  /**
   * hashCode returns instead of throwing NumberFormatException: the joined
   * PDG codes are a literal Double.parseDouble accepts. Every HashMap lookup
   * of the Variable calls hashCode first.
   */
  predicate Hashable(v: Variable) {
    IsDoubleLiteral(HashInput(v).0)
  }

  /**
   * For PDG codes Integer.parseInt accepts, the ones a stored entry holds,
   * hashCode throws exactly when the second or the third code carries a
   * sign, as a negative daughter code of a DECAY line does.
   */
  lemma IntCodesHashable(v: Variable)
    requires ParseInt(v.pdg).Some? && ParseInt(v.pdg2).Some? && ParseInt(v.pdg3).Some?
    ensures Hashable(v) <==> v.pdg2[0] != '-' && v.pdg2[0] != '+' && v.pdg3[0] != '-' && v.pdg3[0] != '+'
  {
    IntCodesJoinedParse(v.pdg, v.pdg2, v.pdg3);
  }

  /**
   * Equal Variables can differ in whether hashCode throws: "NaN" is a double
   * literal, "nan" is not, yet equals ignores case.
   */
  lemma EqualsIgnoresHashable()
    ensures var a := Variable("NaN", "", "", None, "", "MASS");
            var b := Variable("nan", "", "", None, "", "MASS");
            Equals(a, b) && Hashable(a) && !Hashable(b)
  {
    var a := Variable("NaN", "", "", None, "", "MASS");
    var b := Variable("nan", "", "", None, "", "MASS");
    assert HashInput(a).0 == "NaN" && HashInput(b).0 == "nan";
    TrimOfTrimmed("NaN");
    TrimOfTrimmed("nan");
    assert Fold("NaN")[0] == Fold("nan")[0];
    assert Fold("NaN")[1] == Fold("nan")[1];
    assert Fold("NaN")[2] == Fold("nan")[2];
  }

  /** r is what (int) Math.sqrt(x) gives for a non-negative integral x: the floor of the root. */
  predicate IsFloorSqrt(x: int, r: int) {
    0 <= r && r * r <= x < (r + 1) * (r + 1)
  }

  /**
   * hashCode is not consistent with equals: the char sum is taken case-sensitively,
   * so "MASS" and "mass" variables are equal but hash to 175 and 208.
   */
  lemma HashCodeDisagreesWithEquals()
    ensures var a := NewVariable(Some("1"), Some("0"), Some("0"), None, None, Some("MASS"));
            var b := NewVariable(Some("1"), Some("0"), Some("0"), None, None, Some("mass"));
            Equals(a, b)
            && HashInput(a).0 == HashInput(b).0 == "100"
            && HashInput(a).1 == 308 && HashInput(b).1 == 436
            && IsFloorSqrt(100 * 308, 175) && IsFloorSqrt(100 * 436, 208)
  {
    var a := NewVariable(Some("1"), Some("0"), Some("0"), None, None, Some("MASS"));
    var b := NewVariable(Some("1"), Some("0"), Some("0"), None, None, Some("mass"));
    MassVariables();
    MassFoldsAlike();
    MassCharSums();
  }

  /** The two variables of the example keep their PDG codes and block names. */
  lemma MassVariables()
    ensures var a := NewVariable(Some("1"), Some("0"), Some("0"), None, None, Some("MASS"));
            var b := NewVariable(Some("1"), Some("0"), Some("0"), None, None, Some("mass"));
            a.pdg == b.pdg == "1" && a.pdg2 == b.pdg2 == "0" && a.pdg3 == b.pdg3 == "0"
            && a.block == "MASS" && b.block == "mass"
  {
    TrimOfTrimmed("1");
    TrimOfTrimmed("0");
    TrimOfTrimmed("MASS");
    TrimOfTrimmed("mass");
  }

  lemma MassFoldsAlike()
    ensures Fold("MASS") == Fold("mass")
  {
    assert Fold("MASS")[0] == Fold("mass")[0];
    assert Fold("MASS")[1] == Fold("mass")[1];
    assert Fold("MASS")[2] == Fold("mass")[2];
    assert Fold("MASS")[3] == Fold("mass")[3];
  }

  lemma MassCharSums()
    ensures CharSum("MASS") == 308 && CharSum("mass") == 436
  {
    assert "MASS"[..3] == "MAS" && "MAS"[..2] == "MA" && "MA"[..1] == "M" && "M"[..0] == "";
    assert "mass"[..3] == "mas" && "mas"[..2] == "ma" && "ma"[..1] == "m" && "m"[..0] == "";
  }

  // ------------------------------------------------- hashCode as intended

  /**
   * A hashCode consistent with equals: the char sums of the identifying
   * fields as equals compares them (case-folded), combined with Java's
   * multiplier 31 and wrapped to an int. It parses nothing, so no Variable
   * makes it throw.
   */
  function CorrectedHashCode(v: Variable): (h: int)
    ensures IsInt32(h)
  {
    KeyHash(Key(v))
  }

  /** The hash of an identity: it reads nothing but the folded fields. */
  function KeyHash(k: VarKey): int {
    Wrap32(((CharSum(k.pdg) * 31 + CharSum(k.pdg2)) * 31 + CharSum(k.pdg3)) * 31 + CharSum(k.block))
  }

  /**
   * The corrected hashCode keeps the contract equals needs: equal Variables
   * hash alike, and since it is defined for every Variable, equal ones are
   * never told apart by one of them throwing.
   */
  lemma CorrectedHashRespectsEquals(a: Variable, b: Variable)
    requires Equals(a, b)
    ensures CorrectedHashCode(a) == CorrectedHashCode(b)
    ensures CorrectedHashCode(a.(value := None, description := "")) == CorrectedHashCode(a)
  {
    EqualsIffSameKey(a, b);
  }

  /**
   * Both ways the as-written hashCode breaks with equals are repaired: the
   * MASS/mass pair hashes differently as written and alike corrected, and of
   * the NaN/nan pair only one can be hashed as written, both corrected.
   */
  lemma CorrectedHashRepairsExamples()
    ensures var a := NewVariable(Some("1"), Some("0"), Some("0"), None, None, Some("MASS"));
            var b := NewVariable(Some("1"), Some("0"), Some("0"), None, None, Some("mass"));
            Equals(a, b) && HashInput(a) != HashInput(b) && CorrectedHashCode(a) == CorrectedHashCode(b)
    ensures var a := Variable("NaN", "", "", None, "", "MASS");
            var b := Variable("nan", "", "", None, "", "MASS");
            Equals(a, b) && Hashable(a) != Hashable(b) && CorrectedHashCode(a) == CorrectedHashCode(b)
  {
    HashCodeDisagreesWithEquals();
    EqualsIgnoresHashable();
    CorrectedHashRespectsEquals(NewVariable(Some("1"), Some("0"), Some("0"), None, None, Some("MASS")),
                                NewVariable(Some("1"), Some("0"), Some("0"), None, None, Some("mass")));
    CorrectedHashRespectsEquals(Variable("NaN", "", "", None, "", "MASS"), Variable("nan", "", "", None, "", "MASS"));
  }
}
