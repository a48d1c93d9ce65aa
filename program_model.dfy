/**
 * The parts of src/binaryUtil/ProgramModel.java that are plain logic: the
 * FileComparator that orders the SLHA files by the number in their name,
 * and the name tests of run (which files go into the store) and of
 * writeDataFile (which files get a line in the output).
 */
module ProgramModel {
  import opened Wrappers
  import opened JavaStrings
  import opened StoreState

  // ------------------------------------------------------------ FileComparator

  /** The name up to its last '.'; None where substring(0, -1) throws (no '.'). */
  function Stem(name: string): (r: Option<string>)
    ensures r.None? <==> '.' !in name
    ensures r.Some? ==> r.value <= name && |r.value| < |name| && name[|r.value|] == '.'
                        && '.' !in name[|r.value| + 1..]
  {
    var i := LastIndexOf(name, '.');
    if i < 0 then None else Some(name[..i])
  }

  /** The last '.' of stem + "." + ext, when ext has none, is the one after the stem. */
  lemma StemOf(stem: string, ext: string)
    requires '.' !in ext
    ensures Stem(stem + "." + ext) == Some(stem)
  {
    var name := stem + "." + ext;
    var i := LastIndexOf(name, '.');
    assert name[|stem|] == '.';
    assert forall j :: |stem| < j < |name| ==> name[j] == ext[j - |stem| - 1];
    assert name[..|stem|] == stem;
  }

  /** The int the stem parses to with Integer.parseInt, when there is one. */
  function StemNumber(name: string): Option<int> {
    match Stem(name)
    case None => None
    case Some(stem) => ParseInt(stem)
  }

  /**
   * FileComparator.compare as written: lVal - rVal in int arithmetic when
   * both stems parse, else String.compareTo of the whole names (any
   * exception in the try block lands there).
   */
  function Compare(left: string, right: string): int {
    match (StemNumber(left), StemNumber(right))
    case (Some(l), Some(r)) => Wrap32(l - r)
    case _ => CompareTo(left, right)
  }

  /** Two numbered names whose numbers differ by less than 2^31 are ordered by number. */
  lemma CompareNumbered(left: string, right: string, l: int, r: int)
    requires StemNumber(left) == Some(l) && StemNumber(right) == Some(r)
    requires IsInt32(l - r)
    ensures Compare(left, right) < 0 <==> l < r
    ensures Compare(left, right) == 0 <==> l == r
  {
  }

  /** A name without a '.' or with a stem that is not an int makes the comparison textual. */
  lemma CompareUnnumbered(left: string, right: string)
    requires StemNumber(left).None? || StemNumber(right).None?
    ensures Compare(left, right) == CompareTo(left, right)
  {
  }

  /** A name "<n>.slha" whose stem parses to n. */
  lemma NumberedName(stem: string, n: int)
    requires ParseInt(stem) == Some(n)
    ensures StemNumber(stem + ".slha") == Some(n)
  {
    StemOf(stem, "slha");
    assert stem + "." + "slha" == stem + ".slha";
  }

  /**
   * Numbered names order numerically, not as text: with two = "2" and
   * ten = "10", "2.slha" comes before "10.slha" although '2' > '1'.
   */
  lemma TwoBeforeTen(two: string, ten: string)
    requires two == "2" && ten == "10"
    ensures Compare(two + ".slha", ten + ".slha") < 0 && CompareTo(two + ".slha", ten + ".slha") > 0
  {
    SmallNumbers();
    NumberedName(two, 2);
    NumberedName(ten, 10);
    CompareNumbered(two + ".slha", ten + ".slha", 2, 10);
  }

  /**
   * The subtraction overflows for numbers 2^31 or more apart, and then the
   * comparator breaks the Comparator contract: for stems that parse to 0
   * and to -2^31 ("0" and "-2147483648", ParseIntMin), both orders of
   * "0.slha" and "-2147483648.slha" compare as "less than".
   */
  lemma CompareOverflows(zero: string, min: string)
    requires ParseInt(zero) == Some(0) && ParseInt(min) == Some(IntMin)
    ensures Compare(zero + ".slha", min + ".slha") < 0
    ensures Compare(min + ".slha", zero + ".slha") < 0
  {
    NumberedName(zero, 0);
    NumberedName(min, IntMin);
    WrapsAtTwoToThe31();
    CompareSubtracts(zero + ".slha", min + ".slha", 0, IntMin);
    CompareSubtracts(min + ".slha", zero + ".slha", IntMin, 0);
  }

  /** Two numbered names compare as their numbers' difference, wrapped to 32 bits. */
  lemma CompareSubtracts(left: string, right: string, l: int, r: int)
    requires StemNumber(left) == Some(l) && StemNumber(right) == Some(r)
    ensures Compare(left, right) == Wrap32(l - r)
  {
  }

  lemma SmallNumbers()
    ensures ParseInt("2") == Some(2) && ParseInt("10") == Some(10)
  {
    assert "10"[..1] == "1";
  }

  lemma WrapsAtTwoToThe31()
    ensures Wrap32(0 - IntMin) == IntMin && Wrap32(IntMin - 0) == IntMin
  {
  }

  lemma ParseIntMin()
    ensures ParseInt("0") == Some(0) && ParseInt("-2147483648") == Some(IntMin)
  {
    assert "-2147483648"[1..] == "2147483648";
    DigitsOfIntMin();
  }

  lemma DigitsOfIntMin()
    ensures AllDigits("2147483648") && DigitsValue("2147483648") == 0x8000_0000
  {
    var s := "2147483648";
    assert s[..9] == "214748364" && s[..8] == "21474836" && s[..7] == "2147483" && s[..6] == "214748";
    assert s[..5] == "21474";
    assert "214748364"[..8] == "21474836" && "21474836"[..7] == "2147483" && "2147483"[..6] == "214748";
    assert "214748"[..5] == "21474";
    DigitsOfIntMinHead();
  }

  lemma DigitsOfIntMinHead()
    ensures AllDigits("21474") && DigitsValue("21474") == 21474
  {
    var s := "21474";
    assert s[..4] == "2147" && s[..3] == "214" && s[..2] == "21" && s[..1] == "2";
    assert "2147"[..3] == "214" && "214"[..2] == "21" && "21"[..1] == "2";
  }

  /** Integer.compare(l, r): the sign of l - r without the subtraction. */
  function CompareInts(l: int, r: int): int {
    if l < r then -1 else if l == r then 0 else 1
  }

  /** The comparator as evidently intended: the numbers compared without overflow. */
  function CorrectedCompare(left: string, right: string): int {
    match (StemNumber(left), StemNumber(right))
    case (Some(l), Some(r)) => CompareInts(l, r)
    case _ => CompareTo(left, right)
  }

  /**
   * The corrected comparator keeps the Comparator contract for all names:
   * swapping the arguments flips the sign, and numbered names are ordered
   * by number whatever their distance.
   */
  lemma CorrectedCompareIsAntisymmetric(left: string, right: string)
    ensures CorrectedCompare(left, right) < 0 <==> CorrectedCompare(right, left) > 0
    ensures CorrectedCompare(left, right) == 0 <==> CorrectedCompare(right, left) == 0
    ensures StemNumber(left).Some? && StemNumber(right).Some? ==>
              (CorrectedCompare(left, right) < 0 <==> StemNumber(left).value < StemNumber(right).value)
  {
    CompareToAntisymmetric(left, right);
  }

  // --------------------------------------------------------------- run's filter

  /** run adds a file only when the store lacks it and its name mentions neither ".bin" nor ".log". */
  predicate RunTakes(s: Store, name: string) {
    !ContainsFile(s, name) && !Contains(name, ".bin") && !Contains(name, ".log")
  }

  /** String.contains finds t wherever it sits. */
  lemma {:induction false} ContainsPiece(a: string, t: string, b: string)
    ensures Contains(a + t + b, t)
    decreases |a|
  {
    if |a| == 0 {
      assert t <= a + t + b;
    } else {
      ContainsPiece(a[1..], t, b);
      assert (a + t + b)[1..] == a[1..] + t + b;
    }
  }

  /** The store's own file and the log are never fed back into it; nor is a file it holds. */
  lemma RunSkipsOwnFiles(s: Store, name: string)
    ensures !RunTakes(s, "binary.bin") && !RunTakes(s, "inconsistencies.log")
    ensures ContainsFile(s, name) ==> !RunTakes(s, name)
  {
    ContainsPiece("binary", ".bin", "");
    assert "binary" + ".bin" + "" == "binary.bin";
    ContainsPiece("inconsistencies", ".log", "");
    assert "inconsistencies" + ".log" + "" == "inconsistencies.log";
  }

  // ------------------------------------------------------ writeDataFile's filter

  /** A name writeDataFile keeps: none of ".log", ".bin", ".dat" in it. */
  predicate Legal(name: string) {
    !Contains(name, ".log") && !Contains(name, ".bin") && !Contains(name, ".dat")
  }

  /** The legal names, in their order. */
  function LegalFiles(names: seq<string>): (r: seq<string>)
    ensures |r| <= |names|
  {
    if |names| == 0 then []
    else LegalFiles(names[..|names| - 1]) + (if Legal(names[|names| - 1]) then [names[|names| - 1]] else [])
  }

  /** The filter keeps exactly the legal names. */
  lemma {:induction false} LegalFilesMembers(names: seq<string>)
    ensures forall n :: n in LegalFiles(names) <==> n in names && Legal(n)
    decreases |names|
  {
    if |names| > 0 {
      var init := names[..|names| - 1];
      LegalFilesMembers(init);
      assert names == init + [names[|names| - 1]];
    }
  }

  /** The filter keeps order: the legal names of a + b are those of a, then those of b. */
  lemma {:induction false} LegalFilesAppend(a: seq<string>, b: seq<string>)
    ensures LegalFiles(a + b) == LegalFiles(a) + LegalFiles(b)
    decreases |b|
  {
    if |b| == 0 {
      assert a + b == a;
    } else {
      var b' := b[..|b| - 1];
      LegalFilesAppend(a, b');
      assert (a + b)[..|a + b| - 1] == a + b';
    }
  }

  /** A list of legal names is kept whole. */
  lemma {:induction false} LegalFilesOfLegal(names: seq<string>)
    requires forall i :: 0 <= i < |names| ==> Legal(names[i])
    ensures LegalFiles(names) == names
    decreases |names|
  {
    if |names| > 0 {
      LegalFilesOfLegal(names[..|names| - 1]);
    }
  }

  /** Every name is kept or dropped on its own: filtering twice changes nothing. */
  lemma LegalFilesIdempotent(names: seq<string>)
    ensures LegalFiles(LegalFiles(names)) == LegalFiles(names)
  {
    var r := LegalFiles(names);
    LegalFilesMembers(names);
    assert forall i :: 0 <= i < |r| ==> r[i] in r;
    LegalFilesOfLegal(r);
  }

  /** writeDataFile's loop: each name is appended to the list unless it is one of the store's files. */
  method CollectLegalFiles(names: seq<string>) returns (legal: seq<string>)
    ensures legal == LegalFiles(names)
  {
    legal := [];
    var i := 0;
    while i < |names|
      invariant 0 <= i <= |names|
      invariant legal == LegalFiles(names[..i])
    {
      assert names[..i + 1][..i] == names[..i];
      if Contains(names[i], ".log") || Contains(names[i], ".bin") || Contains(names[i], ".dat") {
        i := i + 1;
        continue;
      }
      legal := legal + [names[i]];
      i := i + 1;
    }
    assert names[..|names|] == names;
  }
}
