/**
 * The file chooser's filter (src/gui/DataFilter.java): directories pass,
 * and a file passes when the extension after its last '.' is "dat" in any
 * case.
 */
module DataFilter {
  import opened Wrappers
  import opened JavaStrings

  /** The extension the filter takes, and the text the chooser shows for it. */
  const DatExtension: string := "dat"

  /** The extension of a name, lower-cased: what follows a '.' that is neither its first nor its last char. */
  function Extension(name: string): (r: Option<string>)
    ensures r.Some? <==> 0 < LastIndexOf(name, '.') < |name| - 1
    ensures r.Some? ==> |r.value| == |name| - 1 - LastIndexOf(name, '.') && '.' !in r.value
  {
    var i := LastIndexOf(name, '.');
    if 0 < i < |name| - 1 then
      var after := name[i + 1..];
      assert forall k :: 0 <= k < |after| ==> after[k] == name[i + 1 + k];
      Some(Fold(after))
    else None
  }

  /** accept(f). */
  function Accept(isDirectory: bool, name: string): bool {
    if isDirectory then true
    else match Extension(name)
      case None => false
      case Some(extension) => EqualsIgnoreCase(extension, DatExtension)
  }

  /** getDescription(). */
  function Description(): (r: string)
    ensures r == "." + DatExtension + " Files"
  {
    ".dat Files"
  }

  /**
   * accept on a file, stated without indexOf: the name has at least one char,
   * then '.', then three chars that fold to "dat".
   */
  lemma AcceptIff(name: string)
    ensures Accept(false, name) <==>
              |name| >= 5 && name[|name| - 4] == '.' && EqualsIgnoreCase(name[|name| - 3..], DatExtension)
  {
    if Accept(false, name) {
      AcceptedHasDatEnding(name);
    }
    if |name| >= 5 && name[|name| - 4] == '.' && EqualsIgnoreCase(name[|name| - 3..], DatExtension) {
      DatEndingAccepted(name);
    }
  }

  lemma AcceptedHasDatEnding(name: string)
    requires Accept(false, name)
    ensures |name| >= 5 && name[|name| - 4] == '.' && EqualsIgnoreCase(name[|name| - 3..], DatExtension)
  {
    var i := LastIndexOf(name, '.');
    var extension := Extension(name).value;
    EqualsIgnoreCaseCharwise(extension, DatExtension);
    assert i == |name| - 4;
    var ending := name[|name| - 3..];
    assert forall k :: 0 <= k < 3 ==> ending[k] == name[i + 1..][k];
    EqualsIgnoreCaseCharwise(ending, DatExtension);
  }

  lemma DatEndingAccepted(name: string)
    requires |name| >= 5 && name[|name| - 4] == '.' && EqualsIgnoreCase(name[|name| - 3..], DatExtension)
    ensures Accept(false, name)
  {
    var ending := name[|name| - 3..];
    EqualsIgnoreCaseCharwise(ending, DatExtension);
    assert '.' !in ending by {
      forall k | 0 <= k < 3 ensures ending[k] != '.' {
        assert Lower(ending[k]) == Lower(DatExtension[k]);
      }
    }
    assert forall k :: |name| - 4 < k < |name| ==> name[k] == ending[k - (|name| - 3)];
    var i := LastIndexOf(name, '.');
    assert i == |name| - 4;
    assert name[i + 1..] == ending;
  }

  /** Directories always pass; a hidden file named only ".dat" and a name ending in '.' do not. */
  lemma AcceptEdges(name: string)
    ensures Accept(true, name)
    ensures !Accept(false, ".dat") && !Accept(false, name + ".")
  {
    AcceptIff(".dat");
    AcceptIff(name + ".");
  }
}
