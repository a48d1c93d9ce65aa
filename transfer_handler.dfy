/**
 * The list half of the drag-and-drop handler (src/gui/SlhaTransferHandler.java):
 * the DefaultListModel of chosen variable names, placeString, which moves or
 * inserts a dropped name at the drop position, and clearList. The JList the
 * model is shown in is outside the model; the size placeString asks it for
 * is the parameter shown (the model's own size once setModel has run).
 */
module TransferHandler {
  import opened Wrappers
  import opened Thrown

  // ---------------------------------------------------------- specification

  /** DefaultListModel.indexOf: the first position holding x. */
  function FirstIndex(m: seq<string>, x: string): (r: nat)
    requires x in m
    ensures r < |m| && m[r] == x && x !in m[..r]
  {
    if m[0] == x then 0
    else
      var r := FirstIndex(m[1..], x) + 1;
      assert m[1..][..r - 1] == m[1..r];
      r
  }

  /** The list with the element at i taken out. */
  function RemovedAt(m: seq<string>, i: nat): (r: seq<string>)
    requires i < |m|
    ensures |r| == |m| - 1
  {
    m[..i] + m[i + 1..]
  }

  /** The list with x put at position i. */
  function InsertedAt(m: seq<string>, i: nat, x: string): (r: seq<string>)
    requires i <= |m|
    ensures |r| == |m| + 1 && r[i] == x
  {
    m[..i] + [x] + m[i..]
  }

  /**
   * placeString(index, s): a copy of s already listed is removed first; s
   * then goes to the front for index 0, to the end for an index at or past
   * the shown size, and to position index otherwise. An insertion position
   * outside the list throws ArrayIndexOutOfBoundsException, with the removal
   * already done.
   */
  function Placed(m: seq<string>, index: int, x: string, shown: int): (r: (seq<string>, Option<Exception>))
  {
    var rest := if x in m then RemovedAt(m, FirstIndex(m, x)) else m;
    var at := if index == 0 then 0 else if index >= shown then |rest| else index;
    if 0 <= at <= |rest| then (InsertedAt(rest, at, x), None) else (rest, Some(IndexOutOfBounds))
  }

  /** The list without any copy of x: what placeString leaves in place. */
  function Others(m: seq<string>, x: string): (r: seq<string>) {
    if |m| == 0 then [] else Others(m[..|m| - 1], x) + (if m[|m| - 1] == x then [] else [m[|m| - 1]])
  }

  // ------------------------------------------------------------- properties

  /** A drop at index 0 puts the name first. */
  lemma PlacedAtFront(m: seq<string>, x: string, shown: int)
    ensures var r := Placed(m, 0, x, shown); r.1.None? && |r.0| > 0 && r.0[0] == x
  {
  }

  /** A drop at or past the shown size puts the name last. */
  lemma PlacedAtEnd(m: seq<string>, index: int, x: string, shown: int)
    requires index != 0 && index >= shown
    ensures var r := Placed(m, index, x, shown); r.1.None? && |r.0| > 0 && r.0[|r.0| - 1] == x
  {
  }

  /** A drop between two names of the shown list puts the name at the drop position. */
  lemma PlacedBetween(m: seq<string>, index: int, x: string)
    requires 0 < index < |m|
    ensures var r := Placed(m, index, x, |m|); r.1.None? && r.0[index] == x
  {
  }

  /**
   * A placed name is listed once more than before if it was absent and as
   * often as before if it was present; nothing else is added or lost. So a
   * name listed at most once before is listed exactly once after.
   */
  lemma PlacedContents(m: seq<string>, index: int, x: string, shown: int)
    requires Placed(m, index, x, shown).1.None?
    ensures var r := Placed(m, index, x, shown).0;
            multiset(r) == (if x in m then multiset(m) else multiset(m) + multiset{x})
            && |r| == (if x in m then |m| else |m| + 1)
            && (multiset(m)[x] <= 1 ==> multiset(r)[x] == 1)
  {
    var rest := if x in m then RemovedAt(m, FirstIndex(m, x)) else m;
    if x in m {
      RemovedFirst(m, x);
    }
    var at := if 0 == index then 0 else if index >= shown then |rest| else index;
    Inserted(rest, at, x);
  }

  /** The other names keep their relative order, whatever the outcome. */
  lemma PlacedKeepsOrder(m: seq<string>, index: int, x: string, shown: int)
    ensures Others(Placed(m, index, x, shown).0, x) == Others(m, x)
  {
    var rest := if x in m then RemovedAt(m, FirstIndex(m, x)) else m;
    if x in m {
      RemovedFirstKeepsOrder(m, x);
    }
    var at := if 0 == index then 0 else if index >= shown then |rest| else index;
    if 0 <= at <= |rest| {
      InsertedKeepsOrder(rest, at, x);
    }
  }

  /** Taking out the first copy of x removes one x. */
  lemma RemovedFirst(m: seq<string>, x: string)
    requires x in m
    ensures multiset(m) == multiset(RemovedAt(m, FirstIndex(m, x))) + multiset{x}
  {
    var i := FirstIndex(m, x);
    assert m == m[..i] + [x] + m[i + 1..];
  }

  /** Taking out the first copy of x keeps the other names in order. */
  lemma RemovedFirstKeepsOrder(m: seq<string>, x: string)
    requires x in m
    ensures Others(RemovedAt(m, FirstIndex(m, x)), x) == Others(m, x)
  {
    var i := FirstIndex(m, x);
    OthersSkip(m[..i], x, m[i + 1..]);
    assert m == m[..i] + [x] + m[i + 1..];
  }

  /** Putting x in adds one x. */
  lemma Inserted(rest: seq<string>, at: int, x: string)
    requires 0 <= at <= |rest|
    ensures multiset(InsertedAt(rest, at, x)) == multiset(rest) + multiset{x}
  {
    assert rest == rest[..at] + rest[at..];
  }

  /** Putting x in keeps the other names in order. */
  lemma InsertedKeepsOrder(rest: seq<string>, at: int, x: string)
    requires 0 <= at <= |rest|
    ensures Others(InsertedAt(rest, at, x), x) == Others(rest, x)
  {
    OthersSkip(rest[..at], x, rest[at..]);
    assert rest == rest[..at] + rest[at..];
  }

  /** A copy of x between a and b is not among the others. */
  lemma OthersSkip(a: seq<string>, x: string, b: seq<string>)
    ensures Others(a + [x] + b, x) == Others(a + b, x)
  {
    OthersAppend(a + [x], b, x);
    OthersAppend(a, [x], x);
    OthersAppend(a, b, x);
    OthersOfItself(x);
  }

  lemma OthersOfItself(x: string)
    ensures Others([x], x) == []
  {
    assert [x][..0] == [];
  }

  lemma {:induction false} OthersAppend(a: seq<string>, b: seq<string>, x: string)
    ensures Others(a + b, x) == Others(a, x) + Others(b, x)
    decreases |b|
  {
    if |b| == 0 {
      assert a + b == a;
    } else {
      OthersAppend(a, b[..|b| - 1], x);
      assert (a + b)[..|a + b| - 1] == a + b[..|b| - 1];
    }
  }

  /** A negative drop position throws, and a name that was listed is gone from the list. */
  lemma NegativeIndexDropsName(m: seq<string>, index: int, x: string, shown: int)
    requires index < 0 && index < shown && x in m && multiset(m)[x] == 1
    ensures var r := Placed(m, index, x, shown); r.1 == Some(IndexOutOfBounds) && x !in r.0
  {
    var i := FirstIndex(m, x);
    assert m == m[..i] + [x] + m[i + 1..];
    assert multiset(m) == multiset(RemovedAt(m, i)) + multiset{x};
  }

  // ------------------------------------------------------------------ class

  /** The handler's list model. */
  class TransferList {
    /** The names in the DefaultListModel, in list order. */
    var model: seq<string>

    constructor()
      ensures model == []
    {
      model := [];
    }

    /** DefaultListModel.add(i, x). */
    method Add(i: int, x: string) returns (err: Option<Exception>)
      modifies this
      ensures 0 <= i <= old(|model|) ==> err.None? && model == InsertedAt(old(model), i, x)
      ensures !(0 <= i <= old(|model|)) ==> err == Some(IndexOutOfBounds) && model == old(model)
    {
      if 0 <= i <= |model| {
        model := model[..i] + [x] + model[i..];
        return None;
      }
      return Some(IndexOutOfBounds);
    }

    /** DefaultListModel.remove(i) for a position in the list. */
    method Remove(i: nat)
      requires i < |model|
      modifies this
      ensures model == RemovedAt(old(model), i)
    {
      model := model[..i] + model[i + 1..];
    }

    /** placeString(index, toBeAdded), with shown the size of the JList's model. */
    method PlaceString(index: int, toBeAdded: string, shown: int) returns (err: Option<Exception>)
      modifies this
      ensures (model, err) == Placed(old(model), index, toBeAdded, shown)
    {
      if index == 0 {
        if toBeAdded !in model {
          err := Add(0, toBeAdded);
        } else {
          Remove(FirstIndex(model, toBeAdded));
          err := Add(0, toBeAdded);
        }
      } else if index >= shown {
        if toBeAdded !in model {
          err := Add(|model|, toBeAdded);
        } else {
          Remove(FirstIndex(model, toBeAdded));
          err := Add(|model|, toBeAdded);
        }
      } else {
        if toBeAdded !in model {
          err := Add(index, toBeAdded);
        } else {
          Remove(FirstIndex(model, toBeAdded));
          err := Add(index, toBeAdded);
        }
      }
    }

    /** clearList: the names removed from the last to the first. */
    method ClearList()
      modifies this
      ensures model == []
    {
      var i := |model| - 1;
      while i >= 0
        invariant -1 <= i && |model| == i + 1
        invariant model == old(model)[..i + 1]
      {
        Remove(i);
        i := i - 1;
      }
    }
  }
}
