/** What several components share. */
module Common {

  type Byte = b: int | 0 <= b < 256

  function Min(a: int, b: int): int { if a < b then a else b }

  ghost predicate Distinct(list: seq<nat>) {
    forall i, j :: 0 <= i < j < |list| ==> list[i] != list[j]
  }

  /** The address at position i of a list, NULL (0) behind its end. */
  function AddrAt(list: seq<nat>, i: nat): nat { if i < |list| then list[i] else 0 }

  // ----- counting

  lemma {:induction false} SubsetCount(s: set<nat>, a: set<nat>)
    requires s <= a
    ensures |s| <= |a|
  {
    if s != {} {
      var x :| x in s;
      SubsetCount(s - {x}, a - {x});
    }
  }

  lemma ProperSubsetCount(s: set<nat>, a: set<nat>)
    requires s < a
    ensures |s| < |a|
  {
    var x :| x in a && x !in s;
    SubsetCount(s + {x}, a);
  }

  lemma CountLess(a: set<nat>, s: set<nat>)
    requires s <= a
    ensures |a - s| == |a| - |s|
  {
    assert a == (a - s) + s;
  }
}
