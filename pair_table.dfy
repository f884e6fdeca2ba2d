/**
 * The pair table: which two staff members were recorded as working together,
 * and how often. Both lookups in the generator search it in the same way.
 */
module PairTable {
  import opened Roster

  datatype StaffPair = StaffPair(staff1: string, staff2: string, count: nat)

  /** The entry names `a` and `b`, in either order. */
  predicate Matches(p: StaffPair, a: string, b: string)
  {
    (p.staff1 == a && p.staff2 == b) || (p.staff1 == b && p.staff2 == a)
  }

  /** The position of the first entry that names `a` and `b`, as a linear search finds it. */
  function FindPair(pairs: seq<StaffPair>, a: string, b: string): (r: Option<nat>)
    ensures r.None? <==> forall i | 0 <= i < |pairs| :: !Matches(pairs[i], a, b)
    ensures r.Some? ==> r.value < |pairs| && Matches(pairs[r.value], a, b)
    ensures r.Some? ==> forall i | 0 <= i < r.value :: !Matches(pairs[i], a, b)
  {
    if |pairs| == 0 then None
    else if Matches(pairs[0], a, b) then Some(0)
    else match FindPair(pairs[1..], a, b)
      case None => None
      case Some(i) => Some(i + 1)
  }

  /** The search does not depend on the order in which the two names are given. */
  lemma {:induction false} FindPairSymmetric(pairs: seq<StaffPair>, a: string, b: string)
    ensures FindPair(pairs, a, b) == FindPair(pairs, b, a)
  {
    if |pairs| > 0 && !Matches(pairs[0], a, b) {
      FindPairSymmetric(pairs[1..], a, b);
    }
  }

  /** A pair found in a table is still found once entries are added at its end. */
  lemma FindPairExtends(pairs: seq<StaffPair>, pairs': seq<StaffPair>, a: string, b: string)
    requires pairs <= pairs' && FindPair(pairs, a, b).Some?
    ensures FindPair(pairs', a, b).Some?
  {
    var i := FindPair(pairs, a, b).value;
    assert pairs'[i] == pairs[i];
  }

  /** No two entries of the table name the same unordered pair. */
  ghost predicate UniquePairs(pairs: seq<StaffPair>)
  {
    forall i, j | 0 <= i < |pairs| && 0 <= j < |pairs| && i != j ::
      !Matches(pairs[j], pairs[i].staff1, pairs[i].staff2)
  }

  /**
   * The table after recording that `a` and `b` worked together: the first
   * entry for the pair counts one more, or a new entry with count 1 is added.
   */
  function Recorded(pairs: seq<StaffPair>, a: string, b: string): (r: seq<StaffPair>)
    ensures FindPair(pairs, a, b).None? ==> r == pairs + [StaffPair(a, b, 1)]
    ensures FindPair(pairs, a, b).Some? ==>
              |r| == |pairs| && forall i | 0 <= i < |pairs| && i != FindPair(pairs, a, b).value :: r[i] == pairs[i]
    ensures FindPair(pairs, a, b).Some? ==>
              var i := FindPair(pairs, a, b).value; r[i] == pairs[i].(count := pairs[i].count + 1)
  {
    match FindPair(pairs, a, b)
    case Some(i) => pairs[i := pairs[i].(count := pairs[i].count + 1)]
    case None => pairs + [StaffPair(a, b, 1)]
  }

  /** After recording, the first entry for the pair has a positive count. */
  lemma RecordedFinds(pairs: seq<StaffPair>, a: string, b: string)
    ensures var r := Recorded(pairs, a, b);
            FindPair(r, a, b).Some? && r[FindPair(r, a, b).value].count >= 1
  {
    var r := Recorded(pairs, a, b);
    var f := FindPair(pairs, a, b);
    var i := if f.Some? then f.value else |pairs|;
    assert forall i' | 0 <= i' < i :: r[i'] == pairs[i'];
    assert Matches(r[i], a, b) && r[i].count >= 1;
    var g := FindPair(r, a, b);
    assert g.Some? && g.value <= i;
    assert g.value >= i by {
      assert forall i' | 0 <= i' < i :: !Matches(r[i'], a, b);
    }
  }

  /** Recording keeps every unordered pair in at most one entry. */
  lemma RecordedKeepsUnique(pairs: seq<StaffPair>, a: string, b: string)
    requires UniquePairs(pairs)
    ensures UniquePairs(Recorded(pairs, a, b))
  {
    var r := Recorded(pairs, a, b);
    var f := FindPair(pairs, a, b);
    if f.Some? {
      assert forall i | 0 <= i < |r| :: r[i].staff1 == pairs[i].staff1 && r[i].staff2 == pairs[i].staff2;
    } else {
      assert forall i | 0 <= i < |pairs| :: r[i] == pairs[i];
    }
  }
}
