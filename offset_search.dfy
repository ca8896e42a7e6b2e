/**
 * Lookup by section offset. The decoder finds the first abbreviation
 * declaration of a unit (`bsearch` with `abbrev_cmp`) and the DIE a type
 * reference points at (`bsearch` with `die_tag_cmp`) by binary search over
 * arrays whose offsets increase strictly. Keys are given here as the sequence
 * of offsets of those arrays.
 */
module OffsetSearch {
  import opened Wrappers

  predicate StrictlyIncreasing(keys: seq<nat>)
  {
    forall i, j :: 0 <= i < j < |keys| ==> keys[i] < keys[j]
  }

  /** The first position that holds `target`; None when no position does. */
  function IndexOf(keys: seq<nat>, target: nat): (r: Option<nat>)
    ensures r.Some? ==> r.value < |keys| && keys[r.value] == target
    ensures r.Some? ==> forall i :: 0 <= i < r.value ==> keys[i] != target
    ensures r.None? ==> forall i :: 0 <= i < |keys| ==> keys[i] != target
  {
    if |keys| == 0 then None
    else if keys[0] == target then Some(0)
    else
      match IndexOf(keys[1..], target)
      case None => None
      case Some(i) => Some(i + 1)
  }

  /** With strictly increasing keys a position holding the target is the only one. */
  lemma IndexOfUnique(keys: seq<nat>, target: nat, k: nat)
    requires StrictlyIncreasing(keys)
    requires k < |keys| && keys[k] == target
    ensures IndexOf(keys, target) == Some(k)
  {
    var r := IndexOf(keys, target);
    if r.Some? {
      var i := r.value;
      assert keys[i] == keys[k];
    }
  }

  /**
   * The binary search of `bsearch`: halve [lo, hi) until the middle key is
   * the target or the range is empty.
   */
  method BinarySearch(keys: seq<nat>, target: nat) returns (r: Option<nat>)
    requires StrictlyIncreasing(keys)
    ensures r == IndexOf(keys, target)
  {
    var lo, hi := 0, |keys|;
    while lo < hi
      invariant 0 <= lo <= hi <= |keys|
      invariant forall i :: 0 <= i < lo ==> keys[i] < target
      invariant forall i :: hi <= i < |keys| ==> target < keys[i]
      decreases hi - lo
    {
      var mid := (lo + hi) / 2;
      if target < keys[mid] {
        hi := mid;
      } else if keys[mid] < target {
        lo := mid + 1;
      } else {
        IndexOfUnique(keys, target, mid);
        return Some(mid);
      }
    }
    r := None;
  }
}
