/** Closed intervals of operation ids and the vectors of them that describe a userange. */
module UseIntervals {

  datatype UseInterval = UseInterval(start: nat, end: nat)
  {
    predicate IsOverlapping(other: UseInterval) {
      start <= other.end && end >= other.start
    }

    /** Contiguous in doubled ids: at most one id lies between the intervals. */
    predicate IsContiguous(other: UseInterval) {
      start <= other.end + 2 && end + 2 >= other.start
    }

    predicate Contains(position: nat) {
      start <= position && end >= position
    }

    predicate Before(other: UseInterval) {
      end < other.start
    }

    predicate After(other: UseInterval) {
      start > other.end
    }

    predicate NonEmpty() {
      start <= end
    }
  }

  /** Some interval contains the position. */
  ghost predicate InUse(v: seq<UseInterval>, t: nat) {
    exists i :: 0 <= i < |v| && v[i].Contains(t)
  }

  predicate SortedDisjoint(v: seq<UseInterval>) {
    && (forall i :: 0 <= i < |v| ==> v[i].NonEmpty())
    && (forall i, j :: 0 <= i < j < |v| ==> v[i].Before(v[j]))
  }

  /** No two intervals could be joined. */
  predicate Spaced(v: seq<UseInterval>) {
    forall i, j :: 0 <= i < j < |v| ==> v[i].end + 2 < v[j].start
  }

  lemma InUseSnoc(v: seq<UseInterval>, u: UseInterval, t: nat)
    ensures InUse(v + [u], t) <==> InUse(v, t) || u.Contains(t)
  {
    var longer := v + [u];
    if InUse(v, t) {
      var i :| 0 <= i < |v| && v[i].Contains(t);
      assert longer[i].Contains(t);
    }
    if u.Contains(t) {
      assert longer[|v|].Contains(t);
    }
  }
}
