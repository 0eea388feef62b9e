/** A set with a deterministic iteration order: a vector plus a map from values to positions. */
module OrderedSets {

  /** Which adjacency set of which node a set object is; it keeps the sets of a graph apart. */
  datatype Slot = In(node: int) | Out(node: int)

  /** The order after an erase: the last value moves into the freed position. */
  function SwapPop(s: seq<int>, pos: nat): seq<int>
    requires pos < |s|
  {
    s[pos := s[|s| - 1]][..|s| - 1]
  }

  /** The map inverts the vector, so the vector has no duplicates. */
  ghost predicate Inverse(s: seq<int>, index: map<int, nat>) {
    && (forall i :: 0 <= i < |s| ==> s[i] in index && index[s[i]] == i)
    && (forall v :: v in index ==> index[v] < |s| && s[index[v]] == v)
  }

  class OrderedSet {
    var sequence: seq<int>
    var index: map<int, nat>
    ghost const slot: Slot

    constructor (ghost slot: Slot)
      ensures Valid() && Elements() == {} && this.slot == slot
    {
      sequence, index := [], map[];
      this.slot := slot;
    }

    ghost predicate Valid()
      reads this
    {
      Inverse(sequence, index)
    }

    ghost function Elements(): set<int>
      reads this
    {
      index.Keys
    }

    method Insert(value: int) returns (newInsertion: bool)
      requires Valid()
      modifies this
      ensures Valid()
      ensures newInsertion == (value !in old(Elements()))
      ensures Elements() == old(Elements()) + {value}
      ensures sequence == if newInsertion then old(sequence) + [value] else old(sequence)
    {
      newInsertion := value !in index;
      if newInsertion {
        index := index[value := |sequence|];
        sequence := sequence + [value];
      }
    }

    method Erase(value: int)
      requires Valid() && value in Elements()
      modifies this
      ensures Valid()
      ensures Elements() == old(Elements()) - {value}
      ensures exists pos: nat :: pos < |old(sequence)| && old(sequence)[pos] == value
                                 && sequence == SwapPop(old(sequence), pos)
    {
      var pos := index[value];
      var back := |sequence| - 1;
      index := index[sequence[back] := pos];
      sequence := sequence[pos := sequence[back]][back := sequence[pos]];
      sequence := sequence[..back];
      index := index - {value};
      assert sequence == SwapPop(old(sequence), pos);
    }

    method Clear()
      modifies this
      ensures Valid() && Elements() == {} && sequence == []
    {
      index, sequence := map[], [];
    }

    method Contains(value: int) returns (present: bool)
      requires Valid()
      ensures present == (value in Elements())
    {
      present := value in index;
    }

    method Size() returns (size: nat)
      requires Valid()
      ensures size == |Elements()|
    {
      size := |sequence|;
      SizeIsCardinality(sequence, index);
    }
  }

  lemma {:induction false} SizeIsCardinality(s: seq<int>, index: map<int, nat>)
    requires Inverse(s, index)
    ensures |s| == |index.Keys|
    decreases |s|
  {
    if s == [] {
      assert forall v :: v !in index;
    } else {
      var v := s[|s| - 1];
      SizeIsCardinality(s[..|s| - 1], index - {v});
      assert (index - {v}).Keys == index.Keys - {v};
    }
  }
}
