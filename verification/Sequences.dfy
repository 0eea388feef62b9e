/** Small facts about sequences, kept apart from the proofs that use them. */
module Sequences {

  predicate Distinct(s: seq<int>) {
    forall i, j :: 0 <= i < j < |s| ==> s[i] != s[j]
  }

  lemma SplitLast<T>(s: seq<T>)
    requires s != []
    ensures s == s[..|s| - 1] + [s[|s| - 1]]
  {
  }

  lemma TakeAll<T>(s: seq<T>)
    ensures s[..0] == [] && s[..|s|] == s
  {
  }

  /** A prefix that is one element longer, taken apart at its end. */
  lemma Snoc<T>(s: seq<T>, i: nat)
    requires i < |s|
    ensures s[..i + 1] != [] && s[..i + 1][|s[..i + 1]| - 1] == s[i] && s[..i + 1][..|s[..i + 1]| - 1] == s[..i]
  {
  }

  lemma SnocParts<T>(s: seq<T>, x: T)
    ensures s + [x] != [] && (s + [x])[|s + [x]| - 1] == x && (s + [x])[..|s + [x]| - 1] == s
  {
  }

  lemma Appended<T>(a: seq<T>, b: seq<T>)
    ensures [] + a + b == a + b
    ensures forall x :: x in a + b <==> x in a || x in b
  {
  }

  lemma AppendAssociates<T>(a: seq<T>, b: seq<T>, c: seq<T>)
    ensures (a + b) + c == a + (b + c)
  {
  }

  lemma UpdateTwice<T>(s: seq<T>, i: nat, x: T, y: T)
    requires i < |s|
    ensures s[i := x][i := y] == s[i := y]
  {
  }

  lemma UpdateIsSplice<T>(s: seq<T>, i: nat, x: T)
    requires i < |s|
    ensures s[..i] + [x] + s[i + 1..] == s[i := x]
  {
  }

  lemma InsertIsSplice<T>(s: seq<T>, i: nat, x: T)
    requires i < |s|
    ensures s[..i] + [x] + s[i..] == s[..i] + [x, s[i]] + s[i + 1..]
  {
  }

  lemma SplicePrefix<T>(s: seq<T>, i: nat, pieces: seq<T>, tail: seq<T>)
    requires i <= |s| && pieces != []
    ensures (s[..i] + pieces + tail)[..i + 1] == s[..i] + [pieces[0]]
  {
  }

  /** The parts of a sequence around one of its elements. */
  lemma AroundElement<T>(before: seq<T>, x: T, behind: seq<T>)
    ensures
      var s := before + [x] + behind;
      s[..|before|] == before && s[|before|] == x && s[|before| + 1..] == behind
  {
  }

  lemma EmptyInBetween<T>(a: seq<T>, b: seq<T>, c: seq<T>, d: seq<T>)
    ensures a + b + c + d == (a + b) + [] + c + d && a + b + c + d == a + (b + c + d)
    ensures c != [] ==> a + [] + c + d == (a + [c[0]]) + [] + c[1..] + d
  {
    assert c != [] ==> c == [c[0]] + c[1..];
  }

  lemma ConsParts<T>(x: T, s: seq<T>)
    ensures ([x] + s)[0] == x && ([x] + s)[1..] == s
  {
  }

  /** A row that continues a prefix gives a longer prefix. */
  lemma RowExtends<T>(whole: seq<T>, before: seq<T>, row: seq<T>)
    requires before <= whole && |before| + |row| <= |whole|
    requires forall g :: 0 <= g < |row| ==> row[g] == whole[|before| + g]
    ensures before + row <= whole
  {
    forall f | 0 <= f < |before + row|
      ensures (before + row)[f] == whole[f]
    {
      if f >= |before| {
        var g := f - |before|;
        assert row[g] == whole[|before| + g];
      }
    }
  }
}
