/** The compressed format of convolution dimension numbers: what is printed can be read back. */
module ConvDims {
  import opened Options

  datatype Token = LSquare | RSquare | Comma | Arrow | Question | Int(value: int) | Keyword(name: string)

  /** The positions of the spatial dimensions, in order, and of the two other dimensions of a group. */
  datatype Group = Group(spatial: seq<nat>, first: nat, second: nat)

  datatype Dims = Dims(input: Group, kernel: Group, output: Group)

  /** What stands at one position: nothing known, a spatial dimension, or a named one. */
  datatype Entry = Unknown | Spatial(k: int) | Named(name: string)

  /** No position is used twice. */
  predicate DistinctPositions(g: Group) {
    && g.first != g.second && g.first !in g.spatial && g.second !in g.spatial
    && forall i, j :: 0 <= i < j < |g.spatial| ==> g.spatial[i] != g.spatial[j]
  }

  // ---------------------------------------------------------------- printed groups

  function TokenOf(e: Entry): Token {
    match e
    case Unknown => Question
    case Spatial(k) => Int(k)
    case Named(name) => Keyword(name)
  }

  /** The entries between square brackets, with commas in between. */
  function Bracketed(entries: seq<Entry>): (tokens: seq<Token>)
    requires entries != []
    ensures |tokens| == 2 * |entries| + 1
  {
    seq(2 * |entries| + 1, i requires 0 <= i < 2 * |entries| + 1 =>
      if i == 0 then LSquare
      else if i % 2 == 1 then TokenOf(entries[i / 2])
      else if i == 2 * |entries| then RSquare
      else Comma)
  }

  function MaxSpatial(spatial: seq<nat>): (m: int)
    ensures forall k :: 0 <= k < |spatial| ==> spatial[k] <= m
    ensures spatial == [] ==> m == -1
    ensures spatial != [] ==> m in spatial
  {
    if spatial == [] then -1
    else
      var m, last := MaxSpatial(spatial[..|spatial| - 1]), spatial[|spatial| - 1];
      if m < last then last else m
  }

  function Max(a: int, b: int): int {
    if a < b then b else a
  }

  function NumDims(g: Group): nat {
    Max(MaxSpatial(g.spatial) + 1, Max(g.first + 1, g.second + 1))
  }

  /** The last spatial dimension at position `p`, among the first `n`. */
  function SpatialAt(spatial: seq<nat>, p: nat, n: nat): (k: Option<nat>)
    requires n <= |spatial|
    ensures k.Some? ==> k.value < n && spatial[k.value] == p
    ensures k.None? ==> forall j :: 0 <= j < n ==> spatial[j] != p
  {
    if n == 0 then None else if spatial[n - 1] == p then Some(n - 1) else SpatialAt(spatial, p, n - 1)
  }

  /** What is printed at position `p`; later entries overwrite earlier ones, spatial ones the named. */
  function EntryAt(g: Group, a: char, b: char, p: nat): Entry {
    LaidOut(g, a, b, p, |g.spatial|)
  }

  function EntriesOf(g: Group, a: char, b: char): (entries: seq<Entry>)
    ensures |entries| == NumDims(g) > 0
  {
    seq(NumDims(g), p requires 0 <= p < NumDims(g) => EntryAt(g, a, b, p))
  }

  lemma BracketedAt(entries: seq<Entry>, k: nat)
    requires k < |entries|
    ensures Bracketed(entries)[0] == LSquare && Bracketed(entries)[2 * |entries|] == RSquare
    ensures Bracketed(entries)[2 * k + 1] == TokenOf(entries[k])
    ensures k > 0 ==> Bracketed(entries)[2 * k] == Comma
  {
  }

  /** What stands at position `p` once the first `n` spatial dimensions are in place. */
  function LaidOut(g: Group, a: char, b: char, p: nat, n: nat): Entry
    requires n <= |g.spatial|
  {
    match SpatialAt(g.spatial, p, n)
    case Some(k) => Spatial(k)
    case None => if p == g.second then Named([b]) else if p == g.first then Named([a]) else Unknown
  }

  /** Fills in the named dimensions and then the spatial ones. */
  method LayOut(g: Group, a: char, b: char) returns (entries: seq<Entry>)
    ensures entries == EntriesOf(g, a, b)
  {
    var numDims := MaxSpatial(g.spatial) + 1;
    numDims := Max(numDims, g.first + 1);
    numDims := Max(numDims, g.second + 1);
    var dims := new Entry[numDims](_ => Unknown);
    dims[g.first] := Named([a]);
    dims[g.second] := Named([b]);
    for k := 0 to |g.spatial|
      invariant forall p :: 0 <= p < numDims ==> dims[p] == LaidOut(g, a, b, p, k)
    {
      dims[g.spatial[k]] := Spatial(k);
    }
    entries := dims[..];
  }

  /** The opening bracket and the first `p` entries. */
  function BracketedUpTo(entries: seq<Entry>, p: nat): seq<Token>
    requires entries != [] && p <= |entries|
  {
    Bracketed(entries)[..if p == 0 then 1 else 2 * p]
  }

  lemma BracketedEnds(entries: seq<Entry>)
    requires entries != []
    ensures BracketedUpTo(entries, 0) == [LSquare]
    ensures Bracketed(entries) == BracketedUpTo(entries, |entries|) + [RSquare]
  {
    BracketedAt(entries, 0);
  }

  lemma BracketedNext(entries: seq<Entry>, p: nat)
    requires p < |entries|
    ensures BracketedUpTo(entries, p + 1)
         == (if p > 0 then BracketedUpTo(entries, p) + [Comma] else BracketedUpTo(entries, p)) + [TokenOf(entries[p])]
  {
    BracketedAt(entries, p);
  }

  method PrintGroup(g: Group, a: char, b: char) returns (tokens: seq<Token>)
    ensures tokens == Bracketed(EntriesOf(g, a, b))
  {
    var dims := LayOut(g, a, b);
    tokens := [LSquare];
    BracketedEnds(dims);
    for p := 0 to |dims|
      invariant tokens == BracketedUpTo(dims, p)
    {
      BracketedNext(dims, p);
      if p > 0 {
        tokens := tokens + [Comma];
      }
      tokens := tokens + [TokenOf(dims[p])];
    }
    tokens := tokens + [RSquare];
  }

  // ---------------------------------------------------------------- groups that can be read

  /** The entries name each spatial dimension from 0 on once, and the two other dimensions once. */
  ghost predicate WellFormed(entries: seq<Entry>, a: char, b: char) {
    && entries != [] && Named([a]) in entries && Named([b]) in entries
    && (forall i :: 0 <= i < |entries| ==>
          match entries[i]
          case Unknown => true
          case Spatial(k) => k >= 0
          case Named(name) => name == [a] || name == [b])
    && (forall i, k :: 0 <= i < |entries| && entries[i].Spatial? && 0 <= k < entries[i].k ==> Spatial(k) in entries)
    && forall i, j :: 0 <= i < j < |entries| && entries[i] != Unknown ==> entries[i] != entries[j]
  }

  /** The group that well-formed entries stand for. */
  ghost predicate Means(entries: seq<Entry>, a: char, b: char, g: Group) {
    && g.first < |entries| && entries[g.first] == Named([a])
    && g.second < |entries| && entries[g.second] == Named([b])
    && (forall k :: 0 <= k < |g.spatial| ==> g.spatial[k] < |entries| && entries[g.spatial[k]] == Spatial(k))
    && forall k :: Spatial(k) in entries ==> k < |g.spatial|
  }

  /** The tokens from `start` on begin with the bracketed entries. */
  ghost predicate Starts(tokens: seq<Token>, start: nat, entries: seq<Entry>) {
    && entries != [] && start + 2 * |entries| + 1 <= |tokens|
    && forall i :: 0 <= i < 2 * |entries| + 1 ==> tokens[start + i] == Bracketed(entries)[i]
  }

  /** The group at `start` that can be read, if there is one. */
  ghost predicate Readable(tokens: seq<Token>, start: nat, a: char, b: char, entries: seq<Entry>) {
    Starts(tokens, start, entries) && WellFormed(entries, a, b)
  }

  /** A group with this meaning stands at `start`, written as the given entries. */
  ghost predicate ReadsAs(tokens: seq<Token>, start: nat, a: char, b: char, entries: seq<Entry>, g: Group) {
    Readable(tokens, start, a, b, entries) && Means(entries, a, b, g)
  }

  // ---------------------------------------------------------------- parsing

  /** What has been read at the head of the loop: entries, each with a comma behind it. */
  ghost predicate Consumed(tokens: seq<Token>, start: nat, read: seq<Entry>) {
    && start + 2 * |read| < |tokens| && tokens[start] == LSquare
    && forall k :: 0 <= k < |read| ==>
         tokens[start + 2 * k + 1] == TokenOf(read[k]) && tokens[start + 2 * k + 2] == Comma
  }

  /** Whatever can be read goes on behind what has been read. */
  lemma {:induction false} ConsumedIsPrefix(tokens: seq<Token>, start: nat, read: seq<Entry>, entries: seq<Entry>)
    requires Consumed(tokens, start, read) && Starts(tokens, start, entries)
    ensures |read| < |entries| && read == entries[..|read|]
    ensures tokens[start + 2 * |read| + 1] == TokenOf(entries[|read|])
    ensures tokens[start + 2 * |read| + 2] == (if |read| == |entries| - 1 then RSquare else Comma)
    decreases |read|
  {
    if read != [] {
      var k := |read| - 1;
      ConsumedIsPrefix(tokens, start, read[..k], entries);
      assert tokens[start + 2 * k + 2] == Comma && tokens[start + 2 * k + 1] == TokenOf(read[k]);
      TokenOfInjective(read[k], entries[k]);
      assert read == read[..k] + [read[k]];
    }
    BracketedAt(entries, |read|);
    assert tokens[start + (2 * |read| + 1)] == Bracketed(entries)[2 * |read| + 1];
    assert tokens[start + (2 * |read| + 2)] == Bracketed(entries)[2 * |read| + 2];
  }

  lemma TokenOfInjective(d: Entry, e: Entry)
    requires TokenOf(d) == TokenOf(e)
    ensures d == e
  {
  }

  /** An entry that may stand behind those already read. */
  predicate OkNext(read: seq<Entry>, a: char, b: char, t: Token) {
    match t
    case Question => true
    case Int(k) => k >= 0 && Spatial(k) !in read
    case Keyword(name) => (name == [a] || name == [b]) && Named(name) !in read
    case _ => false
  }

  function EntryOf(t: Token): Entry {
    match t
    case Int(k) => Spatial(k)
    case Keyword(name) => Named(name)
    case _ => Unknown
  }

  lemma NextMustBeOk(tokens: seq<Token>, start: nat, a: char, b: char, read: seq<Entry>, entries: seq<Entry>)
    requires Consumed(tokens, start, read) && Readable(tokens, start, a, b, entries)
    ensures start + 2 * |read| + 1 < |tokens| && OkNext(read, a, b, tokens[start + 2 * |read| + 1])
  {
    ConsumedIsPrefix(tokens, start, read, entries);
    var e := entries[|read|];
    assert forall i :: 0 <= i < |read| ==> read[i] == entries[i];
  }

  /** Nothing can be read if the next token does not fit. */
  lemma Unreadable(tokens: seq<Token>, start: nat, a: char, b: char, read: seq<Entry>)
    requires Consumed(tokens, start, read)
    requires start + 2 * |read| + 1 < |tokens| ==> !OkNext(read, a, b, tokens[start + 2 * |read| + 1])
    ensures forall entries :: !Readable(tokens, start, a, b, entries)
  {
    forall entries
      ensures !Readable(tokens, start, a, b, entries)
    {
      if Readable(tokens, start, a, b, entries) {
        NextMustBeOk(tokens, start, a, b, read, entries);
      }
    }
  }

  /** What the tables of the parser say about the entries read so far. */
  ghost predicate Tabulated(read: seq<Entry>, a: char, b: char, spatial: map<int, nat>, named: map<char, nat>, max: int)
  {
    && (forall i :: 0 <= i < |read| ==>
          match read[i]
          case Unknown => true
          case Spatial(k) => 0 <= k <= max && k in spatial && spatial[k] == i
          case Named(name) => (name == [a] || name == [b]) && name[0] in named && named[name[0]] == i)
    && (forall k :: k in spatial ==> spatial[k] < |read| && read[spatial[k]] == Spatial(k))
    && (forall c :: c in named ==> (c == a || c == b) && named[c] < |read| && read[named[c]] == Named([c]))
    && max >= -1 && (max >= 0 ==> max in spatial)
  }

  lemma TabulatedNext(read: seq<Entry>, a: char, b: char, spatial: map<int, nat>, named: map<char, nat>, max: int,
                      t: Token)
    requires Tabulated(read, a, b, spatial, named, max) && OkNext(read, a, b, t)
    ensures
      match t
      case Int(k) => Tabulated(read + [EntryOf(t)], a, b, spatial[k := |read|], named, Max(k, max))
      case Keyword(name) => Tabulated(read + [EntryOf(t)], a, b, spatial, named[name[0] := |read|], max)
      case _ => Tabulated(read + [EntryOf(t)], a, b, spatial, named, max)
  {
  }

  lemma TablesDecide(read: seq<Entry>, a: char, b: char, spatial: map<int, nat>, named: map<char, nat>, max: int,
                     t: Token)
    requires Tabulated(read, a, b, spatial, named, max)
    ensures OkNext(read, a, b, t) <==>
            match t
            case Question => true
            case Int(k) => k >= 0 && k !in spatial
            case Keyword(name) => |name| == 1 && name[0] in {a, b} - named.Keys
            case _ => false
  {
    match t {
      case Int(k) =>
        if k in spatial {
          assert read[spatial[k]] == Spatial(k);
        }
      case Keyword(name) =>
        if |name| == 1 {
          assert name == [name[0]];
          if name[0] in named {
            assert read[named[name[0]]] == Named(name);
          }
        }
      case _ =>
    }
  }

  /** Behind the last entry there is no comma: only exactly what was read can be the group. */
  lemma OnlyWhatWasRead(tokens: seq<Token>, start: nat, read: seq<Entry>, entries: seq<Entry>)
    requires read != [] && Consumed(tokens, start, read[..|read| - 1])
    requires tokens[start + 2 * |read| - 1..] != [] && tokens[start + 2 * |read| - 1] == TokenOf(read[|read| - 1])
    requires start + 2 * |read| < |tokens| ==> tokens[start + 2 * |read|] != Comma
    requires Starts(tokens, start, entries)
    ensures entries == read && tokens[start + 2 * |read|] == RSquare
  {
    var init := read[..|read| - 1];
    ConsumedIsPrefix(tokens, start, init, entries);
    TokenOfInjective(read[|read| - 1], entries[|read| - 1]);
    assert entries == init + [read[|read| - 1]];
  }

  lemma ReadStarts(tokens: seq<Token>, start: nat, read: seq<Entry>)
    requires read != [] && Consumed(tokens, start, read[..|read| - 1]) && start + 2 * |read| < |tokens|
    requires tokens[start + 2 * |read| - 1] == TokenOf(read[|read| - 1]) && tokens[start + 2 * |read|] == RSquare
    ensures Starts(tokens, start, read)
  {
    forall i | 0 <= i < 2 * |read| + 1
      ensures tokens[start + i] == Bracketed(read)[i]
    {
      var init := read[..|read| - 1];
      if i % 2 == 1 {
        var k := i / 2;
        assert k < |init| ==> tokens[start + 2 * k + 1] == TokenOf(init[k]);
      } else if 0 < i < 2 * |read| {
        var k := i / 2 - 1;
        assert tokens[start + 2 * k + 2] == Comma && k < |init| && init[k] == read[k];
      }
    }
  }

  lemma ReadWellFormed(read: seq<Entry>, a: char, b: char, spatial: map<int, nat>, named: map<char, nat>, max: int)
    requires read != [] && Tabulated(read, a, b, spatial, named, max)
    requires a in named && b in named && forall k :: 0 <= k <= max ==> k in spatial
    ensures WellFormed(read, a, b)
  {
    assert read[named[a]] == Named([a]) && read[named[b]] == Named([b]);
    forall i, k | 0 <= i < |read| && read[i].Spatial? && 0 <= k < read[i].k
      ensures Spatial(k) in read
    {
      assert read[spatial[k]] == Spatial(k);
    }
  }

  /** The tables of the parser, its position, and the entries it has read. */
  datatype Tables = Tables(spatial: map<int, nat>, named: map<char, nat>, max: int)

  /** Enters one token into the tables, if it fits. */
  method ReadEntry(t: Token, index: nat, a: char, b: char, before: Tables, ghost read: seq<Entry>)
    returns (after: Option<Tables>)
    requires index == |read| && Tabulated(read, a, b, before.spatial, before.named, before.max)
    ensures after.Some? <==> OkNext(read, a, b, t)
    ensures after.Some? ==>
              Tabulated(read + [EntryOf(t)], a, b, after.value.spatial, after.value.named, after.value.max)
  {
    TablesDecide(read, a, b, before.spatial, before.named, before.max, t);
    if OkNext(read, a, b, t) {
      TabulatedNext(read, a, b, before.spatial, before.named, before.max, t);
    }
    match t {
      case Int(k) =>
        if k < 0 || k in before.spatial {
          return None;
        }
        return Some(before.(spatial := before.spatial[k := index], max := Max(k, before.max)));
      case Question => return Some(before);
      case Keyword(name) =>
        var allowed := {a, b} - before.named.Keys;
        if |name| != 1 || allowed == {} || name[0] !in allowed {
          return None;
        }
        return Some(before.(named := before.named[name[0] := index]));
      case _ => return None;
    }
  }

  lemma ConsumedMore(tokens: seq<Token>, start: nat, read: seq<Entry>, e: Entry)
    requires Consumed(tokens, start, read) && start + 2 * |read| + 2 < |tokens|
    requires tokens[start + 2 * |read| + 1] == TokenOf(e) && tokens[start + 2 * |read| + 2] == Comma
    ensures Consumed(tokens, start, read + [e])
  {
  }

  /** The last entry ends at `pos`, and no comma follows. */
  ghost predicate Finished(tokens: seq<Token>, start: nat, read: seq<Entry>, pos: nat) {
    && read != [] && Consumed(tokens, start, read[..|read| - 1]) && pos == start + 2 * |read| <= |tokens|
    && tokens[pos - 1] == TokenOf(read[|read| - 1]) && (pos < |tokens| ==> tokens[pos] != Comma)
  }

  /** Reads entries as long as commas follow. */
  method ParseEntries(tokens: seq<Token>, start: nat, a: char, b: char)
    returns (tables: Option<Tables>, pos: nat, ghost read: seq<Entry>)
    requires start <= |tokens|
    ensures tables.None? ==> forall entries :: !Readable(tokens, start, a, b, entries)
    ensures tables.Some? ==>
              && Finished(tokens, start, read, pos)
              && Tabulated(read, a, b, tables.value.spatial, tables.value.named, tables.value.max)
  {
    read := [];
    if start == |tokens| || tokens[start] != LSquare {
      NoBracket(tokens, start, a, b);
      return None, start, [];
    }
    var now := Tables(map[], map[], -1);
    var index := 0;
    pos := start + 1;
    while true
      invariant index == |read| && pos == start + 2 * |read| + 1 && Consumed(tokens, start, read)
      invariant Tabulated(read, a, b, now.spatial, now.named, now.max)
      decreases |tokens| - pos
    {
      var next, goesOn;
      ghost var after;
      next, goesOn, after := ParseNext(tokens, start, a, b, now, index, pos, read);
      if next.None? {
        return None, pos, read;
      }
      now, read := next.value, after;
      index := index + 1;
      pos := pos + 1;
      if !goesOn {
        return Some(now), pos, read;
      }
      pos := pos + 1;
    }
  }

  /** Reads one more entry and looks whether a comma follows. */
  method ParseNext(tokens: seq<Token>, start: nat, a: char, b: char, now: Tables, index: nat, pos: nat,
                   ghost read: seq<Entry>)
    returns (next: Option<Tables>, goesOn: bool, ghost after: seq<Entry>)
    requires start <= |tokens| && index == |read| && pos == start + 2 * |read| + 1
    requires Consumed(tokens, start, read) && Tabulated(read, a, b, now.spatial, now.named, now.max)
    ensures next.None? ==> forall entries :: !Readable(tokens, start, a, b, entries)
    ensures next.Some? ==>
              && |after| == |read| + 1 && Tabulated(after, a, b, next.value.spatial, next.value.named, next.value.max)
              && pos < |tokens|
              && (if goesOn then Consumed(tokens, start, after) else Finished(tokens, start, after, pos + 1))
  {
    goesOn, after := false, [];
    if pos >= |tokens| {
      Unreadable(tokens, start, a, b, read);
      return None, false, [];
    }
    next := ReadEntry(tokens[pos], index, a, b, now, read);
    if next.None? {
      Unreadable(tokens, start, a, b, read);
      return;
    }
    after := read + [EntryOf(tokens[pos])];
    assert after[..|after| - 1] == read;
    if pos + 1 < |tokens| && tokens[pos + 1] == Comma {
      ConsumedMore(tokens, start, read, after[|after| - 1]);
      goesOn := true;
    }
  }

  lemma NoBracket(tokens: seq<Token>, start: nat, a: char, b: char)
    requires start < |tokens| ==> tokens[start] != LSquare
    ensures forall entries :: !Readable(tokens, start, a, b, entries)
  {
    forall entries
      ensures !Readable(tokens, start, a, b, entries)
    {
      if Starts(tokens, start, entries) {
        StartsWithBracket(tokens, start, entries);
      }
    }
  }

  lemma StartsWithBracket(tokens: seq<Token>, start: nat, entries: seq<Entry>)
    requires Starts(tokens, start, entries)
    ensures tokens[start] == LSquare
  {
    assert tokens[start + 0] == Bracketed(entries)[0];
  }

  /** The positions of the spatial dimensions from 0 to the largest, or none if one of them is missing. */
  method CollectSpatial(spatial: map<int, nat>, max: int) returns (positions: Option<seq<nat>>)
    requires max >= -1
    ensures positions.Some? <==> forall k :: 0 <= k <= max ==> k in spatial
    ensures positions.Some? ==>
              |positions.value| == max + 1 && forall k :: 0 <= k <= max ==> positions.value[k] == spatial[k]
  {
    var found: seq<nat> := [];
    for dim := 0 to max + 1
      invariant |found| == dim && forall k :: 0 <= k < dim ==> k in spatial && found[k] == spatial[k]
    {
      if dim !in spatial {
        return None;
      }
      found := found + [spatial[dim]];
    }
    return Some(found);
  }

  datatype Parsed = Parsed(group: Group, next: nat)

  /** Reads a bracketed group: it succeeds exactly if a well-formed group stands there, and returns its meaning. */
  method ParseGroup(tokens: seq<Token>, start: nat, a: char, b: char)
    returns (parsed: Option<Parsed>, ghost read: seq<Entry>)
    requires start <= |tokens| && a != b
    ensures parsed.None? ==> forall entries :: !Readable(tokens, start, a, b, entries)
    ensures parsed.Some? ==>
              ReadsAs(tokens, start, a, b, read, parsed.value.group) && parsed.value.next == start + 2 * |read| + 1
  {
    var tables, pos;
    tables, pos, read := ParseEntries(tokens, start, a, b);
    if tables.None? {
      return None, read;
    }
    var Tables(spatial, named, max) := tables.value;
    forall entries | Starts(tokens, start, entries)
      ensures entries == read && tokens[pos] == RSquare
    {
      OnlyWhatWasRead(tokens, start, read, entries);
    }
    if {a, b} - named.Keys != {} {
      NotAllNamed(read, a, b, spatial, named, max);
      return None, read;
    }
    if pos >= |tokens| || tokens[pos] != RSquare {
      return None, read;
    }
    var positions := CollectSpatial(spatial, max);
    if positions.None? {
      SpatialMissing(read, a, b, spatial, named, max);
      return None, read;
    }
    ReadStarts(tokens, start, read);
    assert a !in {a, b} - named.Keys && b !in {a, b} - named.Keys;
    ReadWellFormed(read, a, b, spatial, named, max);
    var group := Group(positions.value, named[a], named[b]);
    assert Readable(tokens, start, a, b, read) && Means(read, a, b, group);
    return Some(Parsed(group, pos + 1)), read;
  }

  lemma NotAllNamed(read: seq<Entry>, a: char, b: char, spatial: map<int, nat>, named: map<char, nat>, max: int)
    requires Tabulated(read, a, b, spatial, named, max) && {a, b} - named.Keys != {}
    ensures !WellFormed(read, a, b)
  {
    var c :| c in {a, b} - named.Keys;
    if Named([c]) in read {
      var i :| 0 <= i < |read| && read[i] == Named([c]);
    }
  }

  lemma SpatialMissing(read: seq<Entry>, a: char, b: char, spatial: map<int, nat>, named: map<char, nat>, max: int)
    requires Tabulated(read, a, b, spatial, named, max) && exists k :: 0 <= k <= max && k !in spatial
    ensures !WellFormed(read, a, b)
  {
    var k :| 0 <= k <= max && k !in spatial;
    assert Spatial(k) !in read;
    assert read[spatial[max]] == Spatial(max);
  }

  // ---------------------------------------------------------------- reading is unambiguous

  lemma StartsUnique(tokens: seq<Token>, start: nat, entries: seq<Entry>, others: seq<Entry>)
    requires Starts(tokens, start, entries) && Starts(tokens, start, others)
    ensures entries == others
  {
    var n := |entries|;
    forall i | 0 <= i < n
      ensures tokens[start + 2 * i + 1] == TokenOf(entries[i])
      ensures tokens[start + 2 * i + 2] == if i == n - 1 then RSquare else Comma
    {
      BracketedAt(entries, i);
      assert tokens[start + (2 * i + 1)] == Bracketed(entries)[2 * i + 1];
      assert tokens[start + (2 * i + 2)] == Bracketed(entries)[2 * i + 2];
    }
    assert tokens[start + 0] == Bracketed(entries)[0];
    assert Consumed(tokens, start, entries[..n - 1]);
    OnlyWhatWasRead(tokens, start, entries, others);
  }

  lemma MeansUnique(entries: seq<Entry>, a: char, b: char, g: Group, h: Group)
    requires WellFormed(entries, a, b) && Means(entries, a, b, g) && Means(entries, a, b, h)
    ensures g == h
  {
    SpatialCount(entries, a, b, g, h);
    SpatialCount(entries, a, b, h, g);
    assert forall k :: 0 <= k < |g.spatial| ==> entries[g.spatial[k]] == entries[h.spatial[k]];
  }

  lemma SpatialCount(entries: seq<Entry>, a: char, b: char, g: Group, h: Group)
    requires Means(entries, a, b, g) && Means(entries, a, b, h)
    ensures |g.spatial| <= |h.spatial|
  {
    if g.spatial != [] {
      var k := |g.spatial| - 1;
      assert entries[g.spatial[k]] == Spatial(k);
    }
  }

  lemma ReadsUnique(tokens: seq<Token>, start: nat, a: char, b: char, d: seq<Entry>, g: Group, e: seq<Entry>, h: Group)
    requires ReadsAs(tokens, start, a, b, d, g) && ReadsAs(tokens, start, a, b, e, h)
    ensures d == e && g == h
  {
    StartsUnique(tokens, start, d, e);
    MeansUnique(d, a, b, g, h);
  }

  /** What can be read uses no position twice. */
  lemma ReadsDistinct(entries: seq<Entry>, a: char, b: char, g: Group)
    requires a != b && Means(entries, a, b, g)
    ensures DistinctPositions(g)
  {
    forall i, j | 0 <= i < j < |g.spatial|
      ensures g.spatial[i] != g.spatial[j]
    {
      assert entries[g.spatial[i]] == Spatial(i) && entries[g.spatial[j]] == Spatial(j);
    }
  }

  // ---------------------------------------------------------------- a printed group reads back

  lemma SpatialEntry(g: Group, a: char, b: char, k: nat)
    requires DistinctPositions(g) && k < |g.spatial|
    ensures g.spatial[k] < NumDims(g) && EntryAt(g, a, b, g.spatial[k]) == Spatial(k)
  {
    assert g.spatial[k] <= MaxSpatial(g.spatial);
    var j := SpatialAt(g.spatial, g.spatial[k], |g.spatial|);
    assert j.Some? && j.value == k;
  }

  lemma EntriesMean(g: Group, a: char, b: char)
    requires DistinctPositions(g) && a != b
    ensures Means(EntriesOf(g, a, b), a, b, g)
  {
    var e := EntriesOf(g, a, b);
    forall k | 0 <= k < |g.spatial|
      ensures g.spatial[k] < |e| && e[g.spatial[k]] == Spatial(k)
    {
      SpatialEntry(g, a, b, k);
    }
    assert e[g.first] == EntryAt(g, a, b, g.first) && e[g.second] == EntryAt(g, a, b, g.second);
  }

  lemma EntriesWellFormed(g: Group, a: char, b: char)
    requires DistinctPositions(g) && a != b && Means(EntriesOf(g, a, b), a, b, g)
    ensures WellFormed(EntriesOf(g, a, b), a, b)
  {
    var e := EntriesOf(g, a, b);
    forall i, j | 0 <= i < j < |e| && e[i] != Unknown
      ensures e[i] != e[j]
    {
      EntryPlace(g, a, b, i);
      EntryPlace(g, a, b, j);
    }
    forall i, k | 0 <= i < |e| && e[i].Spatial? && 0 <= k < e[i].k
      ensures Spatial(k) in e
    {
      EntryPlace(g, a, b, i);
      assert e[g.spatial[k]] == Spatial(k);
    }
  }

  /** An entry tells its own position. */
  lemma EntryPlace(g: Group, a: char, b: char, p: nat)
    requires a != b && p < NumDims(g)
    ensures
      var e := EntriesOf(g, a, b)[p];
      match e
      case Unknown => true
      case Spatial(k) => 0 <= k < |g.spatial| && g.spatial[k] == p
      case Named(name) => (name == [a] && p == g.first) || (name == [b] && p == g.second)
  {
  }

  lemma PrintedGroupReads(tokens: seq<Token>, before: seq<Token>, g: Group, a: char, b: char, behind: seq<Token>,
                          start: nat)
    requires DistinctPositions(g) && a != b && tokens == before + Bracketed(EntriesOf(g, a, b)) + behind
    requires start == |before|
    ensures ReadsAs(tokens, start, a, b, EntriesOf(g, a, b), g)
  {
    EntriesMean(g, a, b);
    EntriesWellFormed(g, a, b);
    assert Starts(tokens, start, EntriesOf(g, a, b));
  }

  // ---------------------------------------------------------------- the attribute

  function PrintedInput(d: Dims): seq<Token> { Bracketed(EntriesOf(d.input, 'b', 'f')) }
  function PrintedKernel(d: Dims): seq<Token> { Bracketed(EntriesOf(d.kernel, 'i', 'o')) }
  function PrintedOutput(d: Dims): seq<Token> { Bracketed(EntriesOf(d.output, 'b', 'f')) }

  function Printed(d: Dims): seq<Token> {
    PrintedInput(d) + [Keyword("x")] + PrintedKernel(d) + [Arrow] + PrintedOutput(d)
  }

  method PrintConvolutionDimensions(d: Dims) returns (tokens: seq<Token>)
    ensures tokens == Printed(d)
  {
    var input := PrintGroup(d.input, 'b', 'f');
    var kernel := PrintGroup(d.kernel, 'i', 'o');
    var output := PrintGroup(d.output, 'b', 'f');
    tokens := input + [Keyword("x")] + kernel + [Arrow] + output;
  }

  /** Where the kernel group begins behind the given input entries, and the output group behind both. */
  function KernelAt(input: seq<Entry>): (at: nat)
    ensures at > 0
  {
    2 * |input| + 2
  }

  function OutputAt(input: seq<Entry>, kernel: seq<Entry>): (at: nat)
    ensures at > 0
  {
    KernelAt(input) + 2 * |kernel| + 2
  }

  /** The three groups, written as the given entries, with the separators between them. */
  ghost predicate DimsReadAs(tokens: seq<Token>, d: Dims, input: seq<Entry>, kernel: seq<Entry>, output: seq<Entry>) {
    var m, n := KernelAt(input), OutputAt(input, kernel);
    && ReadsAs(tokens, 0, 'b', 'f', input, d.input) && m <= |tokens| && tokens[m - 1] == Keyword("x")
    && ReadsAs(tokens, m, 'i', 'o', kernel, d.kernel) && n <= |tokens| && tokens[n - 1] == Arrow
    && ReadsAs(tokens, n, 'b', 'f', output, d.output)
  }

  ghost predicate DimsRead(tokens: seq<Token>, d: Dims) {
    exists input, kernel, output :: DimsReadAs(tokens, d, input, kernel, output)
  }

  lemma InputUnique(tokens: seq<Token>, d: Dims, i: seq<Entry>, k: seq<Entry>, o: seq<Entry>,
                    e: Dims, i': seq<Entry>, k': seq<Entry>, o': seq<Entry>)
    requires DimsReadAs(tokens, d, i, k, o) && DimsReadAs(tokens, e, i', k', o')
    ensures i == i' && d.input == e.input
  {
    ReadsUnique(tokens, 0, 'b', 'f', i, d.input, i', e.input);
  }

  lemma KernelUnique(tokens: seq<Token>, d: Dims, i: seq<Entry>, k: seq<Entry>, o: seq<Entry>,
                     e: Dims, k': seq<Entry>, o': seq<Entry>)
    requires DimsReadAs(tokens, d, i, k, o) && DimsReadAs(tokens, e, i, k', o')
    ensures k == k' && d.kernel == e.kernel
  {
    ReadsUnique(tokens, KernelAt(i), 'i', 'o', k, d.kernel, k', e.kernel);
  }

  lemma OutputUnique(tokens: seq<Token>, d: Dims, i: seq<Entry>, k: seq<Entry>, o: seq<Entry>, e: Dims, o': seq<Entry>)
    requires DimsReadAs(tokens, d, i, k, o) && DimsReadAs(tokens, e, i, k, o')
    ensures d.output == e.output
  {
    ReadsUnique(tokens, OutputAt(i, k), 'b', 'f', o, d.output, o', e.output);
  }

  lemma DimsReadUnique(tokens: seq<Token>, d: Dims, i: seq<Entry>, k: seq<Entry>, o: seq<Entry>, e: Dims)
    requires DimsReadAs(tokens, d, i, k, o) && DimsRead(tokens, e)
    ensures d == e
  {
    var i', k', o' :| DimsReadAs(tokens, e, i', k', o');
    InputUnique(tokens, d, i, k, o, e, i', k', o');
    KernelUnique(tokens, d, i, k, o, e, k', o');
    OutputUnique(tokens, d, i, k, o, e, o');
  }

  /** Whatever the parser accepts repeats no position. */
  lemma DimsReadDistinct(tokens: seq<Token>, d: Dims)
    requires DimsRead(tokens, d)
    ensures Representable(d)
  {
    var i, k, o :| DimsReadAs(tokens, d, i, k, o);
    ReadsDistinct(i, 'b', 'f', d.input);
    ReadsDistinct(k, 'i', 'o', d.kernel);
    ReadsDistinct(o, 'b', 'f', d.output);
  }

  predicate Representable(d: Dims) {
    DistinctPositions(d.input) && DistinctPositions(d.kernel) && DistinctPositions(d.output)
  }

  lemma NoInput(tokens: seq<Token>)
    requires forall entries :: !Readable(tokens, 0, 'b', 'f', entries)
    ensures forall d :: !DimsRead(tokens, d)
  {
  }

  /** Where the kernel group and the output group stand. */
  lemma GroupsStand(tokens: seq<Token>, d: Dims, i: seq<Entry>, k: seq<Entry>, o: seq<Entry>)
    requires DimsReadAs(tokens, d, i, k, o)
    ensures KernelAt(i) <= |tokens| && tokens[KernelAt(i) - 1] == Keyword("x")
    ensures Readable(tokens, KernelAt(i), 'i', 'o', k)
    ensures OutputAt(i, k) <= |tokens| && tokens[OutputAt(i, k) - 1] == Arrow
    ensures Readable(tokens, OutputAt(i, k), 'b', 'f', o)
  {
  }

  /** Behind the input group that stands at the start, the separator and a kernel group follow. */
  lemma KernelFollows(tokens: seq<Token>, i: seq<Entry>, input: Group, d: Dims, at: nat) returns (k: seq<Entry>)
    requires ReadsAs(tokens, 0, 'b', 'f', i, input) && DimsRead(tokens, d) && at == KernelAt(i)
    ensures at <= |tokens| && tokens[at - 1] == Keyword("x") && Readable(tokens, at, 'i', 'o', k)
  {
    var i', k', o' :| DimsReadAs(tokens, d, i', k', o');
    ReadsUnique(tokens, 0, 'b', 'f', i, input, i', d.input);
    k := k';
    GroupsStand(tokens, d, i, k, o');
  }

  lemma OutputFollows(tokens: seq<Token>, i: seq<Entry>, input: Group, k: seq<Entry>, kernel: Group, d: Dims, at: nat)
    returns (o: seq<Entry>)
    requires ReadsAs(tokens, 0, 'b', 'f', i, input) && ReadsAs(tokens, KernelAt(i), 'i', 'o', k, kernel)
    requires DimsRead(tokens, d) && at == OutputAt(i, k)
    ensures at <= |tokens| && tokens[at - 1] == Arrow && Readable(tokens, at, 'b', 'f', o)
  {
    var i', k', o' :| DimsReadAs(tokens, d, i', k', o');
    ReadsUnique(tokens, 0, 'b', 'f', i, input, i', d.input);
    ReadsUnique(tokens, KernelAt(i), 'i', 'o', k, kernel, k', d.kernel);
    o := o';
    GroupsStand(tokens, d, i, k, o);
  }

  lemma NoKernel(tokens: seq<Token>, i: seq<Entry>, input: Group, at: nat)
    requires ReadsAs(tokens, 0, 'b', 'f', i, input) && at == KernelAt(i)
    requires at <= |tokens| && tokens[at - 1] == Keyword("x") ==>
               forall entries :: !Readable(tokens, at, 'i', 'o', entries)
    ensures forall d :: !DimsRead(tokens, d)
  {
    forall d
      ensures !DimsRead(tokens, d)
    {
      if DimsRead(tokens, d) {
        var k := KernelFollows(tokens, i, input, d, at);
      }
    }
  }

  lemma NoOutput(tokens: seq<Token>, i: seq<Entry>, input: Group, k: seq<Entry>, kernel: Group, at: nat)
    requires ReadsAs(tokens, 0, 'b', 'f', i, input) && ReadsAs(tokens, KernelAt(i), 'i', 'o', k, kernel)
    requires at == OutputAt(i, k)
    requires at <= |tokens| && tokens[at - 1] == Arrow ==>
               forall entries :: !Readable(tokens, at, 'b', 'f', entries)
    ensures forall d :: !DimsRead(tokens, d)
  {
    forall d
      ensures !DimsRead(tokens, d)
    {
      if DimsRead(tokens, d) {
        var o := OutputFollows(tokens, i, input, k, kernel, d, at);
      }
    }
  }

  /** Succeeds exactly if convolution dimension numbers stand there, and returns them. */
  method ParseConvolutionDimensions(tokens: seq<Token>) returns (parsed: Option<Dims>)
    ensures parsed.Some? ==> DimsRead(tokens, parsed.value)
    ensures parsed.None? ==> forall d :: !DimsRead(tokens, d)
  {
    var input, i := ParseGroup(tokens, 0, 'b', 'f');
    if input.None? {
      NoInput(tokens);
      return None;
    }
    var m := input.value.next;
    if m >= |tokens| || tokens[m] != Keyword("x") {
      NoKernel(tokens, i, input.value.group, m + 1);
      return None;
    }
    var kernel, k := ParseGroup(tokens, m + 1, 'i', 'o');
    if kernel.None? {
      NoKernel(tokens, i, input.value.group, m + 1);
      return None;
    }
    var n := kernel.value.next;
    if n >= |tokens| || tokens[n] != Arrow {
      NoOutput(tokens, i, input.value.group, k, kernel.value.group, n + 1);
      return None;
    }
    var output, o := ParseGroup(tokens, n + 1, 'b', 'f');
    if output.None? {
      NoOutput(tokens, i, input.value.group, k, kernel.value.group, n + 1);
      return None;
    }
    assert DimsReadAs(tokens, Dims(input.value.group, kernel.value.group, output.value.group), i, k, o);
    return Some(Dims(input.value.group, kernel.value.group, output.value.group));
  }

  // ---------------------------------------------------------------- the round trip

  /** Three groups and their separators, taken together from either side. */
  lemma FiveParts<T>(i: seq<T>, x: T, k: seq<T>, y: T, o: seq<T>)
    ensures
      var all := i + [x] + k + [y] + o;
      && all == [] + i + ([x] + k + [y] + o) && all == i + [x] + k + ([y] + o) && all == i + [x] + k + [y] + o + []
      && all[|i|] == x && all[|i| + 1 + |k|] == y
  {
  }

  lemma PrintedParts(d: Dims)
    ensures
      var i, k, o := PrintedInput(d), PrintedKernel(d), PrintedOutput(d);
      && Printed(d) == [] + i + ([Keyword("x")] + k + [Arrow] + o)
      && Printed(d) == i + [Keyword("x")] + k + ([Arrow] + o)
      && Printed(d) == i + [Keyword("x")] + k + [Arrow] + o + []
      && Printed(d)[|i|] == Keyword("x") && Printed(d)[|i| + 1 + |k|] == Arrow
  {
    FiveParts(PrintedInput(d), Keyword("x"), PrintedKernel(d), Arrow, PrintedOutput(d));
  }

  lemma PrintedReads(d: Dims)
    requires Representable(d)
    ensures DimsReadAs(Printed(d), d, EntriesOf(d.input, 'b', 'f'), EntriesOf(d.kernel, 'i', 'o'),
                       EntriesOf(d.output, 'b', 'f'))
  {
    var i, k, o := PrintedInput(d), PrintedKernel(d), PrintedOutput(d);
    PrintedParts(d);
    var m := KernelAt(EntriesOf(d.input, 'b', 'f'));
    var n := OutputAt(EntriesOf(d.input, 'b', 'f'), EntriesOf(d.kernel, 'i', 'o'));
    PrintedGroupReads(Printed(d), [], d.input, 'b', 'f', [Keyword("x")] + k + [Arrow] + o, 0);
    PrintedGroupReads(Printed(d), i + [Keyword("x")], d.kernel, 'i', 'o', [Arrow] + o, m);
    PrintedGroupReads(Printed(d), i + [Keyword("x")] + k + [Arrow], d.output, 'b', 'f', [], n);
  }

  /** Printing and parsing gives back the same dimension numbers if and only if no group repeats a position. */
  lemma RoundTrip(d: Dims)
    ensures DimsRead(Printed(d), d) <==> Representable(d)
    ensures Representable(d) ==> forall e :: DimsRead(Printed(d), e) ==> e == d
  {
    if Representable(d) {
      PrintedReads(d);
      forall e | DimsRead(Printed(d), e)
        ensures e == d
      {
        DimsReadUnique(Printed(d), d, EntriesOf(d.input, 'b', 'f'), EntriesOf(d.kernel, 'i', 'o'),
                       EntriesOf(d.output, 'b', 'f'), e);
      }
    }
    if DimsRead(Printed(d), d) {
      DimsReadDistinct(Printed(d), d);
    }
  }
}
