/** The packing strategy: from the first allocation on, every host takes in what fits behind it. */
module PackingStrategy {
  import opened BufferPacking
  import opened Sequences
  import opened UseIntervals

  // ---------------------------------------------------------------- filling one host

  /** The allocation can be packed into a host with these entries. */
  ghost predicate Takes(host: AllocationInfo, maxUserangeId: nat, entries: seq<AllocBufferOffset>, info: AllocationInfo)
  {
    exists top :: CanTake(host, maxUserangeId, entries, info, top)
  }

  ghost predicate NoneOfThemFits(gaps: seq<Gap>, infos: seq<AllocationInfo>) {
    forall i :: 0 <= i < |infos| ==> infos[i].Valid() && NoneFits(gaps, infos[i])
  }

  lemma NoneFitsSnoc(gaps: seq<Gap>, infos: seq<AllocationInfo>, info: AllocationInfo)
    requires NoneOfThemFits(gaps, infos) && info.Valid() && NoneFits(gaps, info)
    ensures NoneOfThemFits(gaps, infos + [info])
  {
  }

  lemma NoneFitsYet(gaps: seq<Gap>, newGaps: seq<Gap>, infos: seq<AllocationInfo>)
    requires NoneOfThemFits(gaps, infos) && TakesRoom(gaps, newGaps)
    ensures NoneOfThemFits(newGaps, infos)
  {
    forall i | 0 <= i < |infos|
      ensures NoneFits(newGaps, infos[i])
    {
      NoneFitsInLess(gaps, newGaps, infos[i]);
    }
  }

  function Sources(entries: seq<AllocBufferOffset>): (s: seq<AllocationInfo>)
    ensures |s| == |entries| && forall i :: 0 <= i < |s| ==> s[i] == entries[i].source
  {
    seq(|entries|, i requires 0 <= i < |entries| => entries[i].source)
  }

  ghost predicate AllValid(infos: seq<AllocationInfo>) {
    forall i :: i in infos ==> i.Valid()
  }

  lemma RemovedOne<T>(s: seq<T>, j: nat)
    requires j < |s|
    ensures multiset(s[..j] + s[j + 1..]) + multiset{s[j]} == multiset(s)
  {
    assert s == s[..j] + [s[j]] + s[j + 1..];
  }

  /** While allocation `current` is filled: everything before `j` was tried and does not fit. */
  ghost predicate FillState(all: seq<AllocationInfo>, current: nat, infos: seq<AllocationInfo>, j: nat,
                            gaps: seq<Gap>, entries: seq<AllocBufferOffset>, maxUserangeId: nat)
  {
    && current < |all| && current < j <= |infos| && infos[..current + 1] == all[..current + 1]
    && multiset(infos) + multiset(Sources(entries)) == multiset(all) && AllValid(infos)
    && PackingState(all[current], gaps, entries)
    && GapsExact(all[current], maxUserangeId, gaps, entries)
    && NoneOfThemFits(gaps, infos[current + 1..j])
  }

  lemma StartFilling(all: seq<AllocationInfo>, current: nat, gaps: seq<Gap>, maxUserangeId: nat)
    requires current < |all| && AllValid(all) && PackingState(all[current], gaps, [])
    requires GapsExact(all[current], maxUserangeId, gaps, [])
    ensures FillState(all, current, all, current + 1, gaps, [], maxUserangeId)
  {
    assert Sources([]) == [];
  }

  lemma SkipOne(all: seq<AllocationInfo>, current: nat, infos: seq<AllocationInfo>, j: nat, gaps: seq<Gap>,
                entries: seq<AllocBufferOffset>, maxUserangeId: nat)
    requires FillState(all, current, infos, j, gaps, entries, maxUserangeId) && j < |infos|
    requires infos[j].Valid() && NoneFits(gaps, infos[j])
    ensures FillState(all, current, infos, j + 1, gaps, entries, maxUserangeId)
  {
    assert infos[current + 1..j + 1] == infos[current + 1..j] + [infos[j]];
    NoneFitsSnoc(gaps, infos[current + 1..j], infos[j]);
  }

  lemma PackOne(all: seq<AllocationInfo>, current: nat, infos: seq<AllocationInfo>, j: nat, gaps: seq<Gap>,
                entries: seq<AllocBufferOffset>, newGaps: seq<Gap>, newEntries: seq<AllocBufferOffset>,
                maxUserangeId: nat)
    requires FillState(all, current, infos, j, gaps, entries, maxUserangeId) && j < |infos|
    requires PackingState(all[current], newGaps, newEntries) && TakesRoom(gaps, newGaps)
    requires GapsExact(all[current], maxUserangeId, newGaps, newEntries)
    requires |newEntries| == |entries| + 1 && newEntries[..|entries|] == entries
    requires newEntries[|entries|].source == infos[j]
    ensures FillState(all, current, infos[..j] + infos[j + 1..], j, newGaps, newEntries, maxUserangeId)
  {
    var rest := infos[..j] + infos[j + 1..];
    RemovedOne(infos, j);
    assert forall k :: 0 <= k < |entries| ==> newEntries[k] == newEntries[..|entries|][k];
    assert Sources(newEntries) == Sources(entries) + [infos[j]];
    assert forall i :: i in rest ==> i in infos;
    NoneFitsYet(gaps, newGaps, infos[current + 1..j]);
    assert rest[current + 1..j] == infos[current + 1..j];
    assert rest[..current + 1] == infos[..current + 1];
  }

  // ---------------------------------------------------------------- which allocation goes where

  ghost predicate Rising(at: seq<nat>) {
    forall i, j :: 0 <= i < j < |at| ==> at[i] < at[j]
  }

  /** `picked` are the elements of `all` at the given positions, in order. */
  ghost predicate Picks(all: seq<AllocationInfo>, at: seq<nat>, picked: seq<AllocationInfo>) {
    |at| == |picked| && Rising(at) && forall i :: 0 <= i < |at| ==> at[i] < |all| && picked[i] == all[at[i]]
  }

  /** When position `k` was tried, the allocations at the first `q` of the positions `parts` were packed. */
  ghost predicate TriedWith(parts: seq<nat>, q: nat, k: nat) {
    q <= |parts| && (q > 0 ==> parts[q - 1] < k) && (q < |parts| ==> k <= parts[q])
  }

  /** Position `k`, tried when `q` entries were packed, is packed next if and only if the host can take it then, and
      goes where its room begins. */
  ghost predicate RightlyTried(all: seq<AllocationInfo>, maxUserangeId: nat, host: AllocationInfo,
                               entries: seq<AllocBufferOffset>, parts: seq<nat>, q: nat, k: nat)
    requires q <= |parts| == |entries| && k < |all|
  {
    if q < |parts| && parts[q] == k then CanTake(host, maxUserangeId, entries[..q], all[k], entries[q].offset)
    else !Takes(host, maxUserangeId, entries[..q], all[k])
  }

  /** The entries are the allocations at the positions `parts`, all of them behind the host. */
  ghost predicate Packs(all: seq<AllocationInfo>, host: nat, entries: seq<AllocBufferOffset>, parts: seq<nat>) {
    && |parts| == |entries| && Rising(parts) && host < |all|
    && forall q :: 0 <= q < |parts| ==> host < parts[q] < |all| && entries[q].source == all[parts[q]]
  }

  /** Every position in `tried` was rightly tried. */
  ghost predicate Greedily(all: seq<AllocationInfo>, maxUserangeId: nat, host: nat, entries: seq<AllocBufferOffset>,
                           parts: seq<nat>, tried: set<nat>)
  {
    && Packs(all, host, entries, parts)
    && forall k, q :: k in tried && k < |all| && TriedWith(parts, q, k) ==>
                        RightlyTried(all, maxUserangeId, all[host], entries, parts, q, k)
  }

  /** The positions of `at` behind the host, without those of `left` from `j` on. */
  ghost function Tried(at: seq<nat>, host: nat, left: seq<nat>, j: nat): set<nat>
    requires j <= |left|
  {
    set k | k in at && host < k && k !in left[j..]
  }

  /** While the host at position `host` is filled: the list holds the positions `left`, and those before `j` are
      tried. */
  ghost predicate Trying(all: seq<AllocationInfo>, at: seq<nat>, maxUserangeId: nat, host: nat,
                         infos: seq<AllocationInfo>, left: seq<nat>, j: nat, entries: seq<AllocBufferOffset>,
                         parts: seq<nat>)
  {
    && Picks(all, left, infos) && 0 < j <= |left| && host <= left[j - 1]
    && (forall x :: 0 <= x < |at| && at[x] <= host ==> x < |left| && left[x] == at[x])
    && (forall q, x :: 0 <= q < |parts| && j <= x < |left| ==> parts[q] < left[x])
    && (forall k :: k in at <==> k in left || k in parts) && (forall k :: k in left ==> k !in parts)
    && Greedily(all, maxUserangeId, host, entries, parts, Tried(at, host, left, j))
  }

  lemma StartTrying(all: seq<AllocationInfo>, at: seq<nat>, maxUserangeId: nat, infos: seq<AllocationInfo>,
                    current: nat)
    requires Picks(all, at, infos) && current < |at|
    ensures Trying(all, at, maxUserangeId, at[current], infos, at, current + 1, [], [])
  {
    forall k | k in at && at[current] < k
      ensures k in at[current + 1..]
    {
      var i :| 0 <= i < |at| && at[i] == k;
      assert current < i;
      assert at[current + 1..][i - current - 1] == k;
    }
  }

  lemma NextTried(at: seq<nat>, host: nat, left: seq<nat>, j: nat, next: nat)
    requires Rising(left) && j < |left| && next == j + 1 && host < left[j] && left[j] in at
    ensures Tried(at, host, left, next) == Tried(at, host, left, j) + {left[j]}
  {
    assert left[j..] == [left[j]] + left[next..];
    forall x | x in left[next..]
      ensures left[j] < x
    {
      var i :| 0 <= i < |left[next..]| && left[next..][i] == x;
      assert left[next + i] == x;
    }
  }

  /** All packed positions lie before the one that is tried now. */
  lemma TriedLast(parts: seq<nat>, k: nat, q: nat)
    requires forall p :: 0 <= p < |parts| ==> parts[p] < k
    ensures TriedWith(parts, q, k) <==> q == |parts|
  {
  }

  lemma TriedLonger(parts: seq<nat>, k: nat, q: nat, l: nat)
    requires l <= k && (forall p :: 0 <= p < |parts| ==> parts[p] < k) && TriedWith(parts + [k], q, l)
    ensures q <= |parts| && (l < k ==> TriedWith(parts, q, l)) && (l == k ==> q == |parts|)
  {
    var longer := parts + [k];
    assert longer[|parts|] == k && forall p :: 0 <= p < |parts| ==> longer[p] == parts[p];
  }

  lemma TriedSkipped(all: seq<AllocationInfo>, maxUserangeId: nat, host: nat, entries: seq<AllocBufferOffset>,
                     parts: seq<nat>, tried: set<nat>, k: nat)
    requires Greedily(all, maxUserangeId, host, entries, parts, tried) && k < |all|
    requires forall p :: 0 <= p < |parts| ==> parts[p] < k
    requires !Takes(all[host], maxUserangeId, entries, all[k])
    ensures Greedily(all, maxUserangeId, host, entries, parts, tried + {k})
  {
    forall q | TriedWith(parts, q, k)
      ensures RightlyTried(all, maxUserangeId, all[host], entries, parts, q, k)
    {
      TriedLast(parts, k, q);
      TakeAll(entries);
    }
  }

  lemma TriedPacked(all: seq<AllocationInfo>, maxUserangeId: nat, host: nat, entries: seq<AllocBufferOffset>,
                    parts: seq<nat>, tried: set<nat>, k: nat, e: AllocBufferOffset)
    requires Greedily(all, maxUserangeId, host, entries, parts, tried) && host < k < |all| && e.source == all[k]
    requires (forall p :: 0 <= p < |parts| ==> parts[p] < k) && forall l :: l in tried ==> l < k
    requires CanTake(all[host], maxUserangeId, entries, all[k], e.offset)
    ensures Greedily(all, maxUserangeId, host, entries + [e], parts + [k], tried + {k})
  {
    forall l, q: nat | l in tried + {k} && l < |all| && TriedWith(parts + [k], q, l)
      ensures RightlyTried(all, maxUserangeId, all[host], entries + [e], parts + [k], q, l)
    {
      TriedLonger(parts, k, q, l);
      assert (entries + [e])[..q] == entries[..q];
      if l == k {
        TakeAll(entries);
      } else {
        assert RightlyTried(all, maxUserangeId, all[host], entries, parts, q, l);
      }
    }
  }

  lemma SkipPosition(all: seq<AllocationInfo>, at: seq<nat>, maxUserangeId: nat, host: nat, infos: seq<AllocationInfo>,
                     left: seq<nat>, j: nat, next: nat, entries: seq<AllocBufferOffset>, parts: seq<nat>)
    requires Trying(all, at, maxUserangeId, host, infos, left, j, entries, parts) && j < |left| && next == j + 1
    requires !Takes(all[host], maxUserangeId, entries, infos[j])
    ensures Trying(all, at, maxUserangeId, host, infos, left, next, entries, parts)
  {
    assert left[j - 1] < left[j];
    NextTried(at, host, left, j, next);
    TriedSkipped(all, maxUserangeId, host, entries, parts, Tried(at, host, left, j), left[j]);
  }

  lemma WithoutAt<T>(s: seq<T>, j: nat, next: nat, x: nat)
    requires j < |s| && next == j + 1 && x < |s| - 1
    ensures (s[..j] + s[next..])[x] == if x < j then s[x] else s[x + 1]
  {
  }

  lemma WithoutMembers<T>(s: seq<T>, j: nat, next: nat)
    requires j < |s| && next == j + 1
    ensures forall k :: k in s <==> k in s[..j] + s[next..] || k == s[j]
    ensures (s[..j] + s[next..])[j..] == s[next..]
  {
    assert s == s[..j] + [s[j]] + s[next..];
  }

  /** The positions without the one at `j`. */
  lemma PicksWithout(all: seq<AllocationInfo>, infos: seq<AllocationInfo>, left: seq<nat>, j: nat, next: nat)
    requires Picks(all, left, infos) && j < |left| && next == j + 1
    ensures Picks(all, left[..j] + left[next..], infos[..j] + infos[next..])
  {
    var rest := left[..j] + left[next..];
    forall x | 0 <= x < |rest|
      ensures rest[x] == if x < j then left[x] else left[x + 1]
      ensures (infos[..j] + infos[next..])[x] == if x < j then infos[x] else infos[x + 1]
    {
      WithoutAt(left, j, next, x);
      WithoutAt(infos, j, next, x);
    }
  }

  lemma TriedBefore(at: seq<nat>, host: nat, left: seq<nat>, j: nat, parts: seq<nat>)
    requires Rising(left) && j < |left| && forall k :: k in at <==> k in left || k in parts
    requires forall p :: 0 <= p < |parts| ==> parts[p] < left[j]
    ensures forall l :: l in Tried(at, host, left, j) ==> l < left[j]
  {
    forall i | j <= i < |left|
      ensures left[i] in left[j..]
    {
      assert left[j..][i - j] == left[i];
    }
  }

  lemma PackPosition(all: seq<AllocationInfo>, at: seq<nat>, maxUserangeId: nat, host: nat, infos: seq<AllocationInfo>,
                     left: seq<nat>, j: nat, next: nat, entries: seq<AllocBufferOffset>, parts: seq<nat>,
                     e: AllocBufferOffset)
    requires Trying(all, at, maxUserangeId, host, infos, left, j, entries, parts) && j < |left| && next == j + 1
    requires e.source == infos[j] && CanTake(all[host], maxUserangeId, entries, infos[j], e.offset)
    ensures Trying(all, at, maxUserangeId, host, infos[..j] + infos[next..], left[..j] + left[next..], j,
                   entries + [e], parts + [left[j]])
  {
    var rest, k := left[..j] + left[next..], left[j];
    assert left[j - 1] < k;
    NextTried(at, host, left, j, next);
    TriedBefore(at, host, left, j, parts);
    TriedPacked(all, maxUserangeId, host, entries, parts, Tried(at, host, left, j), k, e);
    PicksWithout(all, infos, left, j, next);
    WithoutMembers(left, j, next);
    assert Tried(at, host, rest, j) == Tried(at, host, left, next);
    forall x | j <= x < |rest|
      ensures k < rest[x]
    {
      WithoutAt(left, j, next, x);
    }
    OnceInRising(left, j, next);
  }

  lemma OnceInRising(left: seq<nat>, j: nat, next: nat)
    requires Rising(left) && j < |left| && next == j + 1
    ensures left[j] !in left[..j] + left[next..]
  {
  }

  /** An allocation is packed where the room begins. */
  lemma PackedTakes(host: AllocationInfo, maxUserangeId: nat, gaps: seq<Gap>, entries: seq<AllocBufferOffset>,
                    info: AllocationInfo, k: nat, newGaps: seq<Gap>, newEntries: seq<AllocBufferOffset>)
    returns (e: AllocBufferOffset)
    requires GapsExact(host, maxUserangeId, gaps, entries)
    requires PackedAt(host, gaps, entries, info, k, newGaps, newEntries)
    ensures newEntries == entries + [e] && e.source == info && CanTake(host, maxUserangeId, entries, info, e.offset)
  {
    assert gaps[k] in gaps;
    FittingIsTaken(host, maxUserangeId, entries, gaps[k], info);
    e := EntryFor(host, gaps[k], info);
  }

  lemma SkippedNotTaken(host: AllocationInfo, maxUserangeId: nat, gaps: seq<Gap>, entries: seq<AllocBufferOffset>,
                        info: AllocationInfo)
    requires GapsExact(host, maxUserangeId, gaps, entries) && info.Valid() && NoneFits(gaps, info)
    ensures !Takes(host, maxUserangeId, entries, info)
  {
    FitsExactly(host, maxUserangeId, gaps, entries, info);
  }

  /** Tries every later allocation on the gaps of allocation `current` and erases what fits; `at` and `left` say which
      of all allocations the list holds before and after. */
  method FillHost(allocInfos: seq<AllocationInfo>, current: nat, hostGaps: seq<Gap>, ghost maxUserangeId: nat,
                  ghost all: seq<AllocationInfo>, ghost at: seq<nat>)
    returns (infos: seq<AllocationInfo>, entries: seq<AllocBufferOffset>, ghost gaps: seq<Gap>, ghost left: seq<nat>,
             ghost parts: seq<nat>)
    requires current < |allocInfos| && AllValid(allocInfos) && Picks(all, at, allocInfos)
    requires PackingState(allocInfos[current], hostGaps, [])
    requires GapsExact(allocInfos[current], maxUserangeId, hostGaps, [])
    ensures FillState(allocInfos, current, infos, |infos|, gaps, entries, maxUserangeId)
    ensures Trying(all, at, maxUserangeId, at[current], infos, left, |left|, entries, parts)
  {
    infos, entries, gaps, left, parts := allocInfos, [], hostGaps, at, [];
    var free := hostGaps;
    var j: nat := current + 1;
    StartFilling(allocInfos, current, hostGaps, maxUserangeId);
    StartTrying(all, at, maxUserangeId, allocInfos, current);
    while j < |infos|
      invariant FillState(allocInfos, current, infos, j, free, entries, maxUserangeId)
      invariant Trying(all, at, maxUserangeId, at[current], infos, left, j, entries, parts)
      decreases |infos| - j
    {
      assert infos[j] in infos;
      var found, newFree, newEntries := FindGapAndUpdate(free, entries, infos[j], allocInfos[current]);
      if !found {
        SkippedNotTaken(allocInfos[current], maxUserangeId, free, entries, infos[j]);
        SkipOne(allocInfos, current, infos, j, free, entries, maxUserangeId);
        SkipPosition(all, at, maxUserangeId, at[current], infos, left, j, j + 1, entries, parts);
        j := j + 1;
      } else {
        ghost var k :| PackedAt(allocInfos[current], free, entries, infos[j], k, newFree, newEntries);
        ghost var e := PackedTakes(allocInfos[current], maxUserangeId, free, entries, infos[j], k, newFree, newEntries);
        PackingKeepsExact(allocInfos[current], maxUserangeId, free, entries, infos[j], k, newFree, newEntries);
        PackOne(allocInfos, current, infos, j, free, entries, newFree, newEntries, maxUserangeId);
        PackPosition(all, at, maxUserangeId, at[current], infos, left, j, j + 1, entries, parts, e);
        left, parts := left[..j] + left[j + 1..], parts + [left[j]];
        infos := infos[..j] + infos[j + 1..];
        free, entries := newFree, newEntries;
      }
    }
    gaps := free;
  }

  // ---------------------------------------------------------------- the whole strategy

  /** What a packed buffer promises: all live ranges fit in the host and never meet. */
  ghost predicate SafelyPacked(b: PackedBuffer) {
    && b.numBytes == b.host.NumSegments() * SEGMENT_BYTES
    && EntriesInHost(b.host, b.entries)
    && EntriesSeparate(b.host, b.entries)
  }

  function PackedSources(packed: seq<PackedBuffer>): seq<AllocationInfo> {
    if packed == [] then [] else PackedSources(packed[..|packed| - 1]) + Sources(packed[|packed| - 1].entries)
  }

  function Hosts(packed: seq<PackedBuffer>): (s: seq<AllocationInfo>)
    ensures |s| == |packed| && forall i :: 0 <= i < |s| ==> s[i] == packed[i].host
  {
    seq(|packed|, i requires 0 <= i < |packed| => packed[i].host)
  }

  /** Those allocations, in order, in whose lifetime some time is free. */
  ghost function WithGaps(infos: seq<AllocationInfo>, maxUserangeId: nat): seq<AllocationInfo>
    requires AllValid(infos)
  {
    if infos == [] then []
    else
      assert infos[|infos| - 1] in infos;
      WithGaps(infos[..|infos| - 1], maxUserangeId)
      + if HasGap(infos[|infos| - 1], maxUserangeId) then [infos[|infos| - 1]] else []
  }

  /** Allocation `h` hosts the buffer, and none of the allocations behind it could be packed into it. */
  ghost predicate Exhausted(b: PackedBuffer, kept: seq<AllocationInfo>, h: nat, maxUserangeId: nat) {
    h < |kept| && kept[h] == b.host && forall j :: h < j < |kept| ==> !Takes(b.host, maxUserangeId, b.entries, kept[j])
  }

  ghost predicate HostedBefore(b: PackedBuffer, kept: seq<AllocationInfo>, i: nat, maxUserangeId: nat) {
    exists h :: 0 <= h < i && Exhausted(b, kept, h, maxUserangeId)
  }

  ghost predicate AllExhausted(packed: seq<PackedBuffer>, kept: seq<AllocationInfo>, i: nat, maxUserangeId: nat) {
    forall p :: 0 <= p < |packed| ==> HostedBefore(packed[p], kept, i, maxUserangeId)
  }

  /** The strategy before allocation `i`: the ones before it are hosts or have no gap. */
  ghost predicate StrategyState(allocs: seq<AllocationInfo>, kept: seq<AllocationInfo>, i: nat,
                                packed: seq<PackedBuffer>, maxUserangeId: nat)
  {
    && i <= |kept| && AllValid(kept) && AllValid(kept[..i])
    && (forall b :: b in packed ==> SafelyPacked(b))
    && multiset(kept) + multiset(PackedSources(packed)) == multiset(allocs)
    && Hosts(packed) == WithGaps(kept[..i], maxUserangeId)
    && AllExhausted(packed, kept, i, maxUserangeId)
  }

  lemma HostWithoutGap(allocs: seq<AllocationInfo>, kept: seq<AllocationInfo>, i: nat, packed: seq<PackedBuffer>,
                       maxUserangeId: nat)
    requires StrategyState(allocs, kept, i, packed, maxUserangeId) && i < |kept|
    requires kept[i].Valid() && !HasGap(kept[i], maxUserangeId)
    ensures StrategyState(allocs, kept, i + 1, packed, maxUserangeId)
  {
    Snoc(kept, i);
    assert forall a :: a in kept[..i + 1] ==> a in kept;
    MoreIsExhausted(packed, kept, i, maxUserangeId);
  }

  lemma MoreIsExhausted(packed: seq<PackedBuffer>, kept: seq<AllocationInfo>, i: nat, maxUserangeId: nat)
    requires AllExhausted(packed, kept, i, maxUserangeId)
    ensures AllExhausted(packed, kept, i + 1, maxUserangeId)
  {
    forall p | 0 <= p < |packed|
      ensures HostedBefore(packed[p], kept, i + 1, maxUserangeId)
    {
      assert HostedBefore(packed[p], kept, i, maxUserangeId);
    }
  }

  lemma LaterStays(all: seq<AllocationInfo>, infos: seq<AllocationInfo>, entries: seq<AllocBufferOffset>, n: nat,
                   j: nat)
    requires n <= |all| && n <= |infos| && infos[..n] == all[..n] && n <= j < |infos|
    requires multiset(infos) + multiset(Sources(entries)) == multiset(all)
    ensures exists k :: n <= k < |all| && all[k] == infos[j]
  {
    assert infos == infos[..n] + infos[n..] && all == all[..n] + all[n..];
    assert multiset(infos) == multiset(infos[..n]) + multiset(infos[n..]);
    assert multiset(all) == multiset(all[..n]) + multiset(all[n..]);
    var x := infos[j];
    assert infos[n..][j - n] == x && multiset(infos[n..])[x] > 0;
    assert multiset(infos)[x] + multiset(Sources(entries))[x] == multiset(all)[x];
    assert multiset(all[n..])[x] == multiset(infos[n..])[x] + multiset(Sources(entries))[x];
    assert x in all[n..];
    var k :| 0 <= k < |all[n..]| && all[n..][k] == x;
    assert all[n + k] == x;
  }

  lemma StaysExhausted(b: PackedBuffer, kept: seq<AllocationInfo>, h: nat, maxUserangeId: nat,
                       infos: seq<AllocationInfo>, entries: seq<AllocBufferOffset>, n: nat)
    requires Exhausted(b, kept, h, maxUserangeId) && h < n <= |kept| && n <= |infos| && infos[..n] == kept[..n]
    requires multiset(infos) + multiset(Sources(entries)) == multiset(kept)
    ensures Exhausted(b, infos, h, maxUserangeId)
  {
    assert forall m :: 0 <= m < n ==> infos[m] == infos[..n][m] == kept[..n][m] == kept[m];
    forall j | h < j < |infos|
      ensures !Takes(b.host, maxUserangeId, b.entries, infos[j])
    {
      if n <= j {
        LaterStays(kept, infos, entries, n, j);
      }
    }
  }

  lemma FilledIsExhausted(kept: seq<AllocationInfo>, i: nat, maxUserangeId: nat, infos: seq<AllocationInfo>,
                          gaps: seq<Gap>, entries: seq<AllocBufferOffset>, b: PackedBuffer)
    requires FillState(kept, i, infos, |infos|, gaps, entries, maxUserangeId)
    requires b.host == kept[i] && b.entries == entries
    ensures Exhausted(b, infos, i, maxUserangeId)
  {
    assert infos[i] == infos[..i + 1][i] == kept[..i + 1][i] == kept[i];
    forall j | i < j < |infos|
      ensures !Takes(b.host, maxUserangeId, b.entries, infos[j])
    {
      assert infos[i + 1..|infos|][j - i - 1] == infos[j];
      FitsExactly(b.host, maxUserangeId, gaps, entries, infos[j]);
    }
  }

  lemma ExhaustedSnoc(packed: seq<PackedBuffer>, kept: seq<AllocationInfo>, i: nat, maxUserangeId: nat,
                      infos: seq<AllocationInfo>, gaps: seq<Gap>, entries: seq<AllocBufferOffset>, b: PackedBuffer)
    requires AllExhausted(packed, kept, i, maxUserangeId) && i < |kept|
    requires FillState(kept, i, infos, |infos|, gaps, entries, maxUserangeId)
    requires b.host == kept[i] && b.entries == entries
    ensures AllExhausted(packed + [b], infos, i + 1, maxUserangeId)
  {
    FilledIsExhausted(kept, i, maxUserangeId, infos, gaps, entries, b);
    forall p | 0 <= p < |packed + [b]|
      ensures HostedBefore((packed + [b])[p], infos, i + 1, maxUserangeId)
    {
      if p < |packed| {
        assert HostedBefore(packed[p], kept, i, maxUserangeId);
        var h :| 0 <= h < i && Exhausted(packed[p], kept, h, maxUserangeId);
        StaysExhausted(packed[p], kept, h, maxUserangeId, infos, entries, i + 1);
      }
    }
  }

  lemma HostFilled(allocs: seq<AllocationInfo>, kept: seq<AllocationInfo>, i: nat, packed: seq<PackedBuffer>,
                   maxUserangeId: nat, infos: seq<AllocationInfo>, gaps: seq<Gap>, entries: seq<AllocBufferOffset>,
                   b: PackedBuffer)
    requires StrategyState(allocs, kept, i, packed, maxUserangeId) && i < |kept|
    requires kept[i].Valid() && HasGap(kept[i], maxUserangeId)
    requires FillState(kept, i, infos, |infos|, gaps, entries, maxUserangeId)
    requires b == PackedBuffer(kept[i].NumSegments() * SEGMENT_BYTES, kept[i], entries)
    ensures StrategyState(allocs, infos, i + 1, packed + [b], maxUserangeId)
  {
    ExhaustedSnoc(packed, kept, i, maxUserangeId, infos, gaps, entries, b);
    assert infos[..i + 1] == kept[..i + 1] && kept[..i + 1][..i] == kept[..i];
    assert kept[..i + 1][i] == kept[i];
    assert forall a :: a in kept[..i + 1] ==> a in kept;
    assert (packed + [b])[..|packed|] == packed;
    assert Hosts(packed + [b]) == Hosts(packed) + [kept[i]];
    assert SafelyPacked(b);
  }

  /** Where the allocations are, by their positions in the given order: those that are kept, those that host a
      buffer, and for each buffer those that are packed into it. */
  datatype Plan = Plan(at: seq<nat>, hosts: seq<nat>, parts: seq<seq<nat>>)

  /** Position `k` is packed into none of the first `p` buffers. */
  ghost predicate StillThere(parts: seq<seq<nat>>, p: nat, k: nat)
    requires p <= |parts|
  {
    forall b :: 0 <= b < p ==> k !in parts[b]
  }

  /** The positions behind a host that are still there when its turn comes. */
  ghost function Open(n: nat, parts: seq<seq<nat>>, p: nat, host: nat): set<nat>
    requires p <= |parts|
  {
    set k | host < k < n && StillThere(parts, p, k)
  }

  /** Buffer `p` holds what its host could take, in order, of the allocations that were still there. */
  ghost predicate InOrder(allocs: seq<AllocationInfo>, maxUserangeId: nat, b: PackedBuffer, plan: Plan, p: nat)
    requires p < |plan.parts| == |plan.hosts|
  {
    && plan.hosts[p] < |allocs| && b.host == allocs[plan.hosts[p]]
    && (forall k :: k in plan.parts[p] ==> StillThere(plan.parts, p, k))
    && Greedily(allocs, maxUserangeId, plan.hosts[p], b.entries, plan.parts[p],
                Open(|allocs|, plan.parts, p, plan.hosts[p]))
  }

  /** The hosts, by rising positions, are the first `i` kept allocations as far as they have a gap. */
  ghost predicate HostsPlanned(kept: seq<AllocationInfo>, maxUserangeId: nat, plan: Plan, i: nat)
    requires i <= |kept| == |plan.at|
  {
    && Rising(plan.hosts) && (forall h :: h in plan.hosts ==> h in plan.at[..i])
    && forall x :: 0 <= x < i ==> (plan.at[x] in plan.hosts <==> kept[x].Valid() && HasGap(kept[x], maxUserangeId))
  }

  /** The kept allocations are, in the given order, those that are in no buffer. */
  ghost predicate KeptPlanned(allocs: seq<AllocationInfo>, kept: seq<AllocationInfo>, plan: Plan) {
    && Picks(allocs, plan.at, kept)
    && forall k: nat :: k in plan.at <==> k < |allocs| && StillThere(plan.parts, |plan.parts|, k)
  }

  ghost predicate BuffersPlanned(allocs: seq<AllocationInfo>, packed: seq<PackedBuffer>, maxUserangeId: nat, plan: Plan)
  {
    && |plan.hosts| == |plan.parts| == |packed|
    && forall p :: 0 <= p < |packed| ==> InOrder(allocs, maxUserangeId, packed[p], plan, p)
  }

  /** The plan of the strategy before allocation `i`. */
  ghost predicate FollowsPlan(allocs: seq<AllocationInfo>, kept: seq<AllocationInfo>, i: nat,
                              packed: seq<PackedBuffer>, maxUserangeId: nat, plan: Plan)
  {
    && AllValid(kept) && KeptPlanned(allocs, kept, plan) && i <= |kept|
    && HostsPlanned(kept, maxUserangeId, plan, i) && BuffersPlanned(allocs, packed, maxUserangeId, plan)
  }

  function Positions(n: nat): (at: seq<nat>)
    ensures |at| == n && forall k :: 0 <= k < n ==> at[k] == k
  {
    seq(n, k => k)
  }

  lemma StartPlan(allocs: seq<AllocationInfo>, maxUserangeId: nat)
    requires AllValid(allocs)
    ensures FollowsPlan(allocs, allocs, 0, [], maxUserangeId, Plan(Positions(|allocs|), [], []))
  {
    forall k: nat | k < |allocs|
      ensures k in Positions(|allocs|)
    {
      assert Positions(|allocs|)[k] == k;
    }
  }

  lemma NoHostPlanned(allocs: seq<AllocationInfo>, kept: seq<AllocationInfo>, i: nat, next: nat,
                      packed: seq<PackedBuffer>, maxUserangeId: nat, plan: Plan)
    requires FollowsPlan(allocs, kept, i, packed, maxUserangeId, plan) && i < |kept| && next == i + 1
    requires kept[i].Valid() && !HasGap(kept[i], maxUserangeId)
    ensures FollowsPlan(allocs, kept, next, packed, maxUserangeId, plan)
  {
    assert plan.at[..next] == plan.at[..i] + [plan.at[i]];
    assert plan.at[i] !in plan.at[..i];
  }

  lemma OpenBefore(n: nat, parts: seq<seq<nat>>, more: seq<nat>, p: nat, host: nat)
    requires p <= |parts|
    ensures Open(n, parts + [more], p, host) == Open(n, parts, p, host)
    ensures forall k: nat :: StillThere(parts + [more], p, k) <==> StillThere(parts, p, k)
  {
    assert forall b :: 0 <= b < |parts| ==> (parts + [more])[b] == parts[b];
  }

  lemma StillThereNext(parts: seq<seq<nat>>, more: seq<nat>, next: nat, k: nat)
    requires next == |parts| + 1
    ensures StillThere(parts + [more], next, k) <==> StillThere(parts, |parts|, k) && k !in more
  {
    var longer := parts + [more];
    assert longer[|parts|] == more && forall b :: 0 <= b < |parts| ==> longer[b] == parts[b];
  }

  lemma KeptAfter(allocs: seq<AllocationInfo>, kept: seq<AllocationInfo>, maxUserangeId: nat, plan: Plan, host: nat,
                  infos: seq<AllocationInfo>, left: seq<nat>, entries: seq<AllocBufferOffset>, part: seq<nat>,
                  after: Plan)
    requires KeptPlanned(allocs, kept, plan)
    requires Trying(allocs, plan.at, maxUserangeId, host, infos, left, |left|, entries, part)
    requires after == Plan(left, plan.hosts + [host], plan.parts + [part])
    ensures KeptPlanned(allocs, infos, after)
  {
    forall k: nat
      ensures k in left <==> k < |allocs| && StillThere(after.parts, |after.parts|, k)
    {
      StillThereNext(plan.parts, part, |after.parts|, k);
      assert k in plan.at <==> k in left || k in part;
    }
  }

  lemma TriedIsOpen(allocs: seq<AllocationInfo>, kept: seq<AllocationInfo>, plan: Plan, host: nat, left: seq<nat>)
    requires KeptPlanned(allocs, kept, plan)
    ensures Tried(plan.at, host, left, |left|) == Open(|allocs|, plan.parts, |plan.parts|, host)
  {
    assert left[|left|..] == [];
  }

  lemma BuffersAfter(allocs: seq<AllocationInfo>, kept: seq<AllocationInfo>, packed: seq<PackedBuffer>,
                     maxUserangeId: nat, plan: Plan, host: nat, infos: seq<AllocationInfo>, left: seq<nat>,
                     part: seq<nat>, b: PackedBuffer, after: Plan)
    requires KeptPlanned(allocs, kept, plan) && BuffersPlanned(allocs, packed, maxUserangeId, plan)
    requires Trying(allocs, plan.at, maxUserangeId, host, infos, left, |left|, b.entries, part)
    requires host < |allocs| && b.host == allocs[host]
    requires after == Plan(left, plan.hosts + [host], plan.parts + [part])
    ensures BuffersPlanned(allocs, packed + [b], maxUserangeId, after)
  {
    forall p | 0 <= p < |packed + [b]|
      ensures InOrder(allocs, maxUserangeId, (packed + [b])[p], after, p)
    {
      OpenBefore(|allocs|, plan.parts, part, p, after.hosts[p]);
      if p < |packed| {
        assert InOrder(allocs, maxUserangeId, packed[p], plan, p);
      } else {
        TriedIsOpen(allocs, kept, plan, host, left);
        assert forall k :: k in part ==> k in plan.at;
      }
    }
  }

  lemma HostsAfter(allocs: seq<AllocationInfo>, kept: seq<AllocationInfo>, maxUserangeId: nat, plan: Plan, i: nat,
                   next: nat, host: nat, infos: seq<AllocationInfo>, left: seq<nat>, entries: seq<AllocBufferOffset>,
                   part: seq<nat>, after: Plan)
    requires KeptPlanned(allocs, kept, plan) && i < |kept| && HostsPlanned(kept, maxUserangeId, plan, i)
    requires Trying(allocs, plan.at, maxUserangeId, host, infos, left, |left|, entries, part)
    requires host == plan.at[i] && next == i + 1 && kept[i].Valid() && HasGap(kept[i], maxUserangeId)
    requires after == Plan(left, plan.hosts + [host], plan.parts + [part])
    ensures next <= |infos| && HostsPlanned(infos, maxUserangeId, after, next)
  {
    assert forall x :: 0 <= x <= i ==> plan.at[x] <= host;
    assert left[i] == plan.at[i] && left[..next] == plan.at[..i] + [host];
    forall x | 0 <= x < next
      ensures left[x] in after.hosts <==> infos[x].Valid() && HasGap(infos[x], maxUserangeId)
    {
      assert infos[x] == kept[x] && left[x] == plan.at[x];
    }
    HostsRise(plan.hosts, plan.at, i, host);
  }

  lemma HostsRise(hosts: seq<nat>, at: seq<nat>, i: nat, host: nat)
    requires Rising(hosts) && Rising(at) && i < |at| && at[i] == host && forall h :: h in hosts ==> h in at[..i]
    ensures Rising(hosts + [host])
  {
    forall k | 0 <= k < |hosts|
      ensures hosts[k] < host
    {
      assert hosts[k] in hosts;
      var x :| 0 <= x < i && at[..i][x] == hosts[k];
      assert at[x] < at[i];
    }
  }

  /** A filled host and what was packed into it join the plan. */
  lemma HostPlanned(allocs: seq<AllocationInfo>, kept: seq<AllocationInfo>, i: nat, next: nat,
                    packed: seq<PackedBuffer>, maxUserangeId: nat, plan: Plan, infos: seq<AllocationInfo>,
                    left: seq<nat>, part: seq<nat>, b: PackedBuffer, after: Plan)
    requires FollowsPlan(allocs, kept, i, packed, maxUserangeId, plan) && i < |kept| && next == i + 1
    requires kept[i].Valid() && HasGap(kept[i], maxUserangeId) && b.host == kept[i] && AllValid(infos)
    requires Trying(allocs, plan.at, maxUserangeId, plan.at[i], infos, left, |left|, b.entries, part)
    requires after == Plan(left, plan.hosts + [plan.at[i]], plan.parts + [part])
    ensures FollowsPlan(allocs, infos, next, packed + [b], maxUserangeId, after)
  {
    var host := plan.at[i];
    KeptAfter(allocs, kept, maxUserangeId, plan, host, infos, left, b.entries, part, after);
    BuffersAfter(allocs, kept, packed, maxUserangeId, plan, host, infos, left, part, b, after);
    HostsAfter(allocs, kept, maxUserangeId, plan, i, next, host, infos, left, b.entries, part, after);
  }

  /**
   * Every allocation is kept or packed into exactly one other one, every packed buffer is safe, an allocation that
   * was kept is a host unless it has no gap, and no host could take in an allocation that was kept behind it. The
   * plan says which allocation goes where: each of them, in the given order, into the first host that can still take
   * it when it is tried.
   */
  method Optimize(allocs: seq<AllocationInfo>, maxUserangeId: nat)
    returns (packedBuffers: seq<PackedBuffer>, kept: seq<AllocationInfo>, ghost plan: Plan)
    requires AllValid(allocs)
    ensures forall b :: b in packedBuffers ==> SafelyPacked(b)
    ensures multiset(kept) + multiset(PackedSources(packedBuffers)) == multiset(allocs)
    ensures AllValid(kept) && Hosts(packedBuffers) == WithGaps(kept, maxUserangeId)
    ensures AllExhausted(packedBuffers, kept, |kept|, maxUserangeId)
    ensures FollowsPlan(allocs, kept, |kept|, packedBuffers, maxUserangeId, plan)
  {
    packedBuffers, kept, plan := [], allocs, Plan(Positions(|allocs|), [], []);
    StartPlan(allocs, maxUserangeId);
    var i: nat := 0;
    while i < |kept|
      invariant StrategyState(allocs, kept, i, packedBuffers, maxUserangeId)
      invariant FollowsPlan(allocs, kept, i, packedBuffers, maxUserangeId, plan)
      decreases |kept| - i
    {
      assert kept[i] in kept;
      var gaps := ComputeGaps(kept[i], maxUserangeId);
      if gaps == [] {
        HostWithoutGap(allocs, kept, i, packedBuffers, maxUserangeId);
        NoHostPlanned(allocs, kept, i, i + 1, packedBuffers, maxUserangeId, plan);
        i := i + 1;
        continue;
      }
      InitialState(kept[i], maxUserangeId, gaps);
      FreshGapsExact(kept[i], maxUserangeId, gaps);
      var infos, entries, free, left, part := FillHost(kept, i, gaps, maxUserangeId, allocs, plan.at);
      var b := PackedBuffer(kept[i].NumSegments() * SEGMENT_BYTES, kept[i], entries);
      HostFilled(allocs, kept, i, packedBuffers, maxUserangeId, infos, free, entries, b);
      FillKeepsLength(kept, i, infos, free, entries, maxUserangeId);
      ghost var after := Plan(left, plan.hosts + [plan.at[i]], plan.parts + [part]);
      HostPlanned(allocs, kept, i, i + 1, packedBuffers, maxUserangeId, plan, infos, left, part, b, after);
      packedBuffers, plan := packedBuffers + [b], after;
      kept := infos;
      i := i + 1;
    }
    assert kept[..|kept|] == kept;
  }

  lemma FillKeepsLength(all: seq<AllocationInfo>, current: nat, infos: seq<AllocationInfo>, gaps: seq<Gap>,
                        entries: seq<AllocBufferOffset>, maxUserangeId: nat)
    requires FillState(all, current, infos, |infos|, gaps, entries, maxUserangeId)
    ensures |infos| <= |all|
  {
    assert |multiset(infos) + multiset(Sources(entries))| == |infos| + |entries|;
    assert |multiset(all)| == |all|;
  }

  /** The entry uses the byte of the packed buffer at time `t`. */
  ghost predicate Occupies(e: AllocBufferOffset, t: nat, byte: nat) {
    InUse(e.source.userange, t) && e.offset <= byte < e.offset + e.source.bytes
  }

  lemma UsedWithinLifetime(info: AllocationInfo, t: nat)
    requires info.Valid() && InUse(info.userange, t)
    ensures info.Lifetime().Contains(t)
  {
    var k :| 0 <= k < |info.userange| && info.userange[k].Contains(t);
    var last := |info.userange| - 1;
    assert k > 0 ==> info.userange[0].Before(info.userange[k]);
    assert k < last ==> info.userange[k].Before(info.userange[last]);
    assert info.userange[0].NonEmpty() && info.userange[last].NonEmpty();
  }

  /** At no time do two entries, or an entry and the host, use one byte of a packed buffer. */
  lemma NoByteIsShared(b: PackedBuffer, i: nat, j: nat, t: nat, byte: nat)
    requires SafelyPacked(b) && i < |b.entries| && j < |b.entries|
    requires Occupies(b.entries[i], t, byte)
    ensures byte < b.numBytes
    ensures i != j ==> !Occupies(b.entries[j], t, byte)
    ensures !InUse(b.host.userange, t)
  {
    var d, e := b.entries[i], b.entries[j];
    assert d in b.entries && e in b.entries && EntryInHost(b.host, d) && EntryInHost(b.host, e);
    UsedWithinLifetime(d.source, t);
    if i != j {
      assert if i < j then Separate(d, e) else Separate(e, d);
      if Occupies(e, t, byte) {
        UsedWithinLifetime(e.source, t);
      }
    }
  }
}
