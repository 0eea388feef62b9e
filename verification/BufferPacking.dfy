/** Packing of buffers into the time gaps of other buffers. */
module BufferPacking {
  import opened Sequences
  import opened UseIntervals

  const SEGMENT_BYTES: nat := 64

  /** An allocation: its size, and the sorted intervals in which it is used. */
  datatype AllocationInfo = AllocationInfo(alloc: int, bytes: nat, userange: seq<UseInterval>)
  {
    /** Number of 64-byte segments, rounded up: no smaller number has room for all bytes. */
    function NumSegments(): (n: nat)
      ensures bytes <= n * SEGMENT_BYTES < bytes + SEGMENT_BYTES
    {
      (bytes + SEGMENT_BYTES - 1) / SEGMENT_BYTES
    }

    predicate Valid() {
      userange != [] && SortedDisjoint(userange)
    }

    function FirstUse(): nat
      requires userange != []
    {
      userange[0].start
    }

    function LastUse(): nat
      requires userange != []
    {
      userange[|userange| - 1].end
    }

    function Lifetime(): UseInterval
      requires userange != []
    {
      UseInterval(FirstUse(), LastUse())
    }
  }

  /** A stretch of time in which the host is not used, with the segments still free at its end. */
  datatype Gap = Gap(interval: UseInterval, segments: nat)

  datatype AllocBufferOffset = AllocBufferOffset(source: AllocationInfo, offset: nat)

  /** A new buffer: the host, at offset zero, and the allocations packed into its gaps. */
  datatype PackedBuffer = PackedBuffer(numBytes: nat, host: AllocationInfo, entries: seq<AllocBufferOffset>)

  function LengthOf(i: UseInterval): int {
    i.end - i.start + 1
  }

  // ---------------------------------------------------------------- gaps

  ghost predicate InGap(gaps: seq<Gap>, t: nat) {
    exists i :: 0 <= i < |gaps| && gaps[i].interval.Contains(t)
  }

  ghost predicate SortedGaps(gaps: seq<Gap>) {
    && (forall i :: 0 <= i < |gaps| ==> gaps[i].interval.start <= gaps[i].interval.end)
    && (forall i, j :: 0 <= i < j < |gaps| ==> gaps[i].interval.end < gaps[j].interval.start)
  }

  /** The gaps in front of `gapEnd`, behind the first `k` uses. */
  ghost predicate GapsSoFar(used: seq<UseInterval>, segments: nat, gaps: seq<Gap>, k: nat, gapEnd: nat) {
    && k <= |used| && gapEnd == (if k == 0 then 0 else used[k - 1].end + 1)
    && SortedGaps(gaps)
    && (forall i :: 0 <= i < |gaps| ==>
          gaps[i].interval.end < gapEnd && gaps[i].segments == segments && InUse(used, gaps[i].interval.end + 1))
    && (forall t: nat :: InGap(gaps, t) <==> t < gapEnd && !InUse(used[..k], t))
    && (forall t: nat :: InUse(used[..k], t) ==> t < gapEnd)
  }

  lemma UseFollows(used: seq<UseInterval>, k: nat, t: nat)
    requires SortedDisjoint(used) && k < |used|
    ensures used[k].start <= used[k].end && InUse(used, used[k].start) && (k > 0 ==> used[k - 1].end < used[k].start)
    ensures InUse(used[..k + 1], t) <==> InUse(used[..k], t) || used[k].start <= t <= used[k].end
  {
    assert used[k].NonEmpty() && used[k].Contains(used[k].start);
    assert k > 0 ==> used[k - 1].Before(used[k]);
    assert used[..k + 1] == used[..k] + [used[k]];
    InUseSnoc(used[..k], used[k], t);
  }

  lemma NoGapBefore(used: seq<UseInterval>, segments: nat, gaps: seq<Gap>, k: nat, gapEnd: nat)
    requires SortedDisjoint(used) && k < |used| && GapsSoFar(used, segments, gaps, k, gapEnd)
    requires used[k].start <= gapEnd
    ensures GapsSoFar(used, segments, gaps, k + 1, used[k].end + 1)
  {
    forall t: nat
      ensures InGap(gaps, t) <==> t < used[k].end + 1 && !InUse(used[..k + 1], t)
      ensures InUse(used[..k + 1], t) ==> t < used[k].end + 1
    {
      UseFollows(used, k, t);
    }
    UseFollows(used, k, 0);
  }

  lemma GapBefore(used: seq<UseInterval>, segments: nat, gaps: seq<Gap>, k: nat, gapEnd: nat)
    requires SortedDisjoint(used) && k < |used| && GapsSoFar(used, segments, gaps, k, gapEnd)
    requires gapEnd < used[k].start
    ensures GapsSoFar(used, segments, gaps + [Gap(UseInterval(gapEnd, used[k].start - 1), segments)], k + 1,
                      used[k].end + 1)
  {
    var g := Gap(UseInterval(gapEnd, used[k].start - 1), segments);
    forall t: nat
      ensures InGap(gaps + [g], t) <==> t < used[k].end + 1 && !InUse(used[..k + 1], t)
      ensures InUse(used[..k + 1], t) ==> t < used[k].end + 1
    {
      UseFollows(used, k, t);
      InGapSnoc(gaps, g, t);
    }
    UseFollows(used, k, 0);
  }

  ghost predicate AllGaps(info: AllocationInfo, maxUserangeId: nat, gaps: seq<Gap>)
    requires info.Valid()
  {
    && SortedGaps(gaps) && (forall i :: 0 <= i < |gaps| ==> gaps[i].segments == info.NumSegments())
    && UsedBetween(info, gaps)
    && forall t: nat ::
         InGap(gaps, t) <==>
         !InUse(info.userange, t)
         && (t <= info.LastUse() || (info.LastUse() + 1 < maxUserangeId && t <= maxUserangeId))
  }

  /** Behind all uses: what lies before `gapEnd` and is in no gap is in use. */
  lemma GapsWithoutLast(info: AllocationInfo, maxUserangeId: nat, gaps: seq<Gap>, gapEnd: nat)
    requires info.Valid() && GapsSoFar(info.userange, info.NumSegments(), gaps, |info.userange|, gapEnd)
    ensures gapEnd == info.LastUse() + 1 && forall t: nat :: InUse(info.userange, t) ==> t < gapEnd
    ensures gapEnd >= maxUserangeId ==> AllGaps(info, maxUserangeId, gaps)
  {
    TakeAll(info.userange);
  }

  /** The gap behind the last use, if `maxUserangeId` lies far enough behind. */
  lemma GapsWithLast(info: AllocationInfo, maxUserangeId: nat, before: seq<Gap>, gapEnd: nat)
    requires info.Valid() && GapsSoFar(info.userange, info.NumSegments(), before, |info.userange|, gapEnd)
    requires gapEnd < maxUserangeId
    ensures AllGaps(info, maxUserangeId, before + [Gap(UseInterval(gapEnd, maxUserangeId), info.NumSegments())])
  {
    GapsWithoutLast(info, maxUserangeId, before, gapEnd);
    TakeAll(info.userange);
    var last := Gap(UseInterval(gapEnd, maxUserangeId), info.NumSegments());
    forall t: nat
      ensures InGap(before + [last], t) <==> InGap(before, t) || gapEnd <= t <= maxUserangeId
    {
      InGapSnoc(before, last, t);
    }
  }

  lemma NoGapsExactly(info: AllocationInfo, maxUserangeId: nat, gaps: seq<Gap>)
    requires info.Valid() && AllGaps(info, maxUserangeId, gaps)
    ensures gaps == [] <==> !HasGap(info, maxUserangeId)
  {
    if gaps != [] {
      assert gaps[0].interval.Contains(gaps[0].interval.start);
      assert InGap(gaps, gaps[0].interval.start);
    }
  }

  /** The gaps are the times without use, up to `maxUserangeId` if that lies far enough behind. */
  method ComputeGaps(info: AllocationInfo, maxUserangeId: nat) returns (gaps: seq<Gap>)
    requires info.Valid()
    ensures SortedGaps(gaps)
    ensures forall i :: 0 <= i < |gaps| ==> gaps[i].segments == info.NumSegments()
    ensures forall t: nat :: InGap(gaps, t) <==>
                        !InUse(info.userange, t)
                        && (t <= info.LastUse() || (info.LastUse() + 1 < maxUserangeId && t <= maxUserangeId))
    ensures gaps == [] <==> !HasGap(info, maxUserangeId)
    ensures UsedBetween(info, gaps)
  {
    gaps := [];
    var gapEnd: nat := 0;
    var used := info.userange;
    for k := 0 to |used|
      invariant GapsSoFar(used, info.NumSegments(), gaps, k, gapEnd)
    {
      if gapEnd < used[k].start {
        GapBefore(used, info.NumSegments(), gaps, k, gapEnd);
        gaps := gaps + [Gap(UseInterval(gapEnd, used[k].start - 1), info.NumSegments())];
      } else {
        NoGapBefore(used, info.NumSegments(), gaps, k, gapEnd);
      }
      gapEnd := used[k].end + 1;
    }
    GapsWithoutLast(info, maxUserangeId, gaps, gapEnd);
    if gapEnd < maxUserangeId {
      GapsWithLast(info, maxUserangeId, gaps, gapEnd);
      gaps := gaps + [Gap(UseInterval(gapEnd, maxUserangeId), info.NumSegments())];
    }
    NoGapsExactly(info, maxUserangeId, gaps);
  }

  /** A use lies between neighbouring gaps. */
  ghost predicate UsedBetween(info: AllocationInfo, gaps: seq<Gap>) {
    forall i :: 0 <= i < |gaps| - 1 ==> InUse(info.userange, gaps[i].interval.end + 1)
  }

  /** Some time is free for packing. */
  ghost predicate HasGap(info: AllocationInfo, maxUserangeId: nat)
    requires info.Valid()
  {
    exists t: nat :: !InUse(info.userange, t)
                     && (t <= info.LastUse() || (info.LastUse() + 1 < maxUserangeId && t <= maxUserangeId))
  }

  lemma InGapSnoc(gaps: seq<Gap>, g: Gap, t: nat)
    ensures InGap(gaps + [g], t) <==> InGap(gaps, t) || g.interval.Contains(t)
  {
    var longer := gaps + [g];
    if InGap(gaps, t) {
      var i :| 0 <= i < |gaps| && gaps[i].interval.Contains(t);
      assert longer[i].interval.Contains(t);
    }
    if g.interval.Contains(t) {
      assert longer[|gaps|].interval.Contains(t);
    }
  }

  // ---------------------------------------------------------------- placing one allocation

  /** The gap spans the lifetime of the allocation and has enough free segments. */
  predicate Fits(g: Gap, info: AllocationInfo)
    requires info.Valid()
  {
    g.interval.start <= info.FirstUse() && info.LastUse() <= g.interval.end && info.NumSegments() <= g.segments
  }

  function EndOffset(e: AllocBufferOffset): nat {
    e.offset + e.source.NumSegments() * SEGMENT_BYTES
  }

  /** Neither the two lifetimes overlap nor, if they do, the two byte ranges. */
  ghost predicate Separate(d: AllocBufferOffset, e: AllocBufferOffset)
    requires d.source.Valid() && e.source.Valid()
  {
    d.source.Lifetime().IsOverlapping(e.source.Lifetime()) ==> EndOffset(d) <= e.offset || EndOffset(e) <= d.offset
  }

  ghost predicate UnusedDuring(host: AllocationInfo, i: UseInterval) {
    forall k :: 0 <= k < |host.userange| ==> !host.userange[k].IsOverlapping(i)
  }

  /** The entry lies inside the host and is live only while the host is not used. */
  ghost predicate EntryInHost(host: AllocationInfo, e: AllocBufferOffset) {
    && e.source.Valid()
    && EndOffset(e) <= host.NumSegments() * SEGMENT_BYTES
    && UnusedDuring(host, e.source.Lifetime())
  }

  ghost predicate EntriesInHost(host: AllocationInfo, entries: seq<AllocBufferOffset>) {
    forall e :: e in entries ==> EntryInHost(host, e)
  }

  ghost predicate EntriesSeparate(host: AllocationInfo, entries: seq<AllocBufferOffset>)
    requires EntriesInHost(host, entries)
  {
    forall i, j :: 0 <= i < j < |entries| ==>
                     entries[i] in entries && entries[j] in entries && Separate(entries[i], entries[j])
  }

  /** The free segments of a gap lie behind everything that is live during the gap. */
  ghost predicate GapIsFree(host: AllocationInfo, g: Gap, entries: seq<AllocBufferOffset>)
    requires EntriesInHost(host, entries)
  {
    && g.segments <= host.NumSegments()
    && UnusedDuring(host, g.interval)
    && forall e :: e in entries && e.source.Lifetime().IsOverlapping(g.interval) ==>
                     EndOffset(e) <= (host.NumSegments() - g.segments) * SEGMENT_BYTES
  }

  ghost predicate PackingState(host: AllocationInfo, gaps: seq<Gap>, entries: seq<AllocBufferOffset>) {
    && SortedGaps(gaps)
    && EntriesInHost(host, entries)
    && EntriesSeparate(host, entries)
    && forall g :: g in gaps ==> GapIsFree(host, g, entries)
  }

  /** What is left of a gap: the lifetime of the packed allocation with fewer segments, if any,
      between the unchanged rest before and behind it. */
  function SplitGap(g: Gap, info: AllocationInfo): (pieces: seq<Gap>)
    requires info.Valid() && Fits(g, info)
  {
    var n := info.NumSegments();
    (if info.FirstUse() > g.interval.start
     then [Gap(UseInterval(g.interval.start, info.FirstUse() - 1), g.segments)] else [])
    + (if g.segments - n > 0 then [Gap(info.Lifetime(), g.segments - n)] else [])
    + (if info.LastUse() < g.interval.end
       then [Gap(UseInterval(info.LastUse() + 1, g.interval.end), g.segments)] else [])
  }

  function EntryFor(host: AllocationInfo, g: Gap, info: AllocationInfo): AllocBufferOffset
    requires g.segments <= host.NumSegments()
  {
    AllocBufferOffset(info, (host.NumSegments() - g.segments) * SEGMENT_BYTES)
  }

  lemma SplitKeepsSorted(gaps: seq<Gap>, i: nat, info: AllocationInfo)
    requires i < |gaps| && SortedGaps(gaps) && info.Valid() && Fits(gaps[i], info)
    ensures SortedGaps(gaps[..i] + SplitGap(gaps[i], info) + gaps[i + 1..])
  {
    var pieces := SplitGap(gaps[i], info);
    LifetimeIsInterval(info);
    assert SortedGaps(pieces);
    assert forall p :: 0 <= p < |pieces| ==>
        gaps[i].interval.start <= pieces[p].interval.start && pieces[p].interval.end <= gaps[i].interval.end;
    var after := gaps[..i] + pieces + gaps[i + 1..];
    forall a, b | 0 <= a < b < |after|
      ensures after[a].interval.end < after[b].interval.start
    {
      SplicedOrder(gaps, i, pieces, a, b);
    }
  }

  lemma SplicedOrder(gaps: seq<Gap>, i: nat, pieces: seq<Gap>, a: nat, b: nat)
    requires i < |gaps| && SortedGaps(gaps) && SortedGaps(pieces)
    requires forall p :: 0 <= p < |pieces| ==>
               gaps[i].interval.start <= pieces[p].interval.start && pieces[p].interval.end <= gaps[i].interval.end
    requires a < b < |gaps| - 1 + |pieces|
    ensures var after := gaps[..i] + pieces + gaps[i + 1..];
            after[a].interval.end < after[b].interval.start
  {
    var after, n := gaps[..i] + pieces + gaps[i + 1..], |pieces|;
    assert after[a] == if a < i then gaps[a] else if a < i + n then pieces[a - i] else gaps[a - n + 1];
    assert after[b] == if b < i then gaps[b] else if b < i + n then pieces[b - i] else gaps[b - n + 1];
  }

  lemma GapAt(host: AllocationInfo, gaps: seq<Gap>, entries: seq<AllocBufferOffset>, i: nat)
    requires PackingState(host, gaps, entries) && i < |gaps|
    ensures GapIsFree(host, gaps[i], entries)
  {
    assert gaps[i] in gaps;
  }

  /** An allocation packed into a free gap lies inside the host and apart from the other entries. */
  lemma EntryJoins(host: AllocationInfo, entries: seq<AllocBufferOffset>, g: Gap, info: AllocationInfo)
    requires EntriesInHost(host, entries) && EntriesSeparate(host, entries) && GapIsFree(host, g, entries)
    requires info.Valid() && Fits(g, info)
    ensures EntriesInHost(host, entries + [EntryFor(host, g, info)])
    ensures EntriesSeparate(host, entries + [EntryFor(host, g, info)])
  {
    var e := EntryFor(host, g, info);
    LifetimeIsInterval(info);
    forall d | d in entries
      ensures Separate(d, e)
    {
    }
    var longer := entries + [e];
    assert EntryInHost(host, e);
    forall a, b | 0 <= a < b < |longer|
      ensures longer[a] in longer && longer[b] in longer && Separate(longer[a], longer[b])
    {
      assert longer[a] in entries;
    }
  }

  /** Packing an allocation into a gap it fits keeps everything in the host apart. */
  lemma PackingKeepsState(host: AllocationInfo, gaps: seq<Gap>, entries: seq<AllocBufferOffset>, i: nat,
                          info: AllocationInfo)
    requires PackingState(host, gaps, entries) && i < |gaps| && info.Valid() && Fits(gaps[i], info)
    ensures gaps[i].segments <= host.NumSegments()
    ensures PackingState(host, gaps[..i] + SplitGap(gaps[i], info) + gaps[i + 1..],
                         entries + [EntryFor(host, gaps[i], info)])
  {
    GapAt(host, gaps, entries, i);
    EntryJoins(host, entries, gaps[i], info);
    SplitKeepsSorted(gaps, i, info);
    LifetimeIsInterval(info);
    var pieces := SplitGap(gaps[i], info);
    var after := gaps[..i] + pieces + gaps[i + 1..];
    forall h | h in after
      ensures GapIsFree(host, h, entries + [EntryFor(host, gaps[i], info)])
    {
      if h in pieces {
        PieceIsFree(host, gaps[i], entries, info, h);
      } else {
        OtherGapIsFree(host, gaps, entries, i, info, h);
      }
    }
  }

  lemma PieceIsFree(host: AllocationInfo, g: Gap, entries: seq<AllocBufferOffset>, info: AllocationInfo, h: Gap)
    requires EntriesInHost(host, entries) && GapIsFree(host, g, entries)
    requires info.Valid() && Fits(g, info) && h in SplitGap(g, info) && info.Lifetime().start <= info.Lifetime().end
    requires EntriesInHost(host, entries + [EntryFor(host, g, info)])
    ensures GapIsFree(host, h, entries + [EntryFor(host, g, info)])
  {
    forall d | d in entries && d.source.Lifetime().IsOverlapping(h.interval)
      ensures EndOffset(d) <= (host.NumSegments() - h.segments) * SEGMENT_BYTES
    {
      assert d.source.Lifetime().IsOverlapping(g.interval);
    }
  }

  lemma OtherGapIsFree(host: AllocationInfo, gaps: seq<Gap>, entries: seq<AllocBufferOffset>, i: nat,
                       info: AllocationInfo, h: Gap)
    requires PackingState(host, gaps, entries) && i < |gaps| && info.Valid() && Fits(gaps[i], info)
    requires h in gaps[..i] || h in gaps[i + 1..]
    requires gaps[i].segments <= host.NumSegments()
    requires EntriesInHost(host, entries + [EntryFor(host, gaps[i], info)])
    ensures GapIsFree(host, h, entries + [EntryFor(host, gaps[i], info)])
  {
    assert h in gaps;
    assert h.interval.end < gaps[i].interval.start || gaps[i].interval.end < h.interval.start;
  }

  /** The allocation went into gap `k`, the first one that it fits. */
  ghost predicate PackedAt(host: AllocationInfo, gaps: seq<Gap>, entries: seq<AllocBufferOffset>, info: AllocationInfo,
                           k: nat, newGaps: seq<Gap>, newEntries: seq<AllocBufferOffset>)
  {
    && k < |gaps| && info.Valid() && Fits(gaps[k], info) && (forall i :: 0 <= i < k ==> !Fits(gaps[i], info))
    && gaps[k].segments <= host.NumSegments()
    && newGaps == gaps[..k] + SplitGap(gaps[k], info) + gaps[k + 1..]
    && newEntries == entries + [EntryFor(host, gaps[k], info)]
  }

  lemma LifetimeIsInterval(info: AllocationInfo)
    requires info.Valid()
    ensures info.FirstUse() <= info.LastUse()
  {
    if |info.userange| > 1 {
      assert info.userange[0].Before(info.userange[|info.userange| - 1]);
    }
  }

  ghost predicate NoneFits(gaps: seq<Gap>, info: AllocationInfo)
    requires info.Valid()
  {
    forall g :: g in gaps ==> !Fits(g, info)
  }

  predicate Covers(g: Gap, h: Gap) {
    g.interval.start <= h.interval.start && h.interval.end <= g.interval.end && h.segments <= g.segments
  }

  /** Every new gap is a part of an old one. */
  ghost predicate TakesRoom(gaps: seq<Gap>, newGaps: seq<Gap>) {
    forall h :: h in newGaps ==> exists g :: g in gaps && Covers(g, h)
  }

  lemma SplitTakesRoom(gaps: seq<Gap>, k: nat, info: AllocationInfo)
    requires k < |gaps| && info.Valid() && Fits(gaps[k], info)
    ensures TakesRoom(gaps, gaps[..k] + SplitGap(gaps[k], info) + gaps[k + 1..])
  {
    LifetimeIsInterval(info);
    var after := gaps[..k] + SplitGap(gaps[k], info) + gaps[k + 1..];
    forall h | h in after
      ensures exists g :: g in gaps && Covers(g, h)
    {
      if h in SplitGap(gaps[k], info) {
        assert gaps[k] in gaps && Covers(gaps[k], h);
      } else {
        assert h in gaps && Covers(h, h);
      }
    }
  }

  /** Packs the allocation into the first gap that it fits, if there is one. */
  method FindGapAndUpdate(gaps: seq<Gap>, entries: seq<AllocBufferOffset>, allocToPack: AllocationInfo,
                          allocToPackInto: AllocationInfo)
    returns (found: bool, newGaps: seq<Gap>, newEntries: seq<AllocBufferOffset>)
    requires PackingState(allocToPackInto, gaps, entries) && allocToPack.Valid()
    ensures found <==> !NoneFits(gaps, allocToPack)
    ensures !found ==> newGaps == gaps && newEntries == entries
    ensures found ==> exists k :: PackedAt(allocToPackInto, gaps, entries, allocToPack, k, newGaps, newEntries)
    ensures found ==> PackingState(allocToPackInto, newGaps, newEntries)
    ensures found ==> |newEntries| == |entries| + 1 && newEntries[..|entries|] == entries
                      && newEntries[|entries|].source == allocToPack
    ensures TakesRoom(gaps, newGaps)
  {
    newGaps, newEntries := gaps, entries;
    var n := allocToPack.NumSegments();
    if allocToPackInto.NumSegments() < n {
      assert forall g :: g in gaps ==> GapIsFree(allocToPackInto, g, entries);
      return false, newGaps, newEntries;
    }
    var k := 0;
    while k < |gaps|
      invariant 0 <= k <= |gaps|
      invariant forall i :: 0 <= i < k ==> !Fits(gaps[i], allocToPack)
    {
      var g := gaps[k];
      if g.interval.start > allocToPack.FirstUse() {
        break;
      }
      if g.segments < n || allocToPack.FirstUse() < g.interval.start || allocToPack.LastUse() > g.interval.end {
        k := k + 1;
        continue;
      }
      assert g in gaps;
      PackingKeepsState(allocToPackInto, gaps, entries, k, allocToPack);
      var offset := (allocToPackInto.NumSegments() - g.segments) * SEGMENT_BYTES;
      newEntries := entries + [AllocBufferOffset(allocToPack, offset)];
      newGaps := UpdateGap(gaps, k, allocToPack);
      SplitTakesRoom(gaps, k, allocToPack);
      assert PackedAt(allocToPackInto, gaps, entries, allocToPack, k, newGaps, newEntries);
      return true, newGaps, newEntries;
    }
    assert forall i :: k < i < |gaps| ==> gaps[k].interval.end < gaps[i].interval.start;
    return false, newGaps, newEntries;
  }

  /** Takes the segments out of gap `k`, trims it to the lifetime, adds the rest of it behind and
      before, and drops it if nothing is left. */
  method UpdateGap(gaps: seq<Gap>, k: nat, allocToPack: AllocationInfo) returns (newGaps: seq<Gap>)
    requires k < |gaps| && SortedGaps(gaps) && allocToPack.Valid() && Fits(gaps[k], allocToPack)
    ensures newGaps == gaps[..k] + SplitGap(gaps[k], allocToPack) + gaps[k + 1..]
  {
    var g, gapIter := gaps[k], k;
    var freeContiguousMemory := g.segments;
    var left := freeContiguousMemory - allocToPack.NumSegments();
    ghost var front, rest, middle := gaps[..k], gaps[k + 1..], Gap(g.interval, left);
    ghost var ahead: seq<Gap>, later: seq<Gap> := [], [];
    newGaps := gaps[gapIter := Gap(g.interval, left)];
    Around(gaps, k);
    ReplaceAt(front, g, rest, middle);
    if LengthOf(g.interval) > LengthOf(allocToPack.Lifetime()) {
      newGaps := newGaps[gapIter := Gap(allocToPack.Lifetime(), left)];
      ReplaceAt(front, middle, rest, Gap(allocToPack.Lifetime(), left));
      middle := Gap(allocToPack.Lifetime(), left);
      if allocToPack.LastUse() < g.interval.end {
        var behind := Gap(UseInterval(allocToPack.LastUse() + 1, g.interval.end), freeContiguousMemory);
        newGaps := newGaps[..gapIter + 1] + [behind] + newGaps[gapIter + 1..];
        InsertAfter(front, middle, rest, behind);
        later, rest := [behind], [behind] + rest;
      }
      if allocToPack.FirstUse() > g.interval.start {
        var before := Gap(UseInterval(g.interval.start, allocToPack.FirstUse() - 1), freeContiguousMemory);
        newGaps := newGaps[..gapIter] + [before] + newGaps[gapIter..];
        InsertBefore(front, middle, rest, before);
        ahead, front := [before], front + [before];
        gapIter := gapIter + 1;
      }
    } else {
      assert g.interval == allocToPack.Lifetime();
    }
    if left <= 0 {
      newGaps := newGaps[..gapIter] + newGaps[gapIter + 1..];
      EraseAt(front, middle, rest);
    }
    ghost var kept := if left > 0 then [middle] else [];
    assert newGaps == front + kept + rest;
    Regroup(gaps[..k], ahead, kept, later, gaps[k + 1..]);
    assert SplitGap(g, allocToPack) == ahead + kept + later;
  }

  lemma Regroup<T>(front: seq<T>, a: seq<T>, b: seq<T>, c: seq<T>, rest: seq<T>)
    ensures (front + a) + b + (c + rest) == front + (a + b + c) + rest
  {
  }

  lemma Around<T>(s: seq<T>, k: nat)
    requires k < |s|
    ensures s == s[..k] + [s[k]] + s[k + 1..]
    ensures s[..k] == s[..k] + [] && s[k + 1..] == [] + s[k + 1..]
  {
  }

  lemma ReplaceAt<T>(front: seq<T>, m: T, rest: seq<T>, x: T)
    ensures (front + [m] + rest)[|front| := x] == front + [x] + rest
  {
  }

  lemma InsertAfter<T>(front: seq<T>, m: T, rest: seq<T>, x: T)
    ensures (front + [m] + rest)[..|front| + 1] + [x] + (front + [m] + rest)[|front| + 1..]
         == front + [m] + ([x] + rest)
  {
  }

  lemma InsertBefore<T>(front: seq<T>, m: T, rest: seq<T>, x: T)
    ensures (front + [m] + rest)[..|front|] + [x] + (front + [m] + rest)[|front|..] == (front + [x]) + [m] + rest
  {
  }

  lemma EraseAt<T>(front: seq<T>, m: T, rest: seq<T>)
    ensures (front + [m] + rest)[..|front|] + (front + [m] + rest)[|front| + 1..] == front + [] + rest
  {
  }

  // ---------------------------------------------------------------- exactly what the gaps leave

  /** The last time that the gaps of a host reach. */
  function Reach(host: AllocationInfo, maxUserangeId: nat): nat
    requires host.Valid()
  {
    if host.LastUse() + 1 < maxUserangeId then maxUserangeId else host.LastUse()
  }

  /** The host needs no memory during `u`. */
  ghost predicate Idle(host: AllocationInfo, maxUserangeId: nat, u: UseInterval) {
    host.Valid() && u.start <= u.end <= Reach(host, maxUserangeId) && UnusedDuring(host, u)
  }

  predicate MeetsEntry(e: AllocBufferOffset, u: UseInterval) {
    e.source.Valid() && e.source.Lifetime().IsOverlapping(u)
  }

  predicate LivesThrough(e: AllocBufferOffset, u: UseInterval) {
    e.source.Valid() && e.source.FirstUse() <= u.start && u.end <= e.source.LastUse()
  }

  /** No entry begins or ends during `u`. */
  ghost predicate Steady(entries: seq<AllocBufferOffset>, u: UseInterval) {
    forall e :: e in entries && MeetsEntry(e, u) ==> LivesThrough(e, u)
  }

  ghost predicate Occupied(entries: seq<AllocBufferOffset>, u: UseInterval) {
    exists e :: e in entries && MeetsEntry(e, u)
  }

  /** `top` is where the entries that meet `u` end, zero if there are none. */
  ghost predicate FilledTo(entries: seq<AllocBufferOffset>, u: UseInterval, top: nat) {
    && (forall e :: e in entries && MeetsEntry(e, u) ==> EndOffset(e) <= top)
    && if Occupied(entries, u) then exists e :: e in entries && MeetsEntry(e, u) && EndOffset(e) == top else top == 0
  }

  /** During `u` the host is idle, no entry begins or ends, and the bytes from `top` on are not in use; a host that
      entries fill up to its end has no room left, not even for nothing. */
  ghost predicate HasRoom(host: AllocationInfo, maxUserangeId: nat, entries: seq<AllocBufferOffset>, u: UseInterval,
                          top: nat)
  {
    && Idle(host, maxUserangeId, u) && Steady(entries, u) && FilledTo(entries, u, top)
    && (Occupied(entries, u) ==> top < host.NumSegments() * SEGMENT_BYTES)
  }

  /** The allocation can be packed, from `top` on, into a host with these entries. */
  ghost predicate CanTake(host: AllocationInfo, maxUserangeId: nat, entries: seq<AllocBufferOffset>,
                          info: AllocationInfo, top: nat)
  {
    && info.Valid() && HasRoom(host, maxUserangeId, entries, info.Lifetime(), top)
    && top + info.NumSegments() * SEGMENT_BYTES <= host.NumSegments() * SEGMENT_BYTES
  }

  /** Where the free segments of a gap begin. */
  function Offset(host: AllocationInfo, g: Gap): nat
    requires g.segments <= host.NumSegments()
  {
    (host.NumSegments() - g.segments) * SEGMENT_BYTES
  }

  /** Behind the new entry, the segments that are left begin. */
  lemma EntryEnds(host: AllocationInfo, g: Gap, info: AllocationInfo, rest: Gap)
    requires g.segments <= host.NumSegments() && info.NumSegments() + rest.segments == g.segments
    ensures EntryFor(host, g, info).offset == Offset(host, g)
    ensures EndOffset(EntryFor(host, g, info)) == Offset(host, rest)
  {
  }

  ghost predicate GapHasRoom(host: AllocationInfo, maxUserangeId: nat, entries: seq<AllocBufferOffset>, g: Gap) {
    && g.segments <= host.NumSegments()
    && HasRoom(host, maxUserangeId, entries, g.interval, Offset(host, g))
  }

  ghost predicate Spanned(gaps: seq<Gap>, u: UseInterval) {
    exists g :: g in gaps && g.interval.start <= u.start && u.end <= g.interval.end
  }

  /** The gaps are exactly the room that is left: each of them has room, and they span whatever has. */
  ghost predicate GapsExact(host: AllocationInfo, maxUserangeId: nat, gaps: seq<Gap>, entries: seq<AllocBufferOffset>)
  {
    && (forall g :: g in gaps ==> GapHasRoom(host, maxUserangeId, entries, g))
    && forall u, top :: HasRoom(host, maxUserangeId, entries, u, top) ==> Spanned(gaps, u)
  }

  lemma UnusedPoint(host: AllocationInfo, u: UseInterval, t: nat)
    requires UnusedDuring(host, u) && u.Contains(t)
    ensures !InUse(host.userange, t)
  {
    forall k | 0 <= k < |host.userange|
      ensures !host.userange[k].Contains(t)
    {
      assert !host.userange[k].IsOverlapping(u);
    }
  }

  lemma IdleIsSpanned(host: AllocationInfo, maxUserangeId: nat, gaps: seq<Gap>, u: UseInterval)
    requires SortedGaps(gaps) && UsedBetween(host, gaps) && Idle(host, maxUserangeId, u)
    requires forall t: nat :: !InUse(host.userange, t) && t <= Reach(host, maxUserangeId) ==> InGap(gaps, t)
    ensures Spanned(gaps, u)
  {
    UnusedPoint(host, u, u.start);
    UnusedPoint(host, u, u.end);
    assert InGap(gaps, u.start) && InGap(gaps, u.end);
    var i :| 0 <= i < |gaps| && gaps[i].interval.Contains(u.start);
    var j :| 0 <= j < |gaps| && gaps[j].interval.Contains(u.end);
    if i < j {
      UnusedPoint(host, u, gaps[i].interval.end + 1);
    }
    assert gaps[i] in gaps;
  }

  /** The gaps of a host without entries. */
  lemma FreshGapsExact(host: AllocationInfo, maxUserangeId: nat, gaps: seq<Gap>)
    requires host.Valid() && SortedGaps(gaps) && UsedBetween(host, gaps) && PackingState(host, gaps, [])
    requires forall i :: 0 <= i < |gaps| ==> gaps[i].segments == host.NumSegments()
    requires forall t: nat :: InGap(gaps, t) <==> !InUse(host.userange, t) && t <= Reach(host, maxUserangeId)
    ensures GapsExact(host, maxUserangeId, gaps, [])
  {
    forall g | g in gaps
      ensures GapHasRoom(host, maxUserangeId, [], g)
    {
      var i :| 0 <= i < |gaps| && gaps[i] == g;
      assert g.interval.Contains(g.interval.end) && InGap(gaps, g.interval.end);
      assert GapIsFree(host, g, []);
    }
    forall u, top | HasRoom(host, maxUserangeId, [], u, top)
      ensures Spanned(gaps, u)
    {
      IdleIsSpanned(host, maxUserangeId, gaps, u);
    }
  }

  /** An entry that does not meet `u` makes no difference there. */
  lemma EntryElsewhere(entries: seq<AllocBufferOffset>, e: AllocBufferOffset, u: UseInterval, top: nat)
    requires !MeetsEntry(e, u)
    ensures Steady(entries + [e], u) <==> Steady(entries, u)
    ensures Occupied(entries + [e], u) <==> Occupied(entries, u)
    ensures FilledTo(entries + [e], u, top) <==> FilledTo(entries, u, top)
  {
    assert forall d :: d in entries + [e] && MeetsEntry(d, u) <==> d in entries && MeetsEntry(d, u);
  }

  /** The same entries meet two times, one inside the other, if none begins or ends in the longer one. */
  lemma SteadyInside(entries: seq<AllocBufferOffset>, outer: UseInterval, inner: UseInterval, top: nat)
    requires Steady(entries, outer) && outer.start <= inner.start <= inner.end <= outer.end
    ensures Steady(entries, inner) && (Occupied(entries, inner) <==> Occupied(entries, outer))
    ensures FilledTo(entries, inner, top) <==> FilledTo(entries, outer, top)
  {
    assert forall d :: d in entries ==> (MeetsEntry(d, inner) <==> MeetsEntry(d, outer));
  }

  lemma IdleInside(host: AllocationInfo, maxUserangeId: nat, outer: UseInterval, inner: UseInterval)
    requires Idle(host, maxUserangeId, outer) && outer.start <= inner.start <= inner.end <= outer.end
    ensures Idle(host, maxUserangeId, inner)
  {
  }

  /** A part of a time with room has the same room. */
  lemma RoomInside(host: AllocationInfo, maxUserangeId: nat, entries: seq<AllocBufferOffset>, outer: UseInterval,
                   inner: UseInterval, top: nat)
    requires HasRoom(host, maxUserangeId, entries, outer, top)
    requires outer.start <= inner.start <= inner.end <= outer.end
    ensures HasRoom(host, maxUserangeId, entries, inner, top)
  {
    SteadyInside(entries, outer, inner, top);
    IdleInside(host, maxUserangeId, outer, inner);
  }

  /** The room is where it begins. */
  lemma FilledToOnce(entries: seq<AllocBufferOffset>, u: UseInterval, top: nat, top': nat)
    requires FilledTo(entries, u, top) && FilledTo(entries, u, top')
    ensures top == top'
  {
  }

  /** A new entry in a time with room fills it up to its own end. */
  lemma FilledByEntry(entries: seq<AllocBufferOffset>, e: AllocBufferOffset, u: UseInterval)
    requires MeetsEntry(e, u) && forall d :: d in entries && MeetsEntry(d, u) ==> EndOffset(d) <= EndOffset(e)
    ensures FilledTo(entries + [e], u, EndOffset(e)) && Occupied(entries + [e], u)
  {
    assert e in entries + [e];
  }

  /** A piece of a split gap is the lifetime of the allocation with the segments that are left, or lies outside of it
      with all segments. */
  lemma PieceCases(g: Gap, info: AllocationInfo, h: Gap)
    requires info.Valid() && Fits(g, info) && h in SplitGap(g, info)
    ensures g.interval.start <= h.interval.start <= h.interval.end <= g.interval.end
    ensures (h.interval == info.Lifetime() && 0 < h.segments && info.NumSegments() + h.segments == g.segments)
         || (!info.Lifetime().IsOverlapping(h.interval) && h.segments == g.segments)
  {
    LifetimeIsInterval(info);
  }

  lemma MiddlePiece(gaps: seq<Gap>, k: nat, info: AllocationInfo, piece: Gap)
    requires k < |gaps| && info.Valid() && Fits(gaps[k], info) && 0 < piece.segments
    requires piece.interval == info.Lifetime() && info.NumSegments() + piece.segments == gaps[k].segments
    ensures piece in gaps[..k] + SplitGap(gaps[k], info) + gaps[k + 1..]
  {
    assert piece == Gap(info.Lifetime(), gaps[k].segments - info.NumSegments());
    assert piece in SplitGap(gaps[k], info);
  }

  /** During the lifetime of the new entry, the room begins behind it. */
  lemma MiddleHasRoom(host: AllocationInfo, maxUserangeId: nat, entries: seq<AllocBufferOffset>, g: Gap,
                      info: AllocationInfo, h: Gap)
    requires GapHasRoom(host, maxUserangeId, entries, g) && info.Valid() && Fits(g, info)
    requires h.interval == info.Lifetime() && 0 < h.segments && info.NumSegments() + h.segments == g.segments
    ensures GapHasRoom(host, maxUserangeId, entries + [EntryFor(host, g, info)], h)
  {
    var e := EntryFor(host, g, info);
    LifetimeIsInterval(info);
    EntryEnds(host, g, info, h);
    RoomInside(host, maxUserangeId, entries, g.interval, h.interval, Offset(host, g));
    FilledByEntry(entries, e, h.interval);
  }

  lemma OuterHasRoom(host: AllocationInfo, maxUserangeId: nat, entries: seq<AllocBufferOffset>, g: Gap,
                     info: AllocationInfo, h: Gap)
    requires GapHasRoom(host, maxUserangeId, entries, g) && info.Valid() && h.segments == g.segments
    requires g.interval.start <= h.interval.start <= h.interval.end <= g.interval.end
    requires !info.Lifetime().IsOverlapping(h.interval)
    ensures GapHasRoom(host, maxUserangeId, entries + [EntryFor(host, g, info)], h)
  {
    RoomInside(host, maxUserangeId, entries, g.interval, h.interval, Offset(host, g));
    EntryElsewhere(entries, EntryFor(host, g, info), h.interval, Offset(host, g));
  }

  lemma PieceHasRoom(host: AllocationInfo, maxUserangeId: nat, entries: seq<AllocBufferOffset>, g: Gap,
                     info: AllocationInfo, h: Gap)
    requires GapHasRoom(host, maxUserangeId, entries, g) && info.Valid() && Fits(g, info) && h in SplitGap(g, info)
    ensures GapHasRoom(host, maxUserangeId, entries + [EntryFor(host, g, info)], h)
  {
    PieceCases(g, info, h);
    if info.Lifetime().IsOverlapping(h.interval) {
      MiddleHasRoom(host, maxUserangeId, entries, g, info, h);
    } else {
      OuterHasRoom(host, maxUserangeId, entries, g, info, h);
    }
  }

  lemma OtherGapHasRoom(host: AllocationInfo, maxUserangeId: nat, entries: seq<AllocBufferOffset>, g: Gap,
                        info: AllocationInfo, h: Gap)
    requires GapHasRoom(host, maxUserangeId, entries, h) && info.Valid() && Fits(g, info)
    requires g.segments <= host.NumSegments()
    requires h.interval.end < g.interval.start || g.interval.end < h.interval.start
    ensures GapHasRoom(host, maxUserangeId, entries + [EntryFor(host, g, info)], h)
  {
    EntryElsewhere(entries, EntryFor(host, g, info), h.interval, Offset(host, h));
  }

  /** What had room besides the new entry is still in one piece. */
  lemma StillSpanned(gaps: seq<Gap>, info: AllocationInfo, k: nat, u: UseInterval)
    requires k < |gaps| && info.Valid() && Fits(gaps[k], info) && Spanned(gaps, u)
    requires u.start <= u.end && !info.Lifetime().IsOverlapping(u)
    ensures Spanned(gaps[..k] + SplitGap(gaps[k], info) + gaps[k + 1..], u)
  {
    var after := gaps[..k] + SplitGap(gaps[k], info) + gaps[k + 1..];
    var g :| g in gaps && g.interval.start <= u.start && u.end <= g.interval.end;
    if g == gaps[k] {
      LifetimeIsInterval(info);
      var piece := if u.end < info.FirstUse() then Gap(UseInterval(g.interval.start, info.FirstUse() - 1), g.segments)
                   else Gap(UseInterval(info.LastUse() + 1, g.interval.end), g.segments);
      assert piece in SplitGap(g, info);
      assert piece in after;
    } else {
      assert g in gaps[..k] || g in gaps[k + 1..];
      assert g in after;
    }
  }

  /** What has room above the new entry lies in the piece of the gap that the entry lives through. */
  lemma SpannedAbove(host: AllocationInfo, maxUserangeId: nat, gaps: seq<Gap>, entries: seq<AllocBufferOffset>,
                     info: AllocationInfo, k: nat, u: UseInterval, top: nat)
    requires k < |gaps| && info.Valid() && Fits(gaps[k], info)
    requires GapHasRoom(host, maxUserangeId, entries, gaps[k]) && info.Lifetime().IsOverlapping(u)
    requires HasRoom(host, maxUserangeId, entries + [EntryFor(host, gaps[k], info)], u, top)
    ensures Spanned(gaps[..k] + SplitGap(gaps[k], info) + gaps[k + 1..], u)
  {
    var g, e := gaps[k], EntryFor(host, gaps[k], info);
    FilledAbove(host, maxUserangeId, entries, g, info, u, top);
    var piece := Gap(info.Lifetime(), g.segments - info.NumSegments());
    EntryEnds(host, g, info, piece);
    MiddlePiece(gaps, k, info, piece);
  }

  /** Whatever has room besides the new entry and meets it lies in its lifetime, and the room begins at its end. */
  lemma FilledAbove(host: AllocationInfo, maxUserangeId: nat, entries: seq<AllocBufferOffset>, g: Gap,
                    info: AllocationInfo, u: UseInterval, top: nat)
    requires info.Valid() && Fits(g, info) && GapHasRoom(host, maxUserangeId, entries, g)
    requires info.Lifetime().IsOverlapping(u)
    requires HasRoom(host, maxUserangeId, entries + [EntryFor(host, g, info)], u, top)
    ensures info.FirstUse() <= u.start <= u.end <= info.LastUse()
    ensures EndOffset(EntryFor(host, g, info)) < host.NumSegments() * SEGMENT_BYTES
  {
    var e := EntryFor(host, g, info);
    assert e in entries + [e] && MeetsEntry(e, u) && LivesThrough(e, u);
    RoomInside(host, maxUserangeId, entries, g.interval, u, Offset(host, g));
    FilledByEntry(entries, e, u);
    FilledToOnce(entries + [e], u, top, EndOffset(e));
  }

  /** After the split, the gaps are again exactly the room that is left. */
  lemma PackingKeepsExact(host: AllocationInfo, maxUserangeId: nat, gaps: seq<Gap>, entries: seq<AllocBufferOffset>,
                          info: AllocationInfo, k: nat, newGaps: seq<Gap>, newEntries: seq<AllocBufferOffset>)
    requires SortedGaps(gaps) && GapsExact(host, maxUserangeId, gaps, entries)
    requires PackedAt(host, gaps, entries, info, k, newGaps, newEntries)
    ensures GapsExact(host, maxUserangeId, newGaps, newEntries)
  {
    var e := EntryFor(host, gaps[k], info);
    assert gaps[k] in gaps;
    forall h | h in newGaps
      ensures GapHasRoom(host, maxUserangeId, newEntries, h)
    {
      if h in SplitGap(gaps[k], info) {
        PieceHasRoom(host, maxUserangeId, entries, gaps[k], info, h);
      } else {
        OtherGap(gaps, k, h);
        OtherGapHasRoom(host, maxUserangeId, entries, gaps[k], info, h);
      }
    }
    forall u, top | HasRoom(host, maxUserangeId, newEntries, u, top)
      ensures Spanned(newGaps, u)
    {
      if MeetsEntry(e, u) {
        SpannedAbove(host, maxUserangeId, gaps, entries, info, k, u, top);
      } else {
        EntryElsewhere(entries, e, u, top);
        assert HasRoom(host, maxUserangeId, entries, u, top);
        StillSpanned(gaps, info, k, u);
      }
    }
  }

  lemma OtherGap(gaps: seq<Gap>, k: nat, h: Gap)
    requires SortedGaps(gaps) && k < |gaps| && (h in gaps[..k] || h in gaps[k + 1..])
    ensures h in gaps && (h.interval.end < gaps[k].interval.start || gaps[k].interval.end < h.interval.start)
  {
  }

  /** A gap that an allocation fits has room for it, from the offset of the new entry on. */
  lemma FittingIsTaken(host: AllocationInfo, maxUserangeId: nat, entries: seq<AllocBufferOffset>, g: Gap,
                       info: AllocationInfo)
    requires GapHasRoom(host, maxUserangeId, entries, g) && info.Valid() && Fits(g, info)
    ensures CanTake(host, maxUserangeId, entries, info, EntryFor(host, g, info).offset)
  {
    LifetimeIsInterval(info);
    RoomInside(host, maxUserangeId, entries, g.interval, info.Lifetime(), Offset(host, g));
  }

  /** A gap that spans the lifetime of an allocation that can be taken has room for it. */
  lemma SpanningFits(host: AllocationInfo, maxUserangeId: nat, entries: seq<AllocBufferOffset>, g: Gap,
                     info: AllocationInfo, top: nat)
    requires GapHasRoom(host, maxUserangeId, entries, g) && CanTake(host, maxUserangeId, entries, info, top)
    requires g.interval.start <= info.FirstUse() && info.LastUse() <= g.interval.end
    ensures Fits(g, info)
  {
    LifetimeIsInterval(info);
    RoomInside(host, maxUserangeId, entries, g.interval, info.Lifetime(), Offset(host, g));
    FilledToOnce(entries, info.Lifetime(), top, Offset(host, g));
    RoomIsEnough(host, g, info, top);
  }

  lemma TakenFits(host: AllocationInfo, maxUserangeId: nat, gaps: seq<Gap>, entries: seq<AllocBufferOffset>,
                  info: AllocationInfo, top: nat)
    requires GapsExact(host, maxUserangeId, gaps, entries) && CanTake(host, maxUserangeId, entries, info, top)
    ensures exists g :: g in gaps && Fits(g, info)
  {
    assert Spanned(gaps, info.Lifetime());
    var g :| g in gaps && g.interval.start <= info.Lifetime().start && info.Lifetime().end <= g.interval.end;
    SpanningFits(host, maxUserangeId, entries, g, info, top);
  }

  lemma RoomIsEnough(host: AllocationInfo, g: Gap, info: AllocationInfo, top: nat)
    requires g.segments <= host.NumSegments() && top == Offset(host, g)
    requires top + info.NumSegments() * SEGMENT_BYTES <= host.NumSegments() * SEGMENT_BYTES
    ensures info.NumSegments() <= g.segments
  {
  }

  /** Some gap fits an allocation if and only if the host can take it. */
  lemma FitsExactly(host: AllocationInfo, maxUserangeId: nat, gaps: seq<Gap>, entries: seq<AllocBufferOffset>,
                    info: AllocationInfo)
    requires GapsExact(host, maxUserangeId, gaps, entries) && info.Valid()
    ensures !NoneFits(gaps, info) <==> exists top :: CanTake(host, maxUserangeId, entries, info, top)
  {
    forall g | g in gaps && Fits(g, info)
      ensures exists top :: CanTake(host, maxUserangeId, entries, info, top)
    {
      FittingIsTaken(host, maxUserangeId, entries, g, info);
    }
    forall top | CanTake(host, maxUserangeId, entries, info, top)
      ensures !NoneFits(gaps, info)
    {
      TakenFits(host, maxUserangeId, gaps, entries, info, top);
    }
  }

  /** What did not fit before does not fit after room was taken. */
  lemma NoneFitsInLess(gaps: seq<Gap>, newGaps: seq<Gap>, info: AllocationInfo)
    requires info.Valid() && NoneFits(gaps, info) && TakesRoom(gaps, newGaps)
    ensures NoneFits(newGaps, info)
  {
  }

  lemma InitialState(host: AllocationInfo, maxUserangeId: nat, gaps: seq<Gap>)
    requires host.Valid() && SortedGaps(gaps)
    requires forall i :: 0 <= i < |gaps| ==> gaps[i].segments == host.NumSegments()
    requires forall t: nat :: InGap(gaps, t) ==> !InUse(host.userange, t)
    ensures PackingState(host, gaps, [])
  {
    forall g | g in gaps
      ensures UnusedDuring(host, g.interval)
    {
      forall k | 0 <= k < |host.userange|
        ensures !host.userange[k].IsOverlapping(g.interval)
      {
        var u := host.userange[k];
        if u.IsOverlapping(g.interval) {
          var t := if u.start <= g.interval.start then g.interval.start else u.start;
          assert g.interval.Contains(t) && u.Contains(t);
          assert InGap(gaps, t);
        }
      }
    }
  }
}
