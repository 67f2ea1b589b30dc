/** VolumeDefragmenter: keeps a GapStore of the volume's free gaps and
    defragments one file at a time into the gap the placement policy picks. */
module Defragmenter {
  import opened Gaps
  import opened BitmapScan
  import opened Placement
  import opened Relocation
  import opened GapRegistry

  /** Taking `a` and then `b` clusters off the front of a gap leaves what
      taking `a + b` at once leaves. */
  lemma RemainderTwice(g: Gap, a: int, b: int)
    ensures Remainder(Remainder(g, a), b) == Remainder(g, a + b)
  {
  }

  /** Positive lengths do not depend on the order the gaps are listed in. */
  lemma PositiveOfSameGaps(a: seq<Gap>, b: seq<Gap>)
    requires multiset(a) == multiset(b) && Positive(b)
    ensures Positive(a)
  {
    forall i | 0 <= i < |a| ensures a[i].length > 0 {
      assert a[i] in multiset(b);
      var j :| 0 <= j < |b| && b[j] == a[i];
    }
  }

  /** The gap the policy chooses over the enumeration sits at some index of
      the address view, and is at least as long as the file. */
  lemma LocateChosen(s: seq<Gap>, elements: seq<Gap>, fileLength: int) returns (idx: int)
    requires multiset(elements) == multiset(s) && Positive(s) && 0 <= fileLength
    requires Select(elements, fileLength) != NoGap
    ensures 0 <= idx < |s| && s[idx] == Select(elements, fileLength)
    ensures s[idx].length >= fileLength && s[idx].length > 0
  {
    var best := Select(elements, fileLength);
    assert best in multiset(s);
    idx :| 0 <= idx < |s| && s[idx] == best;
    SelectAvoidsSlackBand(elements, fileLength);
  }

  /** The first gap of an enumeration ordered by non-increasing length is one
      of the gaps and is as long as any of them. */
  lemma LongestFirst(elements: seq<Gap>, gaps: seq<Gap>)
    requires multiset(elements) == multiset(gaps) && LengthsNonIncreasing(elements) && |elements| > 0
    ensures elements[0] in gaps
    ensures forall g :: g in gaps ==> g.length <= elements[0].length
  {
    assert elements[0] in multiset(gaps);
    forall g | g in gaps ensures g.length <= elements[0].length {
      assert g in multiset(elements);
      var j :| 0 <= j < |elements| && elements[j] == g;
    }
  }

  /** The address view after the first `used` clusters of `best`, at index
      `k` of `byLcn0`, were taken from its front: while part of `best` is left
      it takes `best`'s place, once all of it is used `best` is gone; every
      other gap is as it was. */
  ghost predicate ShrunkAt(byLcn0: seq<Gap>, best: Gap, k: int, used: int, byLcn: seq<Gap>)
  {
    0 <= k < |byLcn0| && 0 <= used <= best.length && byLcn == ViewAfter(byLcn0, best, k, used)
  }

  /** `byLcn0` with `best`, at index `k`, shrunk from the front by `used`
      clusters, or dropped once all of it is used. */
  ghost function ViewAfter(byLcn0: seq<Gap>, best: Gap, k: int, used: int): seq<Gap>
    requires 0 <= k < |byLcn0|
  {
    if used < best.length then byLcn0[k := Remainder(best, used)] else byLcn0[..k] + byLcn0[k + 1..]
  }

  /** Before any move the address view is the one the walk starts from. */
  lemma NothingShrunkYet(byLcn0: seq<Gap>, best: Gap, k: int)
    requires 0 <= k < |byLcn0| && byLcn0[k] == best && best.length > 0
    ensures ShrunkAt(byLcn0, best, k, 0, byLcn0)
  {
    assert Remainder(best, 0) == best;
    assert byLcn0[k := best] == byLcn0;
  }

  /** One DeleteGap of `count` clusters at the front of what is left of
      `best` extends the shrinking by `count`. */
  lemma ShrinkFurther(byLcn0: seq<Gap>, best: Gap, k: int, used: int, count: int, used': int,
                      cur: seq<Gap>, next: seq<Gap>)
    requires ShrunkAt(byLcn0, best, k, used, cur) && used < best.length
    requires 0 <= count && used + count <= best.length && used' == used + count
    requires used + count < best.length ==> next == cur[k := Remainder(cur[k], count)]
    requires used + count == best.length ==> next == cur[..k] + cur[k + 1..]
    ensures ShrunkAt(byLcn0, best, k, used', next)
  {
    RemainderTwice(best, used, count);
    if used + count == best.length {
      assert cur[..k] == byLcn0[..k] && cur[k + 1..] == byLcn0[k + 1..];
    }
  }

  /** The first gap a freshly built store enumerates is the first of the
      longest length's bucket, so over runs sorted by start it has the lowest
      start among the gaps of its length. */
  lemma FirstOfStoreIsLowest(runs: seq<Gap>, keys: seq<int>, buckets: map<int, seq<Gap>>)
    requires StartsSorted(runs) && KeysMatch(keys, buckets)
    requires forall len :: Bucket(buckets, len) == Filter(runs, len)
    requires forall len :: len in buckets ==> buckets[len] != []
    requires Flatten(keys, buckets) != []
    ensures var first := Flatten(keys, buckets)[0];
            forall g :: g in runs && g.length == first.length ==> first.startLcn <= g.startLcn
  {
    assert keys != [];
    var top := Filter(runs, keys[0]);
    assert keys[0] in buckets && Bucket(buckets, keys[0]) == top && top != [];
    assert Flatten(keys, buckets)[0] == top[0];
    FilterMembers(runs, keys[0]);
    assert top[0] in top;
    FilterHeadLowest(runs, keys[0]);
  }

  class VolumeDefragmenter {
    /** `_gaps` */
    var gaps: GapStore

    ghost predicate Valid()
      reads this, gaps
    {
      gaps.Valid()
    }

    /** The constructor maps the volume at once. */
    constructor (volumeMap: seq<bool>)
      ensures Valid() && fresh(gaps)
      ensures gaps.byLcn == FreeRuns(volumeMap)
      ensures forall len :: Bucket(gaps.buckets, len) == Filter(FreeRuns(volumeMap), len)
    {
      gaps := new GapStore([]);
      new;
      var _, _ := RebuildVolumeMap(volumeMap);
    }

    /** RebuildVolumeMap: scans the allocation bitmap (`true` = in use) into
        its free runs and builds a fresh GapStore of them. It returns the number
        of free clusters and the gap reported as the largest (`First()` of the
        store's enumeration), or None where `First()` throws because the volume
        has no free cluster. */
    method RebuildVolumeMap(volumeMap: seq<bool>) returns (freeClusters: int, largest: Option<Gap>)
      modifies this
      ensures fresh(gaps) && Valid()
      ensures gaps.byLcn == FreeRuns(volumeMap)
      ensures forall len :: Bucket(gaps.buckets, len) == Filter(FreeRuns(volumeMap), len)
      ensures freeClusters == TotalLength(FreeRuns(volumeMap))
      ensures largest == None <==> forall c :: 0 <= c < |volumeMap| ==> volumeMap[c]
      ensures largest.Some? ==>
                largest.value in FreeRuns(volumeMap)
                && (forall g :: g in FreeRuns(volumeMap) ==> g.length <= largest.value.length)
                && (forall g :: g in FreeRuns(volumeMap) && g.length == largest.value.length ==>
                      largest.value.startLcn <= g.startLcn)
    {
      var runs;
      runs, freeClusters := ScanVolumeMap(volumeMap);
      RunsAreStorable(volumeMap);
      SortByLcnOfSorted(runs);
      gaps := new GapStore(runs);
      var elements := gaps.Elements();
      assert multiset(elements) == multiset(runs);
      NoRunsIffFull(volumeMap);
      if |elements| == 0 {
        largest := None;
      } else {
        largest := Some(elements[0]);
        LongestFirst(elements, runs);
        FirstOfStoreIsLowest(runs, gaps.lengthKeys, gaps.buckets);
      }
    }

    /** The store while the chosen gap `best`, at index `k` of the address
        view `byLcn0` the walk started from, is being used up from the front:
        it is valid; while part of `best` is left, the address view is
        `byLcn0` with `best` replaced by what is left after its first `used`
        clusters, and once all of it is used, `byLcn0` without `best`; every
        other gap is as it was, and the store has `used` fewer free clusters
        than the `total0` it started from. */
    ghost predicate Consuming(byLcn0: seq<Gap>, best: Gap, k: int, used: int, total0: int)
      reads this, gaps
    {
      gaps.Valid() && ShrunkAt(byLcn0, best, k, used, gaps.byLcn)
      && TotalLength(gaps.byLcn) == total0 - used
    }

    /** The state of DefragFile's walk after visiting the first `i` extents:
        the cursor is the walk's, the failing MoveFile call (if any) is not
        among the moves issued, the chosen gap has lost the clusters moved, and
        while nothing is issued the store is as it was (`byLcn0`, `keys0`,
        `buckets0`). */
    ghost predicate Walking(fileMap: seq<Extent>, failAt: Option<nat>, best: Gap,
                            byLcn0: seq<Gap>, keys0: seq<int>, buckets0: map<int, seq<Gap>>,
                            k: int, total0: int, i: int, c: Cursor)
      reads this, gaps
    {
      WalkedTo(fileMap, best.startLcn, i, c)
      && (failAt.Some? ==> failAt.value >= |c.moves|)
      && Consuming(byLcn0, best, k, SumCounts(c.moves), total0)
      && (c.moves == [] ==> gaps.byLcn == byLcn0 && gaps.lengthKeys == keys0 && gaps.buckets == buckets0)
    }

    /** The walk starts with nothing moved and the store as it is. */
    lemma WalkingStarts(fileMap: seq<Extent>, failAt: Option<nat>, best: Gap, k: int)
      requires gaps.Valid() && 0 <= k < |gaps.byLcn| && gaps.byLcn[k] == best && best.length > 0
      ensures Walking(fileMap, failAt, best, gaps.byLcn, gaps.lengthKeys, gaps.buckets, k, TotalLength(gaps.byLcn),
                      0, Cursor(0, best.startLcn, []))
    {
      NothingShrunkYet(gaps.byLcn, best, k);
      WalkedNone(fileMap, best.startLcn);
    }

    /** Wherever the walk stops, the store has lost the clusters moved from the
        front of the chosen gap, and is as it was when nothing was moved. */
    lemma WalkingStore(fileMap: seq<Extent>, failAt: Option<nat>, best: Gap,
                       byLcn0: seq<Gap>, keys0: seq<int>, buckets0: map<int, seq<Gap>>,
                       k: int, total0: int, i: int, c: Cursor)
      requires Walking(fileMap, failAt, best, byLcn0, keys0, buckets0, k, total0, i, c)
      ensures Consuming(byLcn0, best, k, SumCounts(c.moves), total0)
      ensures c.moves == [] ==> gaps.byLcn == byLcn0 && gaps.lengthKeys == keys0 && gaps.buckets == buckets0
    {
    }

    /** The store side of one move (DeleteGap, then AddGap): `count` clusters
        at `curLcn` leave the front of what is left of the chosen gap, which
        sits at index `k` of the address view, and both views change as
        DeleteGap's case for that index prescribes. */
    method TakeFromGap(ghost byLcn0: seq<Gap>, ghost best: Gap, ghost k: int, ghost used: int, ghost usedNext: int,
                       ghost total0: int, curLcn: int, count: int, vacatedLcn: int)
      requires Consuming(byLcn0, best, k, used, total0)
      requires curLcn == best.startLcn + used && 0 <= count && used < best.length && used + count <= best.length
      requires usedNext == used + count
      modifies gaps
      ensures Consuming(byLcn0, best, k, usedNext, total0)
      ensures DeletedAt(old(gaps.byLcn), old(gaps.lengthKeys), old(gaps.buckets),
                        gaps.byLcn, gaps.lengthKeys, gaps.buckets, k, count)
    {
      ghost var cur, keys0, buckets0 := gaps.byLcn, gaps.lengthKeys, gaps.buckets;
      ghost var g := cur[k];
      assert g == Remainder(best, used) && g.startLcn == curLcn && count <= g.length;
      var r := gaps.DeleteGap(curLcn, count);
      assert r == Deleted && DeletedAt(cur, keys0, buckets0, gaps.byLcn, gaps.lengthKeys, gaps.buckets, k, count);
      ShrinkFurther(byLcn0, best, k, used, count, usedNext, cur, gaps.byLcn);
      gaps.AddGap(vacatedLcn, count);
    }

    /** The store side of one turn of the walk: when the turn issued a move
        (right after the clusters already moved, within the file's length),
        its clusters leave the front of the chosen gap, both views changing as
        DeleteGap's case for that gap's index prescribes; otherwise the store
        is left alone. */
    method ConsumeMove(ghost byLcn0: seq<Gap>, bestGap: Gap, ghost k: int, ghost total0: int, ghost fileLength: int,
                       curVcn: int, curLcn: int, nextVcn: int, vacatedLcn: int,
                       issued: seq<Move>, issuedNext: seq<Move>)
      requires bestGap.length >= fileLength && bestGap.length > 0
      requires Consuming(byLcn0, bestGap, k, SumCounts(issued), total0)
      requires issuedNext == issued
               || (issuedNext == issued + [Move(curVcn, curLcn, nextVcn - curVcn)]
                   && curLcn == bestGap.startLcn + SumCounts(issued) && 0 <= nextVcn - curVcn
                   && (issued == [] || curVcn < nextVcn)
                   && SumCounts(issuedNext) == SumCounts(issued) + (nextVcn - curVcn)
                   && SumCounts(issuedNext) <= fileLength)
      modifies gaps
      ensures Consuming(byLcn0, bestGap, k, SumCounts(issuedNext), total0)
      ensures issuedNext == issued ==>
                gaps.byLcn == old(gaps.byLcn) && gaps.lengthKeys == old(gaps.lengthKeys) && gaps.buckets == old(gaps.buckets)
      ensures issuedNext != issued ==>
                DeletedAt(old(gaps.byLcn), old(gaps.lengthKeys), old(gaps.buckets),
                          gaps.byLcn, gaps.lengthKeys, gaps.buckets, k, nextVcn - curVcn)
    {
      if issuedNext != issued {
        TakeFromGap(byLcn0, bestGap, k, SumCounts(issued), SumCounts(issuedNext), total0, curLcn, nextVcn - curVcn, vacatedLcn);
      }
    }

    /** DefragFile: moves the file whose extents `fileMap` lists into one gap.
        A single-extent file is left alone (false); otherwise the placement
        policy picks a gap over the store's enumeration, and the extents are
        walked in order, each one moved to the next clusters of the gap unless
        the skip test holds. Every move is taken out of the store as it is
        made. `failAt` is the number of the MoveFile call that throws, if
        any. The result is whether the gap fitted exactly. */
    method DefragFile(fileMap: seq<Extent>, failAt: Option<nat>) returns (outcome: Outcome, issued: seq<Move>, ghost at: int)
      requires Valid() && WellFormedFileMap(fileMap)
      modifies gaps
      ensures Valid()
      ensures |fileMap| == 0 ==> outcome == Failed(IndexOutOfRange) && issued == []
      ensures |fileMap| == 1 ==> outcome == Finished(false) && issued == []
      ensures |fileMap| >= 2 && Select(old(gaps.Elements()), FileLength(fileMap)) == NoGap ==>
                outcome == Failed(NoSuitableGap) && issued == []
      ensures |fileMap| >= 2 && Select(old(gaps.Elements()), FileLength(fileMap)) != NoGap ==>
                issued == Issued(Walk(fileMap, Select(old(gaps.Elements()), FileLength(fileMap)).startLcn).moves, failAt)
                && outcome == WalkOutcome(Walk(fileMap, Select(old(gaps.Elements()), FileLength(fileMap)).startLcn).moves,
                                          failAt, Select(old(gaps.Elements()), FileLength(fileMap)), FileLength(fileMap))
      ensures issued == [] ==>
                gaps.byLcn == old(gaps.byLcn) && gaps.lengthKeys == old(gaps.lengthKeys) && gaps.buckets == old(gaps.buckets)
      ensures TotalLength(gaps.byLcn) == old(TotalLength(gaps.byLcn)) - SumCounts(issued)
      ensures |fileMap| >= 2 && Select(old(gaps.Elements()), FileLength(fileMap)) != NoGap ==>
                var best := Select(old(gaps.Elements()), FileLength(fileMap));
                0 <= at < |old(gaps.byLcn)| && old(gaps.byLcn)[at] == best
                && ShrunkAt(old(gaps.byLcn), best, at, SumCounts(issued), gaps.byLcn)
    {
      issued := [];
      at := -1;
      if |fileMap| == 1 {
        outcome := Finished(false);
        return;
      }
      if |fileMap| == 0 {
        outcome := Failed(IndexOutOfRange);
        return;
      }
      var fileLength := fileMap[|fileMap| - 1].vcn;
      assert 0 <= fileLength by {
        assert fileMap[0].vcn < fileMap[|fileMap| - 1].vcn;
      }
      var elements := gaps.Elements();
      var bestGap := SelectGap(elements, fileLength);
      PositiveOfSameGaps(elements, gaps.byLcn);
      SelectNothingIffZero(elements, fileLength);
      if bestGap.length == 0 {
        outcome := Failed(NoSuitableGap);
        return;
      }
      at := LocateChosen(gaps.byLcn, elements, fileLength);
      outcome, issued := Relocate(fileMap, failAt, bestGap, at);
    }

    /** One turn of the walk, for extent `i`: skipped when the skip test
        holds; otherwise moved to the LCN cursor, unless that MoveFile call is
        the one that fails, and its clusters leave the store. */
    method VisitExtent(fileMap: seq<Extent>, failAt: Option<nat>, bestGap: Gap,
                       ghost byLcn0: seq<Gap>, ghost keys0: seq<int>, ghost buckets0: map<int, seq<Gap>>,
                       ghost k: int, ghost total0: int,
                       i: int, curVcn: int, curLcn: int, issued: seq<Move>)
      returns (moveFailed: bool, nextVcn: int, nextLcn: int, issuedNext: seq<Move>)
      requires WellFormedFileMap(fileMap) && 0 <= i < |fileMap|
      requires bestGap.length >= FileLength(fileMap) && bestGap.length > 0
      requires Walking(fileMap, failAt, bestGap, byLcn0, keys0, buckets0, k, total0, i, Cursor(curVcn, curLcn, issued))
      modifies gaps
      ensures moveFailed ==>
                failAt == Some(|issued|) && issuedNext == issued
                && |issued| < |Walk(fileMap, bestGap.startLcn).moves|
                && Issued(Walk(fileMap, bestGap.startLcn).moves, Some(|issued|)) == issued
                && Walking(fileMap, failAt, bestGap, byLcn0, keys0, buckets0, k, total0, i, Cursor(curVcn, curLcn, issued))
      ensures !moveFailed ==>
                Walking(fileMap, failAt, bestGap, byLcn0, keys0, buckets0, k, total0, i + 1,
                        Cursor(nextVcn, nextLcn, issuedNext))
      ensures issuedNext == issued ==>
                gaps.byLcn == old(gaps.byLcn) && gaps.lengthKeys == old(gaps.lengthKeys) && gaps.buckets == old(gaps.buckets)
    {
      moveFailed, nextVcn, nextLcn, issuedNext :=
        WalkOneExtent(fileMap, failAt, bestGap.startLcn, i, curVcn, curLcn, issued);
      ConsumeMove(byLcn0, bestGap, k, total0, FileLength(fileMap),
                  curVcn, curLcn, nextVcn, fileMap[i].lcn, issued, issuedNext);
    }

    /** The walk of DefragFile: the extents are visited in order with a VCN
        cursor from 0 and an LCN cursor from the start of `bestGap`, which the
        address view holds at `k`; each extent not skipped is moved to the LCN
        cursor and its clusters leave the store. */
    method Relocate(fileMap: seq<Extent>, failAt: Option<nat>, bestGap: Gap, ghost k: int)
      returns (outcome: Outcome, issued: seq<Move>)
      requires gaps.Valid() && WellFormedFileMap(fileMap) && |fileMap| > 0
      requires 0 <= k < |gaps.byLcn| && gaps.byLcn[k] == bestGap
      requires bestGap.length >= FileLength(fileMap) && bestGap.length > 0
      modifies gaps
      ensures issued == Issued(Walk(fileMap, bestGap.startLcn).moves, failAt)
      ensures outcome == WalkOutcome(Walk(fileMap, bestGap.startLcn).moves, failAt, bestGap, FileLength(fileMap))
      ensures issued == [] ==>
                gaps.byLcn == old(gaps.byLcn) && gaps.lengthKeys == old(gaps.lengthKeys) && gaps.buckets == old(gaps.buckets)
      ensures Consuming(old(gaps.byLcn), bestGap, k, SumCounts(issued), old(TotalLength(gaps.byLcn)))
    {
      var fileLength := fileMap[|fileMap| - 1].vcn;
      issued := [];
      ghost var byLcn0 := gaps.byLcn;
      ghost var total0 := TotalLength(gaps.byLcn);
      ghost var keys0, buckets0 := gaps.lengthKeys, gaps.buckets;
      WalkingStarts(fileMap, failAt, bestGap, k);

      var curVcn := 0;
      var curLcn := bestGap.startLcn;
      var i := 0;
      while i < |fileMap|
        invariant Walking(fileMap, failAt, bestGap, byLcn0, keys0, buckets0, k, total0, i, Cursor(curVcn, curLcn, issued))
      {
        var moveFailed;
        ghost var vcnBefore, lcnBefore := curVcn, curLcn;
        moveFailed, curVcn, curLcn, issued :=
          VisitExtent(fileMap, failAt, bestGap, byLcn0, keys0, buckets0, k, total0, i, curVcn, curLcn, issued);
        if moveFailed {
          WalkingStore(fileMap, failAt, bestGap, byLcn0, keys0, buckets0, k, total0, i, Cursor(vcnBefore, lcnBefore, issued));
          return Failed(MoveFailed), issued;
        }
        i := i + 1;
      }
      WalkedAll(fileMap, bestGap.startLcn, Cursor(curVcn, curLcn, issued));
      WalkingStore(fileMap, failAt, bestGap, byLcn0, keys0, buckets0, k, total0, i, Cursor(curVcn, curLcn, issued));
      return Finished(bestGap.length == fileLength), issued;
    }
  }
}
