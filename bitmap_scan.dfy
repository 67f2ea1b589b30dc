/** The left-to-right scan of a volume's allocation bitmap (one bool per
    cluster, true = used) into the maximal runs of free clusters. */
module BitmapScan {
  import opened Gaps

  /** The first cluster at or after `i` that is free, or |bitmap| if none is. */
  function SkipUsed(bitmap: seq<bool>, i: nat): (j: nat)
    requires i <= |bitmap|
    ensures i <= j <= |bitmap|
    ensures j == |bitmap| || !bitmap[j]
    ensures forall k :: i <= k < j ==> bitmap[k]
    decreases |bitmap| - i
  {
    if i == |bitmap| || !bitmap[i] then i else SkipUsed(bitmap, i + 1)
  }

  /** The first cluster at or after `i` that is used, or |bitmap| if none is. */
  function SkipFree(bitmap: seq<bool>, i: nat): (j: nat)
    requires i <= |bitmap|
    ensures i <= j <= |bitmap|
    ensures j == |bitmap| || bitmap[j]
    ensures forall k :: i <= k < j ==> !bitmap[k]
    decreases |bitmap| - i
  {
    if i == |bitmap| || bitmap[i] then i else SkipFree(bitmap, i + 1)
  }

  /** The free runs found by the scan when it resumes at cluster `i`: skip the
      used clusters, take the free ones that follow as one run, repeat. */
  function RunsFrom(bitmap: seq<bool>, i: nat): seq<Gap>
    requires i <= |bitmap|
    decreases |bitmap| - i
  {
    if i == |bitmap| then []
    else
      var s := SkipUsed(bitmap, i);
      var e := SkipFree(bitmap, s);
      assert s == i ==> !bitmap[i];
      (if e != s then [Gap(s, e - s)] else []) + RunsFrom(bitmap, e)
  }

  /** The maximal runs of free clusters of the whole volume, in address order. */
  function FreeRuns(bitmap: seq<bool>): seq<Gap>
  {
    RunsFrom(bitmap, 0)
  }

  /** Every run has a positive length and lies inside clusters [from, |bitmap|). */
  ghost predicate RunsInBounds(bitmap: seq<bool>, gaps: seq<Gap>, from: nat)
  {
    forall k :: 0 <= k < |gaps| ==>
      0 < gaps[k].length && from <= gaps[k].startLcn && gaps[k].End() <= |bitmap|
  }

  /** A cluster from `from` on is free exactly when some run covers it. */
  ghost predicate CoversExactlyFree(bitmap: seq<bool>, gaps: seq<Gap>, from: nat)
  {
    forall c :: from <= c < |bitmap| ==>
      (!bitmap[c] <==> exists k :: 0 <= k < |gaps| && gaps[k].Covers(c))
  }

  /** `gaps` is exactly the decomposition of the clusters from `from` on into
      maximal free runs: positive lengths, inside the volume, in ascending
      address order with a used cluster between neighbours, and a cluster is
      free exactly when some run covers it. */
  ghost predicate IsRunDecomposition(bitmap: seq<bool>, gaps: seq<Gap>, from: nat)
  {
    RunsInBounds(bitmap, gaps, from) && Separated(gaps) && CoversExactlyFree(bitmap, gaps, from)
  }

  /** The runs found after a used cluster `e` all start beyond it. */
  lemma RestStartsAfter(bitmap: seq<bool>, rest: seq<Gap>, e: nat)
    requires e <= |bitmap| && (e == |bitmap| || bitmap[e])
    requires RunsInBounds(bitmap, rest, e) && CoversExactlyFree(bitmap, rest, e)
    ensures forall k :: 0 <= k < |rest| ==> e < rest[k].startLcn
  {
    forall k | 0 <= k < |rest|
      ensures e < rest[k].startLcn
    {
      assert rest[k].Covers(rest[k].startLcn);
    }
  }

  lemma ConsInBounds(bitmap: seq<bool>, i: nat, head: seq<Gap>, rest: seq<Gap>, e: nat)
    requires i <= e <= |bitmap|
    requires RunsInBounds(bitmap, head, i) && RunsInBounds(bitmap, rest, e)
    ensures RunsInBounds(bitmap, head + rest, i)
  {
    var all := head + rest;
    forall k | 0 <= k < |all|
      ensures 0 < all[k].length && i <= all[k].startLcn && all[k].End() <= |bitmap|
    {
      if k >= |head| { assert all[k] == rest[k - |head|]; }
    }
  }

  lemma ConsSeparated(head: seq<Gap>, rest: seq<Gap>, e: int)
    requires |head| <= 1 && Separated(rest)
    requires forall k :: 0 <= k < |head| ==> head[k].End() == e
    requires forall k :: 0 <= k < |rest| ==> e < rest[k].startLcn
    ensures Separated(head + rest)
  {
    var all := head + rest;
    forall a, b | 0 <= a < b < |all|
      ensures all[a].End() < all[b].startLcn
    {
      if a >= |head| {
        assert all[a] == rest[a - |head|] && all[b] == rest[b - |head|];
      } else {
        assert all[b] == rest[b - 1];
      }
    }
  }

  lemma ConsCovers(bitmap: seq<bool>, i: nat, s: nat, e: nat, head: seq<Gap>, rest: seq<Gap>)
    requires i <= s <= e <= |bitmap|
    requires forall c :: i <= c < s ==> bitmap[c]
    requires forall c :: s <= c < e ==> !bitmap[c]
    requires head == if e != s then [Gap(s, e - s)] else []
    requires CoversExactlyFree(bitmap, rest, e)
    requires forall k :: 0 <= k < |rest| ==> e < rest[k].startLcn
    ensures CoversExactlyFree(bitmap, head + rest, i)
  {
    var all := head + rest;
    forall c | i <= c < |bitmap|
      ensures !bitmap[c] <==> exists k :: 0 <= k < |all| && all[k].Covers(c)
    {
      if c < e {
        forall k | |head| <= k < |all| ensures !all[k].Covers(c) {
          assert all[k] == rest[k - |head|];
        }
        if s <= c { assert all[0].Covers(c); }
      } else if !bitmap[c] {
        var k :| 0 <= k < |rest| && rest[k].Covers(c);
        assert all[|head| + k] == rest[k];
      } else {
        forall k | 0 <= k < |all| ensures !all[k].Covers(c) {
          if k >= |head| { assert all[k] == rest[k - |head|]; }
        }
      }
    }
  }

  lemma {:induction false} RunsFromDecomposes(bitmap: seq<bool>, i: nat)
    requires i <= |bitmap|
    ensures IsRunDecomposition(bitmap, RunsFrom(bitmap, i), i)
    decreases |bitmap| - i
  {
    if i < |bitmap| {
      var s := SkipUsed(bitmap, i);
      var e := SkipFree(bitmap, s);
      assert s == i ==> !bitmap[i];
      RunsFromDecomposes(bitmap, e);
      var rest := RunsFrom(bitmap, e);
      var head: seq<Gap> := if e != s then [Gap(s, e - s)] else [];
      assert RunsFrom(bitmap, i) == head + rest;
      RestStartsAfter(bitmap, rest, e);
      ConsInBounds(bitmap, i, head, rest, e);
      ConsSeparated(head, rest, e);
      ConsCovers(bitmap, i, s, e, head, rest);
    }
  }

  /** FreeRuns is the decomposition of the whole volume into maximal free runs. */
  lemma FreeRunsDecompose(bitmap: seq<bool>)
    ensures IsRunDecomposition(bitmap, FreeRuns(bitmap), 0)
  {
    RunsFromDecomposes(bitmap, 0);
  }

  /** Every free cluster lies in exactly one run, and no used cluster lies in any. */
  lemma FreeRunsPartition(bitmap: seq<bool>, c: nat)
    requires c < |bitmap|
    ensures !bitmap[c] ==> exists k :: 0 <= k < |FreeRuns(bitmap)| && FreeRuns(bitmap)[k].Covers(c)
    ensures forall k1, k2 ::
              (0 <= k1 < |FreeRuns(bitmap)| && 0 <= k2 < |FreeRuns(bitmap)|
               && FreeRuns(bitmap)[k1].Covers(c) && FreeRuns(bitmap)[k2].Covers(c))
              ==> k1 == k2 && !bitmap[c]
  {
    FreeRunsDecompose(bitmap);
  }

  /** The runs of a bitmap are positive and apart, as the GapStore requires. */
  lemma RunsAreStorable(bitmap: seq<bool>)
    ensures Positive(FreeRuns(bitmap)) && NoOverlap(FreeRuns(bitmap)) && StartsSorted(FreeRuns(bitmap))
  {
    FreeRunsDecompose(bitmap);
    var runs := FreeRuns(bitmap);
    forall i, j | 0 <= i < j < |runs| ensures Disjoint(runs[i], runs[j]) && runs[i].startLcn <= runs[j].startLcn {
      assert runs[i].End() < runs[j].startLcn && runs[i].length > 0;
    }
  }

  /** A volume has no free run exactly when every cluster is in use. */
  lemma NoRunsIffFull(bitmap: seq<bool>)
    ensures FreeRuns(bitmap) == [] <==> forall c :: 0 <= c < |bitmap| ==> bitmap[c]
  {
    FreeRunsDecompose(bitmap);
    var runs := FreeRuns(bitmap);
    if runs != [] {
      var c := runs[0].startLcn;
      assert 0 <= c < |bitmap| && runs[0].Covers(c);
      assert !bitmap[c];
    }
  }

  /** One round of the scan from `i`: it ends strictly further on, and the
      run it finds (if any) is the next one still to find. */
  lemma ScanRound(bitmap: seq<bool>, found: seq<Gap>, i: nat, s: nat, e: nat)
    requires i < |bitmap| && s == SkipUsed(bitmap, i) && e == SkipFree(bitmap, s)
    requires found + RunsFrom(bitmap, i) == FreeRuns(bitmap)
    ensures i < e
    ensures e == s ==> found + RunsFrom(bitmap, e) == FreeRuns(bitmap)
    ensures e != s ==> (found + [Gap(s, e - s)]) + RunsFrom(bitmap, e) == FreeRuns(bitmap)
    ensures e != s ==> TotalLength(found + [Gap(s, e - s)]) == TotalLength(found) + (e - s)
  {
    if s == i { assert !bitmap[i]; }
    if e != s {
      var g := Gap(s, e - s);
      assert (found + [g]) + RunsFrom(bitmap, e) == found + ([g] + RunsFrom(bitmap, e));
      assert (found + [g])[..|found|] == found;
    }
  }

  /** The scan's inner loop over used clusters: the first free cluster at or
      after `i`, or |bitmap|. */
  method SkipUsedClusters(bitmap: seq<bool>, i: nat) returns (j: nat)
    requires i <= |bitmap|
    ensures j == SkipUsed(bitmap, i)
  {
    j := i;
    while j < |bitmap| && bitmap[j]
      invariant i <= j <= |bitmap|
      invariant SkipUsed(bitmap, j) == SkipUsed(bitmap, i)
    {
      j := j + 1;
    }
  }

  /** The scan's inner loop over free clusters: the end of the run starting at
      `s`, with `freeClusters` counted up by one per free cluster passed. */
  method CountFreeRun(bitmap: seq<bool>, s: nat, freeClusters: int) returns (e: nat, total: int)
    requires s <= |bitmap|
    ensures e == SkipFree(bitmap, s)
    ensures total == freeClusters + (e - s)
  {
    e := s;
    total := freeClusters;
    while e < |bitmap| && !bitmap[e]
      invariant s <= e <= |bitmap|
      invariant SkipFree(bitmap, e) == SkipFree(bitmap, s)
      invariant total == freeClusters + (e - s)
    {
      total := total + 1;
      e := e + 1;
    }
  }

  /** RebuildVolumeMap's scan (and the identical one in DefragOne): the runs
      come out in address order and `freeClusters` counts their clusters. */
  method ScanVolumeMap(bitmap: seq<bool>) returns (gaps: seq<Gap>, freeClusters: int)
    ensures gaps == FreeRuns(bitmap)
    ensures IsRunDecomposition(bitmap, gaps, 0)
    ensures freeClusters == TotalLength(gaps)
  {
    freeClusters := 0;
    var i := 0;
    gaps := [];
    while i < |bitmap|
      invariant 0 <= i <= |bitmap|
      invariant gaps + RunsFrom(bitmap, i) == FreeRuns(bitmap)
      invariant freeClusters == TotalLength(gaps)
      decreases |bitmap| - i
    {
      ghost var i0 := i;
      var gapStart := SkipUsedClusters(bitmap, i);
      i, freeClusters := CountFreeRun(bitmap, gapStart, freeClusters);
      ScanRound(bitmap, gaps, i0, gapStart, i);
      if i != gapStart {
        gaps := gaps + [Gap(gapStart, i - gapStart)];
      }
    }
    FreeRunsDecompose(bitmap);
  }
}
