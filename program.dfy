/** Program.DefragOne, the older defragmentation of one file without a gap
    registry: the free runs of the volume are collected afresh into a
    SortedSet<Gap> ordered by Gap.CompareTo, a destination gap is chosen by
    walking that order, and the file's extents are moved there. Nothing records
    which clusters the moves consume. */
module LegacyDefrag {
  import opened Gaps
  import opened BitmapScan
  import opened Placement
  import opened Relocation

  // ---- Gap.CompareTo ----

  /** `Gap.CompareTo`: a negative result puts `a` before `b`. Longer gaps come
      first; among gaps of equal length, the one at the higher address. Only
      two gaps that agree on both fields compare equal. */
  function CompareTo(a: Gap, b: Gap): (r: int)
    ensures r == -1 || r == 0 || r == 1
    ensures r == 0 <==> a == b
  {
    if a.length > b.length then -1
    else if a.length < b.length then 1
    else if a.startLcn > b.startLcn then -1
    else if a.startLcn < b.startLcn then 1
    else 0
  }

  /** Swapping the operands negates the comparison. */
  lemma CompareAntisymmetric(a: Gap, b: Gap)
    ensures CompareTo(a, b) == -CompareTo(b, a)
  {
  }

  /** "Comes before" is transitive. */
  lemma CompareTransitive(a: Gap, b: Gap, c: Gap)
    requires CompareTo(a, b) < 0 && CompareTo(b, c) < 0
    ensures CompareTo(a, c) < 0
  {
  }

  /** A gap comes before another exactly when it is longer, or as long and
      at a higher address. */
  lemma CompareIsLengthThenAddressDescending(a: Gap, b: Gap)
    ensures CompareTo(a, b) < 0 <==>
              a.length > b.length || (a.length == b.length && a.startLcn > b.startLcn)
  {
  }

  // ---- SortedSet<Gap> ----

  /** A SortedSet<Gap> as the sequence its enumeration yields: strictly
      ascending in CompareTo order. */
  ghost predicate SetOrdered(s: seq<Gap>)
  {
    forall i, j :: 0 <= i < j < |s| ==> CompareTo(s[i], s[j]) < 0
  }

  ghost predicate Distinct(s: seq<Gap>)
  {
    forall i, j :: 0 <= i < j < |s| ==> s[i] != s[j]
  }

  /** `SortedSet.Add`: `g` is put in its place in the order, unless an element
      comparing equal to it is already present, which leaves the set as it was. */
  function SetAdd(s: seq<Gap>, g: Gap): (r: seq<Gap>)
    ensures forall x :: x in r <==> x in s || x == g
    ensures g !in s ==> multiset(r) == multiset(s) + multiset{g}
    decreases |s|
  {
    if s == [] then [g]
    else
      var c := CompareTo(g, s[0]);
      if c < 0 then [g] + s
      else if c == 0 then s
      else
        assert s == [s[0]] + s[1..];
        [s[0]] + SetAdd(s[1..], g)
  }

  /** A gap that comes before the first of an ordered set can be put in
      front of it, and is not in it. */
  lemma PutInFront(s: seq<Gap>, g: Gap)
    requires SetOrdered(s) && s != [] && CompareTo(g, s[0]) < 0
    ensures SetOrdered([g] + s) && g !in s
  {
    var r := [g] + s;
    forall j | 1 <= j < |r| ensures CompareTo(g, r[j]) < 0 {
      if j > 1 { CompareTransitive(g, s[0], s[j - 1]); }
    }
    forall i, j | 0 <= i < j < |r| ensures CompareTo(r[i], r[j]) < 0 {
      if i > 0 { assert r[i] == s[i - 1] && r[j] == s[j - 1]; }
    }
    if g in s {
      var k :| 0 <= k < |s| && s[k] == g;
      CompareAntisymmetric(g, s[0]);
    }
  }

  /** A gap that comes before every element of an ordered sequence can head it. */
  lemma PutBehind(first: Gap, tail: seq<Gap>)
    requires SetOrdered(tail)
    requires forall x :: x in tail ==> CompareTo(first, x) < 0
    ensures SetOrdered([first] + tail)
  {
    var r := [first] + tail;
    forall i, j | 0 <= i < j < |r| ensures CompareTo(r[i], r[j]) < 0 {
      assert r[j] == tail[j - 1];
      if i > 0 { assert r[i] == tail[i - 1]; }
    }
  }

  /** The first element of an ordered set comes before all the others, which
      are ordered among themselves. */
  lemma SplitFirst(s: seq<Gap>)
    requires SetOrdered(s) && s != []
    ensures SetOrdered(s[1..])
    ensures forall x :: x in s[1..] ==> CompareTo(s[0], x) < 0
  {
    var rest := s[1..];
    forall i, j | 0 <= i < j < |rest| ensures CompareTo(rest[i], rest[j]) < 0 {
      assert rest[i] == s[i + 1] && rest[j] == s[j + 1];
    }
    forall x | x in rest ensures CompareTo(s[0], x) < 0 {
      var k :| 0 <= k < |rest| && rest[k] == x;
      assert s[k + 1] == x;
    }
  }

  /** Adding to an ordered set keeps it ordered, and adding a gap already
      present changes nothing. */
  lemma {:induction false} SetAddKeepsOrder(s: seq<Gap>, g: Gap)
    requires SetOrdered(s)
    ensures SetOrdered(SetAdd(s, g))
    ensures g in s ==> SetAdd(s, g) == s
    decreases |s|
  {
    if s != [] {
      var c := CompareTo(g, s[0]);
      if c < 0 {
        PutInFront(s, g);
      } else if c > 0 {
        var rest := s[1..];
        assert s == [s[0]] + rest;
        SplitFirst(s);
        SetAddKeepsOrder(rest, g);
        CompareAntisymmetric(g, s[0]);
        PutBehind(s[0], SetAdd(rest, g));
      }
    }
  }

  /** The SortedSet after adding the gaps of `s` one after another to an empty one. */
  function SetOf(s: seq<Gap>): (r: seq<Gap>)
    ensures SetOrdered(r)
    ensures forall x :: x in r <==> x in s
    decreases |s|
  {
    if s == [] then []
    else
      var prior := SetOf(s[..|s| - 1]);
      SetAddKeepsOrder(prior, s[|s| - 1]);
      SetAdd(prior, s[|s| - 1])
  }

  /** Adding distinct gaps loses none and duplicates none: the set holds
      exactly the gaps added. */
  lemma {:induction false} SetOfDistinct(s: seq<Gap>)
    requires Distinct(s)
    ensures multiset(SetOf(s)) == multiset(s)
    decreases |s|
  {
    if s != [] {
      var init := s[..|s| - 1];
      var last := s[|s| - 1];
      assert Distinct(init);
      SetOfDistinct(init);
      assert last !in init;
      assert s == init + [last];
    }
  }

  /** The set enumeration lists longer gaps no later than shorter ones. */
  lemma OrderedLengthsNonIncreasing(s: seq<Gap>)
    requires SetOrdered(s)
    ensures LengthsNonIncreasing(s)
  {
    forall i, j | 0 <= i < j < |s| ensures s[i].length >= s[j].length {
      CompareIsLengthThenAddressDescending(s[i], s[j]);
    }
  }

  // ---- The scan into the set ----

  /** The runs of a volume are pairwise different. */
  lemma RunsDistinct(bitmap: seq<bool>)
    ensures Distinct(FreeRuns(bitmap))
  {
    RunsAreStorable(bitmap);
    var runs := FreeRuns(bitmap);
    forall i, j | 0 <= i < j < |runs| ensures runs[i] != runs[j] {
      assert Disjoint(runs[i], runs[j]) && runs[i].length > 0;
    }
  }

  /** The SortedSet DefragOne builds holds every free run once, each with a
      positive length, in CompareTo order. */
  lemma LegacySetOfRuns(bitmap: seq<bool>)
    ensures var gaps := SetOf(FreeRuns(bitmap));
            SetOrdered(gaps) && LengthsNonIncreasing(gaps) && Positive(gaps)
            && multiset(gaps) == multiset(FreeRuns(bitmap))
            && |gaps| == |FreeRuns(bitmap)|
  {
    var runs := FreeRuns(bitmap);
    var gaps := SetOf(runs);
    RunsDistinct(bitmap);
    SetOfDistinct(runs);
    assert |multiset(gaps)| == |multiset(runs)|;
    OrderedLengthsNonIncreasing(gaps);
    RunsAreStorable(bitmap);
    forall k | 0 <= k < |gaps| ensures gaps[k].length > 0 {
      assert gaps[k] in runs;
    }
  }

  /** DefragOne's scan (Program.cs repeats RebuildVolumeMap's loop): each
      maximal run of free clusters is added to the SortedSet as it is found,
      and `freeClusters` counts the free clusters. */
  method ScanIntoSortedSet(bitmap: seq<bool>) returns (gaps: seq<Gap>, freeClusters: int)
    ensures gaps == SetOf(FreeRuns(bitmap))
    ensures freeClusters == TotalLength(FreeRuns(bitmap))
  {
    freeClusters := 0;
    gaps := [];
    ghost var found: seq<Gap> := [];
    var i := 0;
    while i < |bitmap|
      invariant 0 <= i <= |bitmap|
      invariant found + RunsFrom(bitmap, i) == FreeRuns(bitmap)
      invariant gaps == SetOf(found)
      invariant freeClusters == TotalLength(found)
      decreases |bitmap| - i
    {
      ghost var i0 := i;
      var gapStart := SkipUsedClusters(bitmap, i);
      i, freeClusters := CountFreeRun(bitmap, gapStart, freeClusters);
      ScanRound(bitmap, found, i0, gapStart, i);
      if i != gapStart {
        var g := Gap(gapStart, i - gapStart);
        assert (found + [g])[..|found|] == found;
        found := found + [g];
        gaps := SetAdd(gaps, g);
      }
    }
    assert found + [] == found;
  }

  // ---- Selection over the set order ----

  /** The first gap of the file's length in the enumeration. */
  lemma {:induction false} FirstExactFit(gaps: seq<Gap>, fileLength: int, k: int) returns (j: int)
    requires 0 <= k < |gaps| && gaps[k].length == fileLength
    ensures 0 <= j <= k && gaps[j].length == fileLength
    ensures forall i :: 0 <= i < j ==> gaps[i].length != fileLength
    decreases k
  {
    if exists i :: 0 <= i < k && gaps[i].length == fileLength {
      var i :| 0 <= i < k && gaps[i].length == fileLength;
      j := FirstExactFit(gaps, fileLength, i);
    } else {
      j := k;
    }
  }

  /** The last gap of at least twice the file's length in the enumeration. */
  lemma {:induction false} LastAmpleFit(gaps: seq<Gap>, fileLength: int, k: int) returns (m: int)
    requires 0 <= k < |gaps| && gaps[k].length >= 2 * fileLength
    ensures k <= m < |gaps| && gaps[m].length >= 2 * fileLength
    ensures forall i :: m < i < |gaps| ==> gaps[i].length < 2 * fileLength
    decreases |gaps| - k
  {
    if exists i :: k < i < |gaps| && gaps[i].length >= 2 * fileLength {
      var i :| k < i < |gaps| && gaps[i].length >= 2 * fileLength;
      m := LastAmpleFit(gaps, fileLength, i);
    } else {
      m := k;
    }
  }

  /** Among the gaps of exactly the file's length, DefragOne picks the one at
      the highest address. */
  lemma ExactFitHighestAddress(gaps: seq<Gap>, fileLength: int, k: int)
    requires SetOrdered(gaps) && 0 <= fileLength
    requires 0 <= k < |gaps| && gaps[k].length == fileLength
    ensures Select(gaps, fileLength).length == fileLength
    ensures Select(gaps, fileLength).startLcn >= gaps[k].startLcn
  {
    OrderedLengthsNonIncreasing(gaps);
    var j := FirstExactFit(gaps, fileLength, k);
    SelectPolicy(gaps, fileLength);
    if j < k {
      CompareIsLengthThenAddressDescending(gaps[j], gaps[k]);
    }
  }

  /** With no gap of exactly the file's length, DefragOne picks the shortest
      gap of at least twice the file's length, and among those the one at the
      lowest address. */
  lemma AmpleFitLowestAddress(gaps: seq<Gap>, fileLength: int, k: int)
    requires SetOrdered(gaps) && 0 <= fileLength
    requires forall i :: 0 <= i < |gaps| ==> gaps[i].length != fileLength
    requires 0 <= k < |gaps| && gaps[k].length >= 2 * fileLength
    ensures var r := Select(gaps, fileLength);
            r in gaps && 2 * fileLength <= r.length <= gaps[k].length
            && (r.length == gaps[k].length ==> r.startLcn <= gaps[k].startLcn)
  {
    OrderedLengthsNonIncreasing(gaps);
    var m := LastAmpleFit(gaps, fileLength, k);
    SelectPolicy(gaps, fileLength);
    if k < m {
      CompareIsLengthThenAddressDescending(gaps[k], gaps[m]);
    }
  }

  /** Over the set of a volume's runs, nothing is chosen exactly when no gap
      has the file's length and none has twice it. */
  lemma NoSuitableGapIff(gaps: seq<Gap>, fileLength: int)
    requires SetOrdered(gaps) && Positive(gaps) && 0 <= fileLength
    ensures Select(gaps, fileLength) == NoGap <==>
              forall i :: 0 <= i < |gaps| ==> gaps[i].length != fileLength && gaps[i].length < 2 * fileLength
  {
    OrderedLengthsNonIncreasing(gaps);
    SelectPolicy(gaps, fileLength);
    if exists k :: 0 <= k < |gaps| && gaps[k].length == fileLength {
      var k :| 0 <= k < |gaps| && gaps[k].length == fileLength;
      ExactFitHighestAddress(gaps, fileLength, k);
      SelectNothingIffZero(gaps, fileLength);
    } else if exists k :: 0 <= k < |gaps| && gaps[k].length >= 2 * fileLength {
      var k :| 0 <= k < |gaps| && gaps[k].length >= 2 * fileLength;
      AmpleFitLowestAddress(gaps, fileLength, k);
      var r := Select(gaps, fileLength);
      var j :| 0 <= j < |gaps| && gaps[j] == r;
    }
  }

  // ---- DefragOne ----

  /** The gap DefragOne moves the file to: the selection over the SortedSet
      of the volume's free runs, NoGap when none suits. */
  function LegacyChoice(fileMap: seq<Extent>, volumeMap: seq<bool>): Gap
    requires |fileMap| > 0
  {
    Select(SetOf(FreeRuns(volumeMap)), FileLength(fileMap))
  }

  /** The gap DefragOne chooses holds the whole file, and every move of its
      walk lands on clusters that were free in the volume map, one move
      starting where the previous one ended. */
  lemma LegacyMovesLandOnFreeClusters(fileMap: seq<Extent>, volumeMap: seq<bool>)
    requires WellFormedFileMap(fileMap) && |fileMap| > 0
    requires LegacyChoice(fileMap, volumeMap) != NoGap
    ensures var best := LegacyChoice(fileMap, volumeMap);
            var moves := Walk(fileMap, best.startLcn).moves;
            best.length >= FileLength(fileMap)
            && (forall k :: 0 <= k < |moves| ==> best.startLcn <= moves[k].lcn && moves[k].End() <= best.End())
            && (forall k :: 0 < k < |moves| ==> moves[k].lcn == moves[k - 1].End())
            && (forall c :: best.Covers(c) ==> 0 <= c < |volumeMap| && !volumeMap[c])
  {
    var best := LegacyChoice(fileMap, volumeMap);
    var runs := FreeRuns(volumeMap);
    assert 0 <= FileLength(fileMap) by {
      assert fileMap[0].vcn <= fileMap[|fileMap| - 1].vcn;
    }
    SelectAvoidsSlackBand(SetOf(runs), FileLength(fileMap));
    WalkStaysInDestination(fileMap, best.startLcn);
    FreeRunsDecompose(volumeMap);
    assert best in runs;
    var j :| 0 <= j < |runs| && runs[j] == best;
    forall c | best.Covers(c) ensures 0 <= c < |volumeMap| && !volumeMap[c] {
      assert runs[j].Covers(c);
    }
  }

  /** DefragOne's cursor loop: extents are visited in order with a VCN cursor
      from 0 and an LCN cursor from `startLcn`; the loop stops at the MoveFile
      call that throws, if any. */
  method MoveExtents(fileMap: seq<Extent>, failAt: Option<nat>, startLcn: int)
    returns (moveFailed: bool, issued: seq<Move>)
    requires WellFormedFileMap(fileMap)
    ensures issued == Issued(Walk(fileMap, startLcn).moves, failAt)
    ensures moveFailed <==> failAt.Some? && failAt.value < |Walk(fileMap, startLcn).moves|
  {
    issued := [];
    var curVcn := 0;
    var curLcn := startLcn;
    WalkedNone(fileMap, startLcn);
    var i := 0;
    while i < |fileMap|
      invariant WalkedTo(fileMap, startLcn, i, Cursor(curVcn, curLcn, issued))
      invariant failAt.Some? ==> failAt.value >= |issued|
    {
      moveFailed, curVcn, curLcn, issued := WalkOneExtent(fileMap, failAt, startLcn, i, curVcn, curLcn, issued);
      if moveFailed {
        return;
      }
      i := i + 1;
    }
    WalkedAll(fileMap, startLcn, Cursor(curVcn, curLcn, issued));
    moveFailed := false;
  }

  /** `DefragOne`: the file map and the volume bitmap are the results of
      GetFileMap and GetVolumeMap, `failAt` numbers the MoveFile call that
      throws (if any). A single-extent file is left alone and reports false;
      an empty map throws on `filemap[filemap.Length - 1]`; a full volume
      throws on `First()`; no suitable gap throws before any move; otherwise
      the walk runs and the result is whether the gap fitted exactly. */
  method DefragOne(fileMap: seq<Extent>, volumeMap: seq<bool>, failAt: Option<nat>)
    returns (outcome: Outcome, issued: seq<Move>)
    requires WellFormedFileMap(fileMap)
    ensures |fileMap| == 0 ==> outcome == Failed(IndexOutOfRange) && issued == []
    ensures |fileMap| == 1 ==> outcome == Finished(false) && issued == []
    ensures |fileMap| >= 2 && (forall c :: 0 <= c < |volumeMap| ==> volumeMap[c]) ==>
              outcome == Failed(NoFreeSpace) && issued == []
    ensures |fileMap| >= 2 && (exists c :: 0 <= c < |volumeMap| && !volumeMap[c])
            && LegacyChoice(fileMap, volumeMap) == NoGap ==>
              outcome == Failed(NoSuitableGap) && issued == []
    ensures |fileMap| >= 2 && LegacyChoice(fileMap, volumeMap) != NoGap ==>
              var best := LegacyChoice(fileMap, volumeMap);
              var plan := Walk(fileMap, best.startLcn).moves;
              issued == Issued(plan, failAt)
              && outcome == WalkOutcome(plan, failAt, best, FileLength(fileMap))
  {
    issued := [];
    if |fileMap| == 1 {
      return Finished(false), issued;
    }
    if |fileMap| == 0 {
      return Failed(IndexOutOfRange), issued;
    }
    var fileLength := fileMap[|fileMap| - 1].vcn;
    var gaps, freeClusters := ScanIntoSortedSet(volumeMap);
    NoRunsIffFull(volumeMap);
    LegacySetOfRuns(volumeMap);
    if |gaps| == 0 {
      return Failed(NoFreeSpace), issued;
    }
    var bestGap := SelectGap(gaps, fileLength);
    SelectNothingIffZero(gaps, fileLength);
    if bestGap.length == 0 {
      return Failed(NoSuitableGap), issued;
    }
    var moveFailed;
    moveFailed, issued := MoveExtents(fileMap, failAt, bestGap.startLcn);
    if moveFailed {
      return Failed(MoveFailed), issued;
    }
    return Finished(bestGap.length == fileLength), issued;
  }
}
