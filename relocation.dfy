/** The extent relocation walk shared by VolumeDefragmenter.DefragFile and
    Program.DefragOne: two cursors, the file's next VCN and the next destination
    LCN, advanced over the file map. */
module Relocation {
  import opened Gaps

  const Int32Max := 0x7fff_ffff

  /** One file map entry: `vcn` is the VCN one past the extent's last cluster
      (so the last entry's `vcn` is the file length), `lcn` where the extent
      currently starts on the volume. */
  datatype Extent = Extent(vcn: int, lcn: int)

  /** One MoveFile call: `count` clusters of the file starting at `vcn` go to
      the volume at `lcn`. */
  datatype Move = Move(vcn: int, lcn: int, count: int)
  {
    function End(): int { lcn + count }
  }

  /** The walk's state: `curVcn`, `curLcn` and the moves issued so far. */
  datatype Cursor = Cursor(vcn: int, lcn: int, moves: seq<Move>)

  datatype DefragError =
    | IndexOutOfRange   // an empty file map: `filemap[filemap.Length - 1]`
    | NoFreeSpace       // `First()` of an empty gap set (DefragOne only)
    | NoSuitableGap     // "ERROR: no suitable gap found"
    | MoveFailed        // MoveFile threw

  /** What the defragmentation of one file returns, or the exception it throws. */
  datatype Outcome = Finished(perfectFit: bool) | Failed(error: DefragError)

  /** The file maps GetFileMap hands over: strictly increasing VCNs from 0 on,
      small enough that the `checked((int) ...)` cast never throws and the int
      `curVcn` never wraps. */
  ghost predicate WellFormedFileMap(fileMap: seq<Extent>)
  {
    (forall i, j :: 0 <= i < j < |fileMap| ==> fileMap[i].vcn < fileMap[j].vcn)
    && (|fileMap| > 0 ==> 0 <= fileMap[0].vcn && fileMap[|fileMap| - 1].vcn <= Int32Max)
  }

  function FileLength(fileMap: seq<Extent>): int
    requires |fileMap| > 0
  {
    fileMap[|fileMap| - 1].vcn
  }

  function SumCounts(moves: seq<Move>): int
  {
    if moves == [] then 0 else SumCounts(moves[..|moves| - 1]) + moves[|moves| - 1].count
  }

  /** One iteration of the walk. An extent is skipped when `curLcn` equals its
      LCN plus its length; a skip advances `curVcn` only. Otherwise it is moved
      to `curLcn` and both cursors advance. */
  function Step(c: Cursor, e: Extent): Cursor
  {
    var count := e.vcn - c.vcn;
    if c.lcn == e.lcn + count then Cursor(e.vcn, c.lcn, c.moves)
    else Cursor(e.vcn, c.lcn + count, c.moves + [Move(c.vcn, c.lcn, count)])
  }

  /** The cursors and the moves after walking the whole of `fileMap`, the
      destination starting at `startLcn`, when no move fails. */
  function Walk(fileMap: seq<Extent>, startLcn: int): Cursor
    decreases |fileMap|
  {
    if fileMap == [] then Cursor(0, startLcn, [])
    else Step(Walk(fileMap[..|fileMap| - 1], startLcn), fileMap[|fileMap| - 1])
  }

  /** The moves issued when the MoveFile call numbered `failAt` (if any) throws:
      those before it. */
  function Issued(plan: seq<Move>, failAt: Option<nat>): seq<Move>
  {
    if failAt.Some? && failAt.value < |plan| then plan[..failAt.value] else plan
  }

  /** The result of the walk: true iff the chosen gap fits exactly, unless a
      move failed. */
  function WalkOutcome(plan: seq<Move>, failAt: Option<nat>, best: Gap, fileLength: int): Outcome
  {
    if failAt.Some? && failAt.value < |plan| then Failed(MoveFailed)
    else Finished(best.length == fileLength)
  }

  lemma {:induction false} SumCountsPrefix(moves: seq<Move>, k: nat)
    requires k < |moves|
    ensures SumCounts(moves[..k + 1]) == SumCounts(moves[..k]) + moves[k].count
  {
    assert moves[..k + 1][..k] == moves[..k];
  }

  /** The moves of a shorter walk are a prefix of those of a longer one. */
  lemma {:induction false} WalkPrefix(fileMap: seq<Extent>, startLcn: int, i: nat)
    requires i <= |fileMap|
    ensures Walk(fileMap[..i], startLcn).moves <= Walk(fileMap, startLcn).moves
    decreases |fileMap|
  {
    if i < |fileMap| {
      var shorter := fileMap[..|fileMap| - 1];
      assert shorter[..i] == fileMap[..i];
      WalkPrefix(shorter, startLcn, i);
    } else {
      assert fileMap[..i] == fileMap;
    }
  }

  /** Each move has a non-negative count and goes to the LCN right after the
      clusters moved before it. */
  ghost predicate MovesConsecutive(moves: seq<Move>, startLcn: int)
  {
    forall k :: 0 <= k < |moves| ==>
      moves[k].count >= 0 && moves[k].lcn == startLcn + SumCounts(moves[..k])
  }

  lemma ConsecutiveExtend(moves: seq<Move>, startLcn: int, m: Move)
    requires MovesConsecutive(moves, startLcn)
    requires m.count >= 0 && m.lcn == startLcn + SumCounts(moves)
    ensures MovesConsecutive(moves + [m], startLcn)
  {
    var all := moves + [m];
    assert all[..|moves|] == moves;
    forall k | 0 <= k < |moves|
      ensures all[..k] == moves[..k]
    {
    }
  }

  /** One step keeps the cursor facts of WalkCursors. */
  lemma StepCursors(c: Cursor, e: Extent, startLcn: int)
    requires c.lcn == startLcn + SumCounts(c.moves)
    requires 0 <= SumCounts(c.moves) <= c.vcn <= e.vcn
    requires MovesConsecutive(c.moves, startLcn)
    ensures var d := Step(c, e);
            d.vcn == e.vcn && d.lcn == startLcn + SumCounts(d.moves)
            && 0 <= SumCounts(d.moves) <= d.vcn
            && MovesConsecutive(d.moves, startLcn)
  {
    var d := Step(c, e);
    if d.moves != c.moves {
      var m := Move(c.vcn, c.lcn, e.vcn - c.vcn);
      assert d.moves == c.moves + [m];
      assert d.moves[..|d.moves| - 1] == c.moves;
      ConsecutiveExtend(c.moves, startLcn, m);
    }
  }

  /** The cursors during the walk: `curVcn` is the end of the last extent
      visited, `curLcn` is the start plus the clusters moved so far, every move
      goes to the LCN right after the previous one, and the clusters moved never
      exceed the part of the file visited. */
  lemma {:induction false} WalkCursors(fileMap: seq<Extent>, startLcn: int)
    requires WellFormedFileMap(fileMap)
    ensures var c := Walk(fileMap, startLcn);
            c.vcn == (if fileMap == [] then 0 else FileLength(fileMap))
            && c.lcn == startLcn + SumCounts(c.moves)
            && 0 <= SumCounts(c.moves) <= c.vcn
            && MovesConsecutive(c.moves, startLcn)
    decreases |fileMap|
  {
    if fileMap != [] {
      var init := fileMap[..|fileMap| - 1];
      assert WellFormedFileMap(init);
      WalkCursors(init, startLcn);
      var e := fileMap[|fileMap| - 1];
      assert Walk(init, startLcn).vcn <= e.vcn by {
        if init != [] { assert init[|init| - 1] == fileMap[|fileMap| - 2]; }
      }
      StepCursors(Walk(init, startLcn), e, startLcn);
    }
  }

  /** Visiting extent `i` is one Step from the walk over the extents before
      it, whose cursor lies between the start and the extent's end VCN. */
  lemma WalkStep(fileMap: seq<Extent>, startLcn: int, i: int)
    requires WellFormedFileMap(fileMap) && 0 <= i < |fileMap|
    ensures var c := Walk(fileMap[..i], startLcn);
            Walk(fileMap[..i + 1], startLcn) == Step(c, fileMap[i])
            && c.lcn == startLcn + SumCounts(c.moves)
            && 0 <= SumCounts(c.moves) <= c.vcn <= fileMap[i].vcn <= FileLength(fileMap)
            && (i == 0 ==> c.moves == [])
            && (i > 0 ==> c.vcn < fileMap[i].vcn)
  {
    var init := fileMap[..i];
    assert fileMap[..i + 1][..i] == init;
    WellFormedPrefix(fileMap, i);
    WalkCursors(init, startLcn);
    if i > 0 {
      assert init[i - 1] == fileMap[i - 1];
      assert fileMap[i - 1].vcn < fileMap[i].vcn;
    }
    if i < |fileMap| - 1 {
      assert fileMap[i].vcn < fileMap[|fileMap| - 1].vcn;
    }
  }

  /** The extents before `i` form a well-formed map of their own. */
  lemma WellFormedPrefix(fileMap: seq<Extent>, i: int)
    requires WellFormedFileMap(fileMap) && 0 <= i <= |fileMap|
    ensures WellFormedFileMap(fileMap[..i])
  {
    var init := fileMap[..i];
    forall a, b | 0 <= a < b < |init| ensures init[a].vcn < init[b].vcn {
      assert init[a] == fileMap[a] && init[b] == fileMap[b];
    }
    if 0 < i < |fileMap| {
      assert fileMap[i - 1].vcn < fileMap[|fileMap| - 1].vcn;
    }
  }

  /** The cursor after visiting the first `i` extents. */
  ghost predicate WalkedTo(fileMap: seq<Extent>, startLcn: int, i: int, c: Cursor)
  {
    0 <= i <= |fileMap| && Walk(fileMap[..i], startLcn) == c
  }

  /** The walk's cursor as a loop holds it: visiting extent `i` either skips
      it (only the VCN cursor moves) or issues one move of the clusters between
      the VCN cursor and the extent's end to the LCN cursor. */
  lemma WalkAdvance(fileMap: seq<Extent>, startLcn: int, i: int, curVcn: int, curLcn: int, issued: seq<Move>)
    requires WellFormedFileMap(fileMap) && i < |fileMap|
    requires WalkedTo(fileMap, startLcn, i, Cursor(curVcn, curLcn, issued))
    ensures var e := fileMap[i];
            var count := e.vcn - curVcn;
            (curLcn == e.lcn + count ==> WalkedTo(fileMap, startLcn, i + 1, Cursor(curVcn + count, curLcn, issued)))
            && (curLcn != e.lcn + count ==>
                  WalkedTo(fileMap, startLcn, i + 1,
                           Cursor(curVcn + count, curLcn + count, issued + [Move(curVcn, curLcn, count)]))
                  && SumCounts(issued + [Move(curVcn, curLcn, count)]) == SumCounts(issued) + count)
            && curLcn == startLcn + SumCounts(issued)
            && 0 <= SumCounts(issued) <= curVcn <= e.vcn <= FileLength(fileMap)
            && (i == 0 ==> issued == [])
            && (i > 0 ==> curVcn < e.vcn)
  {
    WalkStep(fileMap, startLcn, i);
    var m := Move(curVcn, curLcn, fileMap[i].vcn - curVcn);
    assert (issued + [m])[..|issued|] == issued;
  }

  /** When visiting extent `i` would issue a move, the moves issued before it
      are exactly the part of the whole plan before that move. */
  lemma WalkStopsBeforeMove(fileMap: seq<Extent>, startLcn: int, i: int, curVcn: int, curLcn: int, issued: seq<Move>)
    requires i < |fileMap| && WalkedTo(fileMap, startLcn, i, Cursor(curVcn, curLcn, issued))
    requires curLcn != fileMap[i].lcn + (fileMap[i].vcn - curVcn)
    ensures var plan := Walk(fileMap, startLcn).moves;
            |issued| < |plan| && Issued(plan, Some(|issued|)) == issued
  {
    var longer := Walk(fileMap[..i + 1], startLcn).moves;
    assert fileMap[..i + 1][..i] == fileMap[..i];
    assert |longer| == |issued| + 1 && longer[..|issued|] == issued;
    WalkPrefix(fileMap, startLcn, i + 1);
    var plan := Walk(fileMap, startLcn).moves;
    assert plan[..|issued|] == longer[..|issued|];
  }

  /** Once every extent has been visited, the cursor is the whole walk's. */
  lemma WalkedAll(fileMap: seq<Extent>, startLcn: int, c: Cursor)
    requires WalkedTo(fileMap, startLcn, |fileMap|, c)
    ensures Walk(fileMap, startLcn) == c
  {
    assert fileMap[..|fileMap|] == fileMap;
  }

  /** Before any extent is visited, the cursor is at VCN 0 and the start LCN. */
  lemma WalkedNone(fileMap: seq<Extent>, startLcn: int)
    ensures WalkedTo(fileMap, startLcn, 0, Cursor(0, startLcn, []))
  {
    assert fileMap[..0] == [];
  }

  /** One turn of the walk loop, for extent `i`, as DefragFile and DefragOne
      both write it: the extent is skipped when the skip test holds (the VCN
      cursor alone advances); otherwise it is moved to the LCN cursor and both
      cursors advance, unless that MoveFile call is the one that throws. A move
      takes the clusters right after those already moved and stays within the
      file's length. */
  method WalkOneExtent(fileMap: seq<Extent>, failAt: Option<nat>, startLcn: int,
                       i: int, curVcn: int, curLcn: int, issued: seq<Move>)
    returns (moveFailed: bool, nextVcn: int, nextLcn: int, issuedNext: seq<Move>)
    requires WellFormedFileMap(fileMap) && 0 <= i < |fileMap|
    requires WalkedTo(fileMap, startLcn, i, Cursor(curVcn, curLcn, issued))
    requires failAt.Some? ==> failAt.value >= |issued|
    ensures moveFailed ==>
              failAt == Some(|issued|) && issuedNext == issued
              && |issued| < |Walk(fileMap, startLcn).moves|
              && Issued(Walk(fileMap, startLcn).moves, Some(|issued|)) == issued
    ensures !moveFailed ==>
              WalkedTo(fileMap, startLcn, i + 1, Cursor(nextVcn, nextLcn, issuedNext))
              && (failAt.Some? ==> failAt.value >= |issuedNext|)
    ensures issuedNext == issued
            || (issuedNext == issued + [Move(curVcn, curLcn, nextVcn - curVcn)]
                && curLcn == startLcn + SumCounts(issued) && 0 <= nextVcn - curVcn
                && (issued == [] || curVcn < nextVcn)
                && SumCounts(issuedNext) == SumCounts(issued) + (nextVcn - curVcn)
                && SumCounts(issuedNext) <= FileLength(fileMap))
  {
    var filepart := fileMap[i];
    WalkAdvance(fileMap, startLcn, i, curVcn, curLcn, issued);
    var count := filepart.vcn - curVcn;
    if curLcn == filepart.lcn + count {
      return false, curVcn + count, curLcn, issued;
    }
    if failAt.Some? && failAt.value == |issued| {
      WalkStopsBeforeMove(fileMap, startLcn, i, curVcn, curLcn, issued);
      return true, curVcn, curLcn, issued;
    }
    return false, curVcn + count, curLcn + count, issued + [Move(curVcn, curLcn, count)];
  }

  /** Every move of the walk lands inside [startLcn, startLcn + file length),
      and each one starts where the previous one ended. */
  lemma WalkStaysInDestination(fileMap: seq<Extent>, startLcn: int)
    requires WellFormedFileMap(fileMap) && |fileMap| > 0
    ensures var moves := Walk(fileMap, startLcn).moves;
            (forall k :: 0 <= k < |moves| ==>
               startLcn <= moves[k].lcn && moves[k].End() <= startLcn + FileLength(fileMap))
            && (forall k :: 0 < k < |moves| ==> moves[k].lcn == moves[k - 1].End())
  {
    var moves := Walk(fileMap, startLcn).moves;
    WalkCursors(fileMap, startLcn);
    MovesWithinTotal(moves, startLcn);
    MovesChained(moves, startLcn);
  }

  /** Consecutive moves land inside [startLcn, startLcn + their total count). */
  lemma MovesWithinTotal(moves: seq<Move>, startLcn: int)
    requires MovesConsecutive(moves, startLcn)
    ensures forall k :: 0 <= k < |moves| ==>
              startLcn <= moves[k].lcn && moves[k].End() <= startLcn + SumCounts(moves)
  {
    forall k | 0 <= k < |moves|
      ensures startLcn <= moves[k].lcn && moves[k].End() <= startLcn + SumCounts(moves)
    {
      SumCountsPrefix(moves, k);
      SumCountsMonotone(moves, k + 1);
      SumCountsMonotone(moves, k);
    }
  }

  /** Each consecutive move starts where the previous one ended. */
  lemma MovesChained(moves: seq<Move>, startLcn: int)
    requires MovesConsecutive(moves, startLcn)
    ensures forall k :: 0 < k < |moves| ==> moves[k].lcn == moves[k - 1].End()
  {
    forall k | 0 < k < |moves|
      ensures moves[k].lcn == moves[k - 1].End()
    {
      SumCountsPrefix(moves, k - 1);
    }
  }

  /** With non-negative counts, a prefix moves no more than the whole. */
  lemma {:induction false} SumCountsMonotone(moves: seq<Move>, k: nat)
    requires k <= |moves|
    requires forall j :: 0 <= j < |moves| ==> moves[j].count >= 0
    ensures 0 <= SumCounts(moves[..k]) <= SumCounts(moves)
    decreases |moves|
  {
    if k < |moves| {
      var init := moves[..|moves| - 1];
      assert init[..k] == moves[..k];
      SumCountsMonotone(init, k);
    } else {
      assert moves[..k] == moves;
      if moves != [] {
        SumCountsMonotone(moves[..|moves| - 1], |moves| - 1);
        assert moves[..|moves| - 1][..|moves| - 1] == moves[..|moves| - 1];
      }
    }
  }

  /** The walks over the first `i` extents, when the first extent ends
      right at the destination's start: that extent passes the skip test, so
      no move covers any of its clusters. */
  lemma {:induction false} FirstExtentStays(fileMap: seq<Extent>, startLcn: int, i: int)
    requires WellFormedFileMap(fileMap) && 1 <= i <= |fileMap|
    requires fileMap[0].lcn + fileMap[0].vcn == startLcn
    ensures forall m :: m in Walk(fileMap[..i], startLcn).moves ==> m.vcn >= fileMap[0].vcn
    decreases i
  {
    if i == 1 {
      assert fileMap[..1][..0] == [] && fileMap[..1][0] == fileMap[0];
    } else {
      FirstExtentStays(fileMap, startLcn, i - 1);
      WalkStep(fileMap, startLcn, i - 1);
      var init := fileMap[..i - 1];
      WellFormedPrefix(fileMap, i - 1);
      WalkCursors(init, startLcn);
      assert init[i - 2] == fileMap[i - 2];
      if i - 2 > 0 {
        assert fileMap[0].vcn < fileMap[i - 2].vcn;
      }
    }
  }

  /** A first extent that ends right where the destination gap starts is left
      in place: no move covers any of its clusters, and the first move, if
      there is one, goes to the start of the gap. */
  lemma AbuttingFirstExtentStays(fileMap: seq<Extent>, startLcn: int)
    requires WellFormedFileMap(fileMap) && |fileMap| > 0
    requires fileMap[0].lcn + fileMap[0].vcn == startLcn
    ensures var moves := Walk(fileMap, startLcn).moves;
            (forall m :: m in moves ==> m.vcn >= fileMap[0].vcn)
            && (moves != [] ==> moves[0].lcn == startLcn)
  {
    FirstExtentStays(fileMap, startLcn, |fileMap|);
    assert fileMap[..|fileMap|] == fileMap;
    WalkCursors(fileMap, startLcn);
    var moves := Walk(fileMap, startLcn).moves;
    if moves != [] {
      assert moves[..0] == [];
    }
  }

  /** An instance of AbuttingFirstExtentStays: a 3-cluster extent at LCN 97
      ends where a gap at 100 begins, so it stays, and the 2 clusters after it
      are moved to 100. */
  lemma SkipKeepsExtentAbuttingGap()
    ensures Walk([Extent(3, 97), Extent(5, 50)], 100).moves == [Move(3, 100, 2)]
  {
    assert [Extent(3, 97), Extent(5, 50)][..1] == [Extent(3, 97)];
    assert [Extent(3, 97)][..0] == [];
  }
}
