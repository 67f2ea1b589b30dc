/** The best-fit-with-slack choice of a destination gap, shared by
    VolumeDefragmenter.DefragFile and Program.DefragOne: walk the gaps in
    enumeration order (longest first); an exact fit wins at once; otherwise the
    last gap at least twice the file length seen before the first gap shorter
    than the file is kept. */
module Placement {
  import opened Gaps

  /** The choice the loop makes over the gaps still to visit, `best` being the
      gap chosen so far. */
  function SelectFrom(gaps: seq<Gap>, fileLength: int, best: Gap): (r: Gap)
    ensures r == best || r in gaps
    ensures r == best || r.length == fileLength || r.length >= 2 * fileLength
    decreases |gaps|
  {
    if gaps == [] then best
    else
      var g := gaps[0];
      var kept := if g.length >= 2 * fileLength then g else best;
      if g.length == fileLength then g
      else if g.length < fileLength then kept
      else SelectFrom(gaps[1..], fileLength, kept)
  }

  /** The gap the selection loop leaves in `bestGap`; NoGap when none was chosen. */
  function Select(gaps: seq<Gap>, fileLength: int): (r: Gap)
    ensures r == NoGap || r in gaps
    ensures r == NoGap || r.length == fileLength || r.length >= 2 * fileLength
  {
    SelectFrom(gaps, fileLength, NoGap)
  }

  /** The selection loop of DefragFile and DefragOne. */
  method SelectGap(gaps: seq<Gap>, fileLength: int) returns (best: Gap)
    ensures best == Select(gaps, fileLength)
  {
    best := NoGap;
    var i := 0;
    while i < |gaps|
      invariant 0 <= i <= |gaps|
      invariant SelectFrom(gaps[i..], fileLength, best) == Select(gaps, fileLength)
    {
      var gap := gaps[i];
      assert gaps[i..][0] == gap && gaps[i..][1..] == gaps[i + 1..];
      if gap.length >= fileLength * 2 {
        best := gap;
      }
      if gap.length == fileLength {
        best := gap;
        break;
      }
      if gap.length < fileLength {
        break;
      }
      i := i + 1;
    }
  }

  /** A gap strictly between the file length and twice the file length is never
      chosen, and the chosen gap can hold the file. */
  lemma SelectAvoidsSlackBand(gaps: seq<Gap>, fileLength: int)
    requires 0 <= fileLength
    ensures var r := Select(gaps, fileLength);
            !(fileLength < r.length < 2 * fileLength)
            && (r != NoGap ==> r.length >= fileLength)
  {
  }

  /** When every gap is positive, the `Length == 0` test recognises exactly the
      case where nothing was chosen. */
  lemma SelectNothingIffZero(gaps: seq<Gap>, fileLength: int)
    requires Positive(gaps)
    ensures Select(gaps, fileLength).length == 0 <==> Select(gaps, fileLength) == NoGap
  {
  }

  /** Over gaps of non-increasing length, the first exact fit is chosen,
      whatever was chosen before it. */
  lemma {:induction false} SelectFromExactFit(gaps: seq<Gap>, fileLength: int, best: Gap, k: int)
    requires LengthsNonIncreasing(gaps)
    requires 0 <= k < |gaps| && gaps[k].length == fileLength
    requires forall j :: 0 <= j < k ==> gaps[j].length != fileLength
    ensures SelectFrom(gaps, fileLength, best) == gaps[k]
    decreases k
  {
    if k > 0 {
      assert gaps[0].length >= gaps[k].length;
      var kept := if gaps[0].length >= 2 * fileLength then gaps[0] else best;
      SelectFromExactFit(gaps[1..], fileLength, kept, k - 1);
    }
  }

  /** With no exact fit and no ample gap among `gaps`,
      the choice made so far stands. */
  lemma {:induction false} SelectFromKeeps(gaps: seq<Gap>, fileLength: int, best: Gap)
    requires forall j :: 0 <= j < |gaps| ==> gaps[j].length != fileLength && gaps[j].length < 2 * fileLength
    ensures SelectFrom(gaps, fileLength, best) == best
    decreases |gaps|
  {
    if gaps != [] && gaps[0].length >= fileLength {
      SelectFromKeeps(gaps[1..], fileLength, best);
    }
  }

  /** Over gaps of non-increasing length with no exact fit, the last gap of at
      least twice the file length is chosen. */
  lemma {:induction false} SelectFromLastAmple(gaps: seq<Gap>, fileLength: int, best: Gap, k: int)
    requires 0 <= fileLength
    requires LengthsNonIncreasing(gaps)
    requires forall j :: 0 <= j < |gaps| ==> gaps[j].length != fileLength
    requires 0 <= k < |gaps| && gaps[k].length >= 2 * fileLength
    requires forall j :: k < j < |gaps| ==> gaps[j].length < 2 * fileLength
    ensures SelectFrom(gaps, fileLength, best) == gaps[k]
    decreases k
  {
    assert gaps[0].length >= gaps[k].length;
    var kept := if gaps[0].length >= 2 * fileLength then gaps[0] else best;
    if k > 0 {
      SelectFromLastAmple(gaps[1..], fileLength, kept, k - 1);
    } else {
      SelectFromKeeps(gaps[1..], fileLength, kept);
    }
  }

  /** The policy stated over the whole walk: the first exact fit if there is
      one; otherwise the last ample gap; otherwise nothing. */
  lemma SelectPolicy(gaps: seq<Gap>, fileLength: int)
    requires 0 <= fileLength && LengthsNonIncreasing(gaps)
    ensures forall k :: 0 <= k < |gaps| && gaps[k].length == fileLength
              && (forall j :: 0 <= j < k ==> gaps[j].length != fileLength)
              ==> Select(gaps, fileLength) == gaps[k]
    ensures forall k :: 0 <= k < |gaps| && gaps[k].length >= 2 * fileLength
              && (forall j :: 0 <= j < |gaps| ==> gaps[j].length != fileLength)
              && (forall j :: k < j < |gaps| ==> gaps[j].length < 2 * fileLength)
              ==> Select(gaps, fileLength) == gaps[k]
    ensures (forall j :: 0 <= j < |gaps| ==> gaps[j].length != fileLength && gaps[j].length < 2 * fileLength)
              ==> Select(gaps, fileLength) == NoGap
  {
    forall k | 0 <= k < |gaps| && gaps[k].length == fileLength
               && (forall j :: 0 <= j < k ==> gaps[j].length != fileLength)
      ensures Select(gaps, fileLength) == gaps[k]
    {
      SelectFromExactFit(gaps, fileLength, NoGap, k);
    }
    forall k | 0 <= k < |gaps| && gaps[k].length >= 2 * fileLength
               && (forall j :: 0 <= j < |gaps| ==> gaps[j].length != fileLength)
               && (forall j :: k < j < |gaps| ==> gaps[j].length < 2 * fileLength)
      ensures Select(gaps, fileLength) == gaps[k]
    {
      SelectFromLastAmple(gaps, fileLength, NoGap, k);
    }
    if forall j :: 0 <= j < |gaps| ==> gaps[j].length != fileLength && gaps[j].length < 2 * fileLength {
      SelectFromKeeps(gaps, fileLength, NoGap);
    }
  }

  /** An exact fit, if any gap has one, beats every larger gap. */
  lemma {:induction false} SelectPrefersExactFit(gaps: seq<Gap>, fileLength: int, k: int)
    requires 0 <= fileLength && LengthsNonIncreasing(gaps)
    requires 0 <= k < |gaps| && gaps[k].length == fileLength
    ensures Select(gaps, fileLength).length == fileLength
    decreases k
  {
    if exists j :: 0 <= j < k && gaps[j].length == fileLength {
      var j :| 0 <= j < k && gaps[j].length == fileLength;
      SelectPrefersExactFit(gaps, fileLength, j);
    } else {
      SelectFromExactFit(gaps, fileLength, NoGap, k);
    }
  }
}
