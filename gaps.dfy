/** Free-cluster ranges ("gaps") shared by both defragmenters, and facts about
    sequences of them. */
module Gaps {

  /** A run of free clusters starting at logical cluster `startLcn`. */
  datatype Gap = Gap(startLcn: int, length: int)
  {
    /** One past the last cluster of the run. */
    function End(): int { startLcn + length }

    predicate Covers(c: int) { startLcn <= c < startLcn + length }
  }

  /** `default(Gap)`: the value the selection loops start from and test for. */
  const NoGap := Gap(0, 0)

  datatype Option<T> = None | Some(value: T)

  ghost predicate Positive(s: seq<Gap>)
  {
    forall i :: 0 <= i < |s| ==> s[i].length > 0
  }

  /** Start addresses never decrease (the order List.BinarySearch needs). */
  ghost predicate StartsSorted(s: seq<Gap>)
  {
    forall i, j :: 0 <= i < j < |s| ==> s[i].startLcn <= s[j].startLcn
  }

  /** Each gap ends at or before the start of every later gap. */
  ghost predicate AddressOrdered(s: seq<Gap>)
  {
    forall i, j :: 0 <= i < j < |s| ==> s[i].End() <= s[j].startLcn
  }

  /** Each gap ends strictly before the start of every later gap: at least one
      used cluster lies between two consecutive gaps. */
  ghost predicate Separated(s: seq<Gap>)
  {
    forall i, j :: 0 <= i < j < |s| ==> s[i].End() < s[j].startLcn
  }

  ghost predicate Disjoint(a: Gap, b: Gap)
  {
    a.End() <= b.startLcn || b.End() <= a.startLcn
  }

  /** No two gaps at different positions share a cluster. */
  ghost predicate NoOverlap(s: seq<Gap>)
  {
    forall i, j :: 0 <= i < j < |s| ==> Disjoint(s[i], s[j])
  }

  ghost predicate LengthsNonIncreasing(s: seq<Gap>)
  {
    forall i, j :: 0 <= i < j < |s| ==> s[i].length >= s[j].length
  }

  /** Total number of free clusters held by `s`. */
  function TotalLength(s: seq<Gap>): int
  {
    if s == [] then 0 else TotalLength(s[..|s| - 1]) + s[|s| - 1].length
  }

  lemma {:induction false} TotalLengthConcat(a: seq<Gap>, b: seq<Gap>)
    ensures TotalLength(a + b) == TotalLength(a) + TotalLength(b)
    decreases |b|
  {
    if b == [] {
      assert a + b == a;
    } else {
      TotalLengthConcat(a, b[..|b| - 1]);
      assert (a + b)[..|a + b| - 1] == a + b[..|b| - 1];
    }
  }

  lemma TotalLengthSingle(g: Gap)
    ensures TotalLength([g]) == g.length
  {
    assert [g][..0] == [];
  }

  /** Splitting around index `i`: the total is the part before, the gap at
      `i`, and the part after. */
  lemma TotalLengthAround(s: seq<Gap>, i: int)
    requires 0 <= i < |s|
    ensures TotalLength(s) == TotalLength(s[..i]) + s[i].length + TotalLength(s[i + 1..])
  {
    var front, back := s[..i], s[i + 1..];
    assert s == (front + [s[i]]) + back;
    TotalLengthConcat(front + [s[i]], back);
    TotalLengthConcat(front, [s[i]]);
    TotalLengthSingle(s[i]);
  }

  /** Removing the gap at `i` removes exactly its clusters from the total. */
  lemma TotalLengthRemove(s: seq<Gap>, i: int)
    requires 0 <= i < |s|
    ensures TotalLength(s[..i] + s[i + 1..]) == TotalLength(s) - s[i].length
  {
    TotalLengthAround(s, i);
    TotalLengthConcat(s[..i], s[i + 1..]);
  }

  /** Replacing the gap at `i` by `g` changes the total by the difference. */
  lemma TotalLengthUpdate(s: seq<Gap>, i: int, g: Gap)
    requires 0 <= i < |s|
    ensures TotalLength(s[i := g]) == TotalLength(s) - s[i].length + g.length
  {
    var t := s[i := g];
    assert t[..i] == s[..i] && t[i + 1..] == s[i + 1..];
    TotalLengthAround(s, i);
    TotalLengthAround(t, i);
  }
}
