/** GapStore: one set of free gaps held in two views, a list ordered by start
    address (searched by binary search) and a dictionary of buckets keyed by
    length, longest first, whose flattening is the store's enumeration order. */
module GapRegistry {
  import opened Gaps

  ghost predicate StrictlyDescending(keys: seq<int>)
  {
    forall i, j :: 0 <= i < j < |keys| ==> keys[i] > keys[j]
  }

  /** The SortedDictionary's own invariant: its key list, longest first, holds
      exactly the keys of its map. */
  ghost predicate KeysMatch(keys: seq<int>, buckets: map<int, seq<Gap>>)
  {
    StrictlyDescending(keys) && forall k :: k in keys <==> k in buckets
  }

  /** Every gap in a bucket has the bucket's length. */
  ghost predicate BucketsKeyed(buckets: map<int, seq<Gap>>)
  {
    forall k, j :: k in buckets && 0 <= j < |buckets[k]| ==> buckets[k][j].length == k
  }

  function Bucket(buckets: map<int, seq<Gap>>, k: int): seq<Gap>
  {
    if k in buckets then buckets[k] else []
  }

  /** The enumeration of the length view: the buckets in key order, each in its
      own order (`SelectMany` over the dictionary). */
  function Flatten(keys: seq<int>, buckets: map<int, seq<Gap>>): seq<Gap>
    decreases |keys|
  {
    if keys == [] then [] else Bucket(buckets, keys[0]) + Flatten(keys[1..], buckets)
  }

  /** The invariant of a GapStore: the dictionary is well formed, the address
      view is ordered and disjoint with positive lengths, each bucket holds
      only gaps of its length, and both views hold the same multiset of gaps. */
  ghost predicate ValidState(byLcn: seq<Gap>, keys: seq<int>, buckets: map<int, seq<Gap>>)
  {
    KeysMatch(keys, buckets)
    && AddressOrdered(byLcn) && Positive(byLcn)
    && BucketsKeyed(buckets)
    && multiset(byLcn) == multiset(Flatten(keys, buckets))
  }

  /** SortedDictionary.Add of a new key: it takes its place in the key order. */
  function InsertDescending(keys: seq<int>, k: int): (r: seq<int>)
    requires k !in keys
    ensures forall x :: x in r <==> x in keys || x == k
    decreases |keys|
  {
    if keys == [] || k > keys[0] then [k] + keys
    else [keys[0]] + InsertDescending(keys[1..], k)
  }

  lemma {:induction false} InsertDescendingSorted(keys: seq<int>, k: int)
    requires StrictlyDescending(keys) && k !in keys
    ensures StrictlyDescending(InsertDescending(keys, k))
    decreases |keys|
  {
    if keys != [] && k <= keys[0] {
      InsertDescendingSorted(keys[1..], k);
      var t := InsertDescending(keys[1..], k);
      var r := [keys[0]] + t;
      forall a, b | 0 <= a < b < |r| ensures r[a] > r[b] {
        assert r[b] == t[b - 1] && t[b - 1] in t;
        if a > 0 {
          assert r[a] == t[a - 1];
        } else if t[b - 1] != k {
          var j :| 0 <= j < |keys[1..]| && keys[1..][j] == t[b - 1];
          assert keys[0] > keys[j + 1];
        }
      }
    }
  }

  /** The key list after `_gapsByLength[k]` was created if it was missing. */
  function KeysWith(keys: seq<int>, k: int): seq<int>
  {
    if k in keys then keys else InsertDescending(keys, k)
  }

  /** List<Gap>.Remove: drops the first element equal to `x`, if there is one. */
  function RemoveFirst(s: seq<Gap>, x: Gap): (r: seq<Gap>)
    ensures x in s ==> multiset(r) == multiset(s) - multiset{x}
    ensures x !in s ==> r == s
    ensures forall y :: y in r ==> y in s
    decreases |s|
  {
    if s == [] then []
    else if s[0] == x then assert s == [s[0]] + s[1..]; s[1..]
    else assert s == [s[0]] + s[1..]; [s[0]] + RemoveFirst(s[1..], x)
  }

  /** The buckets after `g` was removed from the bucket of its length. */
  function WithoutGap(buckets: map<int, seq<Gap>>, g: Gap): map<int, seq<Gap>>
  {
    buckets[g.length := RemoveFirst(Bucket(buckets, g.length), g)]
  }

  /** The buckets after `g` was appended to the bucket of its length. */
  function WithGap(buckets: map<int, seq<Gap>>, g: Gap): map<int, seq<Gap>>
  {
    buckets[g.length := Bucket(buckets, g.length) + [g]]
  }

  /** The gaps of `s` whose length is `k`, in the order of `s` (`GroupBy`). */
  function Filter(s: seq<Gap>, k: int): seq<Gap>
  {
    if s == [] then []
    else Filter(s[..|s| - 1], k) + (if s[|s| - 1].length == k then [s[|s| - 1]] else [])
  }

  lemma FilterSnoc(s: seq<Gap>, g: Gap, k: int)
    ensures Filter(s + [g], k) == Filter(s, k) + (if g.length == k then [g] else [])
  {
    assert (s + [g])[..|s|] == s;
  }

  lemma {:induction false} FilterMembers(s: seq<Gap>, k: int)
    ensures forall g :: g in Filter(s, k) <==> g in s && g.length == k
    decreases |s|
  {
    if s != [] {
      FilterMembers(s[..|s| - 1], k);
      assert s == s[..|s| - 1] + [s[|s| - 1]];
    }
  }

  /** Over gaps sorted by start, the first gap of a length group has the
      lowest start among the gaps of that length. */
  lemma {:induction false} FilterHeadLowest(s: seq<Gap>, k: int)
    requires StartsSorted(s) && Filter(s, k) != []
    ensures forall g :: g in s && g.length == k ==> Filter(s, k)[0].startLcn <= g.startLcn
    decreases |s|
  {
    var init, last := s[..|s| - 1], s[|s| - 1];
    assert s == init + [last];
    FilterMembers(init, k);
    if Filter(init, k) != [] {
      FilterHeadLowest(init, k);
      var head := Filter(init, k)[0];
      assert head in init;
      var j :| 0 <= j < |init| && init[j] == head;
      assert s[j] == head;
    }
  }

  // ---- The enumeration under bucket updates ----

  lemma {:induction false} FlattenUnrelated(keys: seq<int>, buckets: map<int, seq<Gap>>, k: int, b: seq<Gap>)
    requires k !in keys
    ensures Flatten(keys, buckets[k := b]) == Flatten(keys, buckets)
    decreases |keys|
  {
    if keys != [] {
      FlattenUnrelated(keys[1..], buckets, k, b);
    }
  }

  lemma UnionFrame(h: multiset<Gap>, x: multiset<Gap>, y: multiset<Gap>, dx: multiset<Gap>, dy: multiset<Gap>)
    requires x + dx == y + dy
    ensures (h + x) + dx == (h + y) + dy
  {
    forall z ensures ((h + x) + dx)[z] == ((h + y) + dy)[z] {
      assert (x + dx)[z] == (y + dy)[z];
    }
  }

  /** Replacing one bucket replaces its gaps in the enumeration. */
  lemma {:induction false} FlattenUpdate(keys: seq<int>, buckets: map<int, seq<Gap>>, k: int, b: seq<Gap>)
    requires StrictlyDescending(keys) && k in keys
    ensures multiset(Flatten(keys, buckets[k := b])) + multiset(Bucket(buckets, k))
            == multiset(Flatten(keys, buckets)) + multiset(b)
    decreases |keys|
  {
    if keys[0] == k {
      assert k !in keys[1..];
      FlattenUnrelated(keys[1..], buckets, k, b);
    } else {
      assert k in keys[1..];
      FlattenUpdate(keys[1..], buckets, k, b);
      var head := Bucket(buckets, keys[0]);
      assert Bucket(buckets[k := b], keys[0]) == head;
      assert Flatten(keys, buckets[k := b]) == head + Flatten(keys[1..], buckets[k := b]);
      assert Flatten(keys, buckets) == head + Flatten(keys[1..], buckets);
      UnionFrame(multiset(head), multiset(Flatten(keys[1..], buckets[k := b])),
                 multiset(Flatten(keys[1..], buckets)), multiset(Bucket(buckets, k)), multiset(b));
    }
  }

  /** Adding a key to the key order adds its bucket to the enumeration. */
  lemma {:induction false} FlattenInsertKey(keys: seq<int>, buckets: map<int, seq<Gap>>, k: int)
    requires StrictlyDescending(keys) && k !in keys
    ensures multiset(Flatten(InsertDescending(keys, k), buckets))
            == multiset(Flatten(keys, buckets)) + multiset(Bucket(buckets, k))
    decreases |keys|
  {
    if keys != [] && k <= keys[0] {
      FlattenInsertKey(keys[1..], buckets, k);
      assert InsertDescending(keys, k)[1..] == InsertDescending(keys[1..], k);
    }
  }

  /** A gap in the enumeration comes from the bucket of one of the keys. */
  lemma {:induction false} FlattenMember(keys: seq<int>, buckets: map<int, seq<Gap>>, g: Gap)
    ensures g in Flatten(keys, buckets) ==> exists k :: k in keys && g in Bucket(buckets, k)
    decreases |keys|
  {
    if keys != [] {
      FlattenMember(keys[1..], buckets, g);
      if g in Flatten(keys[1..], buckets) {
        var k :| k in keys[1..] && g in Bucket(buckets, k);
        assert k in keys;
      }
    }
  }

  /** With keys longest first and buckets keyed by length, the enumeration
      yields non-increasing lengths. */
  lemma {:induction false} FlattenNonIncreasing(keys: seq<int>, buckets: map<int, seq<Gap>>)
    ensures StrictlyDescending(keys) && BucketsKeyed(buckets) ==> LengthsNonIncreasing(Flatten(keys, buckets))
    decreases |keys|
  {
    if keys != [] && StrictlyDescending(keys) && BucketsKeyed(buckets) {
      var rest := Flatten(keys[1..], buckets);
      var head := Bucket(buckets, keys[0]);
      FlattenNonIncreasing(keys[1..], buckets);
      var all := head + rest;
      assert all == Flatten(keys, buckets);
      forall a, b | 0 <= a < b < |all| ensures all[a].length >= all[b].length {
        if b >= |head| {
          var g := rest[b - |head|];
          assert all[b] == g;
          FlattenMember(keys[1..], buckets, g);
          var k :| k in keys[1..] && g in Bucket(buckets, k);
          var jk :| 0 <= jk < |keys[1..]| && keys[1..][jk] == k;
          assert k < keys[0];
          var jg :| 0 <= jg < |Bucket(buckets, k)| && Bucket(buckets, k)[jg] == g;
          if a >= |head| {
            assert all[a] == rest[a - |head|];
          } else {
            assert all[a] == head[a];
          }
        } else {
          assert all[a] == head[a] && all[b] == head[b];
        }
      }
    }
  }

  /** In a valid store every gap of the address view sits in the bucket of its
      length. */
  lemma ViewsAgree(byLcn: seq<Gap>, keys: seq<int>, buckets: map<int, seq<Gap>>, g: Gap)
    ensures ValidState(byLcn, keys, buckets) && g in byLcn ==> g.length in buckets && g in buckets[g.length]
  {
    if ValidState(byLcn, keys, buckets) && g in byLcn {
      assert g in multiset(Flatten(keys, buckets));
      FlattenMember(keys, buckets, g);
      var k :| k in keys && g in Bucket(buckets, k);
      var j :| 0 <= j < |buckets[k]| && buckets[k][j] == g;
    }
  }

  lemma CancelRemove(a: multiset<Gap>, c: multiset<Gap>, b: multiset<Gap>, g: Gap)
    requires g in b && a + b == c + (b - multiset{g})
    ensures a == c - multiset{g}
  {
    forall y ensures a[y] == (c - multiset{g})[y] {
      assert (a + b)[y] == (c + (b - multiset{g}))[y];
    }
  }

  lemma CancelAdd(a: multiset<Gap>, c: multiset<Gap>, b: multiset<Gap>, g: Gap)
    requires a + b == c + (b + multiset{g})
    ensures a == c + multiset{g}
  {
    forall y ensures a[y] == (c + multiset{g})[y] {
      assert (a + b)[y] == (c + (b + multiset{g}))[y];
    }
  }

  /** Removing `g` from the bucket of its length keeps every bucket keyed. */
  lemma WithoutGapKeyed(buckets: map<int, seq<Gap>>, g: Gap)
    requires BucketsKeyed(buckets) && g.length in buckets
    ensures BucketsKeyed(WithoutGap(buckets, g))
  {
    var after: map<int, seq<Gap>> := WithoutGap(buckets, g);
    forall k: int, j: int | k in after && 0 <= j < |after[k]| ensures after[k][j].length == k {
      if k == g.length {
        var y := after[k][j];
        assert y in buckets[k];
        var jj :| 0 <= jj < |buckets[k]| && buckets[k][jj] == y;
      } else {
        assert after[k] == buckets[k];
      }
    }
  }

  /** Appending `g` to the bucket of its length keeps every bucket keyed. */
  lemma WithGapKeyed(buckets: map<int, seq<Gap>>, g: Gap)
    requires BucketsKeyed(buckets)
    ensures BucketsKeyed(WithGap(buckets, g))
  {
    var after: map<int, seq<Gap>> := WithGap(buckets, g);
    forall k: int, j: int | k in after && 0 <= j < |after[k]| ensures after[k][j].length == k {
      if k == g.length {
        if j < |Bucket(buckets, k)| {
          assert after[k][j] == buckets[k][j];
        }
      } else {
        assert after[k] == buckets[k];
      }
    }
  }

  /** `_gapsByLength[g.Length].Remove(g)` keeps the dictionary well formed and
      takes `g` out of the enumeration. */
  lemma RemoveFromBucket(keys: seq<int>, buckets: map<int, seq<Gap>>, g: Gap)
    requires KeysMatch(keys, buckets) && BucketsKeyed(buckets)
    requires g.length in buckets && g in buckets[g.length]
    ensures KeysMatch(keys, WithoutGap(buckets, g)) && BucketsKeyed(WithoutGap(buckets, g))
    ensures multiset(Flatten(keys, WithoutGap(buckets, g))) == multiset(Flatten(keys, buckets)) - multiset{g}
  {
    var b := buckets[g.length];
    FlattenUpdate(keys, buckets, g.length, RemoveFirst(b, g));
    CancelRemove(multiset(Flatten(keys, WithoutGap(buckets, g))), multiset(Flatten(keys, buckets)), multiset(b), g);
    WithoutGapKeyed(buckets, g);
  }

  lemma AppendFlatten(keys: seq<int>, buckets: map<int, seq<Gap>>, g: Gap)
    requires StrictlyDescending(keys) && (g.length !in keys ==> g.length !in buckets)
    ensures multiset(Flatten(KeysWith(keys, g.length), WithGap(buckets, g)))
            == multiset(Flatten(keys, buckets)) + multiset{g}
  {
    var after := WithGap(buckets, g);
    if g.length in keys {
      var b := Bucket(buckets, g.length);
      FlattenUpdate(keys, buckets, g.length, b + [g]);
      CancelAdd(multiset(Flatten(keys, after)), multiset(Flatten(keys, buckets)), multiset(b), g);
    } else {
      FlattenUnrelated(keys, buckets, g.length, [g]);
      FlattenInsertKey(keys, after, g.length);
      assert Bucket(after, g.length) == [g];
    }
  }

  /** `_gapsByLength[g.Length].Add(g)`, creating the bucket if missing, keeps
      the dictionary well formed and puts `g` into the enumeration. */
  lemma AppendToBucket(keys: seq<int>, buckets: map<int, seq<Gap>>, g: Gap)
    requires KeysMatch(keys, buckets) && BucketsKeyed(buckets)
    ensures KeysMatch(KeysWith(keys, g.length), WithGap(buckets, g)) && BucketsKeyed(WithGap(buckets, g))
    ensures multiset(Flatten(KeysWith(keys, g.length), WithGap(buckets, g)))
            == multiset(Flatten(keys, buckets)) + multiset{g}
  {
    if g.length !in keys {
      InsertDescendingSorted(keys, g.length);
    }
    AppendFlatten(keys, buckets, g);
    WithGapKeyed(buckets, g);
  }

  /** Dropping the gap at `i` keeps the address view ordered and positive. */
  lemma RemoveAtKeepsOrder(s: seq<Gap>, i: int)
    requires AddressOrdered(s) && Positive(s) && 0 <= i < |s|
    ensures AddressOrdered(s[..i] + s[i + 1..]) && Positive(s[..i] + s[i + 1..])
    ensures multiset(s[..i] + s[i + 1..]) == multiset(s) - multiset{s[i]}
  {
    var t := s[..i] + s[i + 1..];
    assert s == s[..i] + [s[i]] + s[i + 1..];
    forall a | 0 <= a < |t| ensures t[a] == s[if a < i then a else a + 1] {
    }
    forall a, b | 0 <= a < b < |t| ensures t[a].End() <= t[b].startLcn {
      assert t[a] == s[if a < i then a else a + 1] && t[b] == s[if b < i then b else b + 1];
    }
  }

  /** Replacing the gap at `i` by a positive gap inside it keeps the address
      view ordered and positive. */
  lemma UpdateAtKeepsOrder(s: seq<Gap>, i: int, g: Gap)
    requires AddressOrdered(s) && Positive(s) && 0 <= i < |s|
    requires s[i].startLcn <= g.startLcn && g.End() <= s[i].End() && g.length > 0
    ensures AddressOrdered(s[i := g]) && Positive(s[i := g])
    ensures multiset(s[i := g]) == multiset(s) - multiset{s[i]} + multiset{g}
  {
    var t := s[i := g];
    forall a, b | 0 <= a < b < |t| ensures t[a].End() <= t[b].startLcn {
      assert s[a].End() <= s[b].startLcn;
    }
    assert s == s[..i] + [s[i]] + s[i + 1..];
    assert t == s[..i] + [g] + s[i + 1..];
    assert multiset(s) == multiset(s[..i]) + multiset{s[i]} + multiset(s[i + 1..]);
    assert multiset(t) == multiset(s[..i]) + multiset{g} + multiset(s[i + 1..]);
  }

  // ---- DeleteGap, as a relation between two states ----

  datatype DeleteOutcome =
    | Deleted
    | NotImplemented   // NotImplementedException: not a prefix of a tracked gap
    | Inconsistent     // "Inconsistent data structure": the gap is not in its bucket
    | KeyNotFound      // the dictionary has no bucket for the gap's length

  lemma UpdateSame(m: map<int, seq<Gap>>, k: int)
    requires k in m
    ensures m[k := m[k]] == m
  {
  }

  lemma UpdateTwice(m: map<int, seq<Gap>>, k: int, a: seq<Gap>, b: seq<Gap>)
    ensures m[k := a][k := b] == m[k := b]
  {
  }

  /** What is left of `g` once its first `len` clusters are taken. */
  function Remainder(g: Gap, len: int): Gap
  {
    Gap(g.startLcn + len, g.length - len)
  }

  /** The state after DeleteGap(start, len) consumed the `len`-cluster prefix of
      the gap at index `i` of the address view, which sat in the bucket of its
      length: when `len` is the whole gap it leaves both views; otherwise the
      rest (start + len, length - len) takes its place in the address view and
      goes to the end of the bucket of its new length, created if missing. */
  ghost predicate DeletedAt(byLcn0: seq<Gap>, keys0: seq<int>, buckets0: map<int, seq<Gap>>,
                            byLcn1: seq<Gap>, keys1: seq<int>, buckets1: map<int, seq<Gap>>,
                            i: int, len: int)
  {
    0 <= i < |byLcn0| &&
    var g := byLcn0[i];
    g.length in buckets0 && g in buckets0[g.length] &&
    if len == g.length then
      byLcn1 == byLcn0[..i] + byLcn0[i + 1..] && keys1 == keys0 && buckets1 == WithoutGap(buckets0, g)
    else
      var rest := Remainder(g, len);
      byLcn1 == byLcn0[i := rest]
      && keys1 == KeysWith(keys0, rest.length)
      && buckets1 == WithGap(WithoutGap(buckets0, g), rest)
  }

  lemma WholeRemovalValid(byLcn0: seq<Gap>, keys0: seq<int>, buckets0: map<int, seq<Gap>>, i: int)
    requires ValidState(byLcn0, keys0, buckets0) && 0 <= i < |byLcn0|
    requires byLcn0[i].length in buckets0 && byLcn0[i] in buckets0[byLcn0[i].length]
    ensures ValidState(byLcn0[..i] + byLcn0[i + 1..], keys0, WithoutGap(buckets0, byLcn0[i]))
    ensures TotalLength(byLcn0[..i] + byLcn0[i + 1..]) == TotalLength(byLcn0) - byLcn0[i].length
  {
    RemoveFromBucket(keys0, buckets0, byLcn0[i]);
    RemoveAtKeepsOrder(byLcn0, i);
    TotalLengthRemove(byLcn0, i);
  }

  lemma PrefixRemovalValid(byLcn0: seq<Gap>, keys0: seq<int>, buckets0: map<int, seq<Gap>>, i: int, len: int)
    requires ValidState(byLcn0, keys0, buckets0) && 0 <= i < |byLcn0| && 0 <= len < byLcn0[i].length
    requires byLcn0[i].length in buckets0 && byLcn0[i] in buckets0[byLcn0[i].length]
    ensures ValidState(byLcn0[i := Remainder(byLcn0[i], len)], KeysWith(keys0, Remainder(byLcn0[i], len).length),
                       WithGap(WithoutGap(buckets0, byLcn0[i]), Remainder(byLcn0[i], len)))
    ensures TotalLength(byLcn0[i := Remainder(byLcn0[i], len)]) == TotalLength(byLcn0) - len
  {
    var g := byLcn0[i];
    var rest := Remainder(g, len);
    var removed := WithoutGap(buckets0, g);
    RemoveFromBucket(keys0, buckets0, g);
    UpdateAtKeepsOrder(byLcn0, i, rest);
    TotalLengthUpdate(byLcn0, i, rest);
    AppendToBucket(keys0, removed, rest);
    ViewsStillAgree(multiset(byLcn0), multiset(Flatten(keys0, buckets0)), multiset(Flatten(keys0, removed)),
                    multiset(byLcn0[i := rest]), multiset(Flatten(KeysWith(keys0, rest.length), WithGap(removed, rest))),
                    g, rest);
    ValidStateIntro(byLcn0[i := rest], KeysWith(keys0, rest.length), WithGap(removed, rest));
  }

  lemma ValidStateIntro(byLcn: seq<Gap>, keys: seq<int>, buckets: map<int, seq<Gap>>)
    requires KeysMatch(keys, buckets) && BucketsKeyed(buckets)
    requires AddressOrdered(byLcn) && Positive(byLcn)
    requires multiset(byLcn) == multiset(Flatten(keys, buckets))
    ensures ValidState(byLcn, keys, buckets)
  {
  }

  lemma ViewsStillAgree(before: multiset<Gap>, flat: multiset<Gap>, removed: multiset<Gap>,
                        after: multiset<Gap>, flatAfter: multiset<Gap>, g: Gap, rest: Gap)
    requires before == flat && removed == flat - multiset{g}
    requires after == before - multiset{g} + multiset{rest} && flatAfter == removed + multiset{rest}
    ensures after == flatAfter
  {
  }

  /** Adding a bucket for `k` when it is missing keeps the dictionary well formed. */
  lemma KeysWithMatch(keys: seq<int>, buckets: map<int, seq<Gap>>, g: Gap)
    requires KeysMatch(keys, buckets)
    ensures KeysMatch(KeysWith(keys, g.length), WithGap(buckets, g))
  {
    if g.length !in keys {
      InsertDescendingSorted(keys, g.length);
    }
  }

  /** What DeleteGap promises once it has found the gap at `n` and deleted
      from it: the dictionary stays well formed; in a valid store `n` is the
      only gap starting there, the store stays valid and loses `len` clusters. */
  lemma DeletedAtEnsures(byLcn0: seq<Gap>, keys0: seq<int>, buckets0: map<int, seq<Gap>>,
                         byLcn1: seq<Gap>, keys1: seq<int>, buckets1: map<int, seq<Gap>>,
                         n: int, startLcn: int, len: int)
    requires KeysMatch(keys0, buckets0)
    requires DeletedAt(byLcn0, keys0, buckets0, byLcn1, keys1, buckets1, n, len)
    requires byLcn0[n].startLcn == startLcn && len <= byLcn0[n].length
    requires ValidState(byLcn0, keys0, buckets0) ==>
               forall i :: 0 <= i < |byLcn0| && byLcn0[i].startLcn == startLcn ==> i == n
    ensures KeysMatch(keys1, buckets1)
    ensures ValidState(byLcn0, keys0, buckets0) ==>
              forall i :: 0 <= i < |byLcn0| && byLcn0[i].startLcn == startLcn && len <= byLcn0[i].length ==>
                DeletedAt(byLcn0, keys0, buckets0, byLcn1, keys1, buckets1, i, len)
                && |byLcn1| == |byLcn0| - (if len == byLcn0[i].length then 1 else 0)
    ensures ValidState(byLcn0, keys0, buckets0) && 0 <= len ==>
              ValidState(byLcn1, keys1, buckets1) && TotalLength(byLcn1) == TotalLength(byLcn0) - len
  {
    var g := byLcn0[n];
    if len != g.length {
      KeysWithMatch(keys0, WithoutGap(buckets0, g), Remainder(g, len));
    }
    if ValidState(byLcn0, keys0, buckets0) && 0 <= len {
      DeletedAtPreservesValid(byLcn0, keys0, buckets0, byLcn1, keys1, buckets1, n, len);
    }
  }

  /** A deletion of a whole gap or a prefix of one keeps the store valid and
      removes exactly `len` clusters. */
  lemma DeletedAtPreservesValid(byLcn0: seq<Gap>, keys0: seq<int>, buckets0: map<int, seq<Gap>>,
                                byLcn1: seq<Gap>, keys1: seq<int>, buckets1: map<int, seq<Gap>>,
                                i: int, len: int)
    requires ValidState(byLcn0, keys0, buckets0)
    requires DeletedAt(byLcn0, keys0, buckets0, byLcn1, keys1, buckets1, i, len)
    requires 0 <= len <= byLcn0[i].length
    ensures ValidState(byLcn1, keys1, buckets1)
    ensures TotalLength(byLcn1) == TotalLength(byLcn0) - len
  {
    if len == byLcn0[i].length {
      WholeRemovalValid(byLcn0, keys0, buckets0, i);
    } else {
      PrefixRemovalValid(byLcn0, keys0, buckets0, i, len);
    }
  }

  // ---- Sorting the address view (`OrderBy(g => g.StartLcn)`, a stable sort) ----

  function InsertByLcn(g: Gap, s: seq<Gap>): (r: seq<Gap>)
    ensures multiset(r) == multiset(s) + multiset{g}
    decreases |s|
  {
    if s == [] || g.startLcn <= s[0].startLcn then [g] + s
    else assert s == [s[0]] + s[1..]; [s[0]] + InsertByLcn(g, s[1..])
  }

  function SortByLcn(s: seq<Gap>): (r: seq<Gap>)
    ensures multiset(r) == multiset(s)
    decreases |s|
  {
    if s == [] then [] else assert s == [s[0]] + s[1..]; InsertByLcn(s[0], SortByLcn(s[1..]))
  }

  lemma InsertByLcnMembers(g: Gap, s: seq<Gap>)
    ensures forall y :: y in InsertByLcn(g, s) ==> y == g || y in s
  {
    forall y | y in InsertByLcn(g, s) ensures y == g || y in s {
      assert y in multiset(InsertByLcn(g, s));
    }
  }

  lemma {:induction false} InsertByLcnSorted(g: Gap, s: seq<Gap>)
    requires StartsSorted(s)
    ensures StartsSorted(InsertByLcn(g, s))
    decreases |s|
  {
    if s != [] && g.startLcn > s[0].startLcn {
      InsertByLcnSorted(g, s[1..]);
      var t := InsertByLcn(g, s[1..]);
      var r := [s[0]] + t;
      InsertByLcnMembers(g, s[1..]);
      forall a, b | 0 <= a < b < |r| ensures r[a].startLcn <= r[b].startLcn {
        assert r[b] == t[b - 1] && t[b - 1] in t;
        if a > 0 {
          assert r[a] == t[a - 1];
        } else if t[b - 1] != g {
          var j :| 0 <= j < |s[1..]| && s[1..][j] == t[b - 1];
          assert s[0].startLcn <= s[j + 1].startLcn;
        }
      }
    }
  }

  lemma {:induction false} InsertByLcnApart(g: Gap, s: seq<Gap>)
    requires NoOverlap(s) && forall y :: y in s ==> Disjoint(g, y)
    ensures NoOverlap(InsertByLcn(g, s))
    decreases |s|
  {
    if s != [] && g.startLcn > s[0].startLcn {
      assert NoOverlap(s[1..]);
      InsertByLcnApart(g, s[1..]);
      var t := InsertByLcn(g, s[1..]);
      var r := [s[0]] + t;
      InsertByLcnMembers(g, s[1..]);
      forall a, b | 0 <= a < b < |r| ensures Disjoint(r[a], r[b]) {
        assert r[b] == t[b - 1] && t[b - 1] in t;
        if a > 0 {
          assert r[a] == t[a - 1];
        } else if t[b - 1] != g {
          var j :| 0 <= j < |s[1..]| && s[1..][j] == t[b - 1];
          assert Disjoint(s[0], s[j + 1]);
        } else {
          assert Disjoint(g, s[0]);
        }
      }
    }
  }

  /** The stable sort orders by start address and keeps the gaps apart. */
  lemma {:induction false} SortByLcnSpec(s: seq<Gap>)
    ensures StartsSorted(SortByLcn(s))
    ensures NoOverlap(s) ==> NoOverlap(SortByLcn(s))
    decreases |s|
  {
    if s != [] {
      SortByLcnSpec(s[1..]);
      var t := SortByLcn(s[1..]);
      InsertByLcnSorted(s[0], t);
      if NoOverlap(s) {
        assert NoOverlap(s[1..]);
        forall y | y in t ensures Disjoint(s[0], y) {
          assert y in multiset(s[1..]);
          var j :| 0 <= j < |s[1..]| && s[1..][j] == y;
          assert Disjoint(s[0], s[j + 1]);
        }
        InsertByLcnApart(s[0], t);
      }
    }
  }

  /** The stable sort leaves a list already sorted by start as it is. */
  lemma {:induction false} SortByLcnOfSorted(s: seq<Gap>)
    requires StartsSorted(s)
    ensures SortByLcn(s) == s
    decreases |s|
  {
    if s != [] {
      SortByLcnOfSorted(s[1..]);
      assert [s[0]] + s[1..] == s;
    }
  }

  /** Sorted by start, non-overlapping and positive: address ordered. */
  lemma SortedApartIsOrdered(s: seq<Gap>)
    requires StartsSorted(s) && NoOverlap(s) && Positive(s)
    ensures AddressOrdered(s)
  {
    forall i, j | 0 <= i < j < |s| ensures s[i].End() <= s[j].startLcn {
      assert Disjoint(s[i], s[j]);
    }
  }

  /** The address view the constructor builds is ordered and positive. */
  lemma SortedView(gaps: seq<Gap>)
    requires Positive(gaps) && NoOverlap(gaps)
    ensures AddressOrdered(SortByLcn(gaps)) && Positive(SortByLcn(gaps))
  {
    var sorted := SortByLcn(gaps);
    SortByLcnSpec(gaps);
    forall a | 0 <= a < |sorted| ensures sorted[a].length > 0 {
      assert sorted[a] in multiset(gaps);
    }
    SortedApartIsOrdered(sorted);
  }

  // ---- Grouping by length (`GroupBy(g => g.Length)`) ----

  /** `keys` and `buckets` are the length view of `gaps`: bucket k holds the
      gaps of length k in their order, and only lengths that occur have one. */
  ghost predicate Grouped(gaps: seq<Gap>, keys: seq<int>, buckets: map<int, seq<Gap>>)
  {
    KeysMatch(keys, buckets) && BucketsKeyed(buckets)
    && (forall k :: Bucket(buckets, k) == Filter(gaps, k))
    && (forall k :: k in buckets ==> buckets[k] != [])
    && multiset(Flatten(keys, buckets)) == multiset(gaps)
  }

  lemma TakeOneMore(s: seq<Gap>, i: int)
    requires 0 <= i < |s|
    ensures s[..i + 1] == s[..i] + [s[i]]
  {
  }

  /** Appending `g` adds it to the end of its own bucket and of its own
      filter, and to nothing else. */
  lemma BucketsFollowFilter(gaps: seq<Gap>, buckets: map<int, seq<Gap>>, g: Gap)
    requires forall k :: Bucket(buckets, k) == Filter(gaps, k)
    ensures forall k :: Bucket(WithGap(buckets, g), k) == Filter(gaps + [g], k)
  {
    forall k ensures Bucket(WithGap(buckets, g), k) == Filter(gaps + [g], k) {
      FilterSnoc(gaps, g, k);
    }
  }

  lemma BucketsStayNonEmpty(buckets: map<int, seq<Gap>>, g: Gap)
    requires forall k :: k in buckets ==> buckets[k] != []
    ensures forall k :: k in WithGap(buckets, g) ==> WithGap(buckets, g)[k] != []
  {
  }

  lemma GroupStep(gaps: seq<Gap>, keys: seq<int>, buckets: map<int, seq<Gap>>, g: Gap)
    requires Grouped(gaps, keys, buckets)
    ensures Grouped(gaps + [g], KeysWith(keys, g.length), WithGap(buckets, g))
  {
    AppendToBucket(keys, buckets, g);
    BucketsFollowFilter(gaps, buckets, g);
    BucketsStayNonEmpty(buckets, g);
    assert multiset(gaps + [g]) == multiset(gaps) + multiset{g};
  }

  /** The source's `GroupBy(g => g.Length)`: one pass over the gaps that
      appends each to the bucket of its length, opening a bucket (and a key)
      for a length not seen before. */
  method GroupByLength(gaps: seq<Gap>) returns (keys: seq<int>, m: map<int, seq<Gap>>)
    ensures Grouped(gaps, keys, m)
  {
    keys := [];
    m := map[];
    var i := 0;
    while i < |gaps|
      invariant 0 <= i <= |gaps|
      invariant Grouped(gaps[..i], keys, m)
    {
      var g := gaps[i];
      TakeOneMore(gaps, i);
      GroupStep(gaps[..i], keys, m, g);
      keys := KeysWith(keys, g.length);
      m := WithGap(m, g);
      i := i + 1;
    }
    assert gaps[..i] == gaps;
  }

  /** The stable address sort of positive, non-overlapping gaps together with
      their grouping by length form a consistent pair of views. */
  lemma BuiltState(gaps: seq<Gap>, keys: seq<int>, m: map<int, seq<Gap>>)
    requires Positive(gaps) && NoOverlap(gaps)
    requires Grouped(gaps, keys, m)
    ensures ValidState(SortByLcn(gaps), keys, m)
  {
    SortedView(gaps);
    SortByLcnSpec(gaps);
    ValidStateIntro(SortByLcn(gaps), keys, m);
  }

  // ---- Binary search on the address view ----

  /** In an ordered view of positive gaps, starts are sorted and unique. */
  lemma OrderedStartsUnique(s: seq<Gap>)
    requires AddressOrdered(s) && Positive(s)
    ensures StartsSorted(s)
    ensures forall i, j :: 0 <= i < |s| && 0 <= j < |s| && s[i].startLcn == s[j].startLcn ==> i == j
  {
    forall i, j | 0 <= i < j < |s| ensures s[i].startLcn < s[j].startLcn {
      assert s[i].End() <= s[j].startLcn && s[i].length > 0;
    }
  }

  /** List<Gap>.BinarySearch with the by-start comparer: an index whose gap
      starts at `startLcn`, or the complement of the insertion point. */
  method BinarySearchByLcn(s: seq<Gap>, startLcn: int) returns (index: int)
    ensures 0 <= index ==> index < |s| && s[index].startLcn == startLcn
    ensures index < 0 ==> 0 <= -index - 1 <= |s|
    ensures index < 0 && StartsSorted(s) ==>
              (forall j :: 0 <= j < -index - 1 ==> s[j].startLcn < startLcn)
              && (forall j :: -index - 1 <= j < |s| ==> s[j].startLcn > startLcn)
  {
    var lo, hi := 0, |s| - 1;
    while lo <= hi
      invariant 0 <= lo <= hi + 1 <= |s|
      invariant StartsSorted(s) ==> forall j :: 0 <= j < lo ==> s[j].startLcn < startLcn
      invariant StartsSorted(s) ==> forall j :: hi < j < |s| ==> s[j].startLcn > startLcn
      decreases hi - lo
    {
      var mid := lo + (hi - lo) / 2;
      if s[mid].startLcn == startLcn {
        return mid;
      } else if s[mid].startLcn < startLcn {
        lo := mid + 1;
      } else {
        hi := mid - 1;
      }
    }
    index := -lo - 1;
  }

  // ---- The store ----

  class GapStore {
    /** `_gapsByLcn` */
    var byLcn: seq<Gap>
    /** The keys of `_gapsByLength`, longest first. */
    var lengthKeys: seq<int>
    /** `_gapsByLength`: a list of gaps per length. */
    var buckets: map<int, seq<Gap>>

    ghost predicate Valid()
      reads this
    {
      ValidState(byLcn, lengthKeys, buckets)
    }

    /** Builds both views from gaps that are positive and do not overlap (the
        source does not look for overlaps): the address view is their stable
        sort by start, bucket k holds the gaps of length k in input order, and
        only lengths that occur have a bucket. */
    constructor (gaps: seq<Gap>)
      requires Positive(gaps) && NoOverlap(gaps)
      ensures Valid()
      ensures byLcn == SortByLcn(gaps)
      ensures forall k :: Bucket(buckets, k) == Filter(gaps, k)
      ensures forall k :: k in buckets ==> buckets[k] != []
    {
      var keys, m := GroupByLength(gaps);
      BuiltState(gaps, keys, m);
      byLcn := SortByLcn(gaps);
      lengthKeys := keys;
      buckets := m;
    }

    /** `Count`: the number of gaps. */
    function Count(): (n: int)
      reads this
      ensures Valid() ==> n == |Elements()|
    {
      assert |multiset(byLcn)| == |byLcn| && |multiset(Elements())| == |Elements()|;
      |byLcn|
    }

    /** The enumeration: buckets longest first. In a valid store it holds the
        same gaps as the address view, in non-increasing length order. */
    function Elements(): (r: seq<Gap>)
      reads this
      ensures Valid() ==> multiset(r) == multiset(byLcn) && LengthsNonIncreasing(r)
    {
      FlattenNonIncreasing(lengthKeys, buckets);
      Flatten(lengthKeys, buckets)
    }

    /** AddGap: deliberately does nothing, so clusters vacated by a move are
        not reused in the same session. */
    method AddGap(startLcn: int, length: int)
      ensures byLcn == old(byLcn) && lengthKeys == old(lengthKeys) && buckets == old(buckets)
    {
    }

    /** DeleteGap: removes `length` clusters starting at `startLcn`, which must
        be a whole tracked gap or a prefix of one. */
    method DeleteGap(startLcn: int, length: int) returns (r: DeleteOutcome)
      requires KeysMatch(lengthKeys, buckets)
      modifies this
      ensures KeysMatch(lengthKeys, buckets)
      ensures r == NotImplemented ==>
                byLcn == old(byLcn) && lengthKeys == old(lengthKeys) && buckets == old(buckets)
      ensures r == NotImplemented && ValidState(old(byLcn), old(lengthKeys), old(buckets)) ==>
                forall i :: 0 <= i < |old(byLcn)| && old(byLcn)[i].startLcn == startLcn ==>
                  length > old(byLcn)[i].length
      ensures r == KeyNotFound || r == Inconsistent ==>
                !ValidState(old(byLcn), old(lengthKeys), old(buckets))
      ensures r == Deleted ==>
                exists i :: DeletedAt(old(byLcn), old(lengthKeys), old(buckets), byLcn, lengthKeys, buckets, i, length)
                  && old(byLcn)[i].startLcn == startLcn && length <= old(byLcn)[i].length
      ensures ValidState(old(byLcn), old(lengthKeys), old(buckets)) ==>
                forall i :: 0 <= i < |old(byLcn)| && old(byLcn)[i].startLcn == startLcn
                              && length <= old(byLcn)[i].length ==>
                  r == Deleted
                  && DeletedAt(old(byLcn), old(lengthKeys), old(buckets), byLcn, lengthKeys, buckets, i, length)
                  && Count() == old(Count()) - (if length == old(byLcn)[i].length then 1 else 0)
      ensures ValidState(old(byLcn), old(lengthKeys), old(buckets)) && 0 <= length ==> Valid()
      ensures ValidState(old(byLcn), old(lengthKeys), old(buckets)) && 0 <= length && r == Deleted ==>
                TotalLength(byLcn) == old(TotalLength(byLcn)) - length
    {
      ghost var byLcn0, keys0, buckets0 := byLcn, lengthKeys, buckets;
      var nearest := BinarySearchByLcn(byLcn, startLcn);
      if Valid() {
        OrderedStartsUnique(byLcn);
      }
      if nearest >= 0 && length == byLcn[nearest].length {
        // Case 1: exactly an entire gap.
        r := DeleteWhole(nearest);
      } else if nearest >= 0 && length < byLcn[nearest].length {
        // Case 2: a prefix of a gap.
        r := DeletePrefix(nearest, length);
      } else {
        // Cases 3-5: the end or the middle of a gap, or several gaps.
        return NotImplemented;
      }
      if r == Deleted {
        DeletedAtEnsures(byLcn0, keys0, buckets0, byLcn, lengthKeys, buckets, nearest, startLcn, length);
      }
    }

    /** Case 1 of DeleteGap: the gap at `n` goes from the address view, then
        from its bucket; a missing bucket or a gap missing from it throws. */
    method DeleteWhole(n: int) returns (r: DeleteOutcome)
      requires KeysMatch(lengthKeys, buckets) && 0 <= n < |byLcn|
      modifies this
      ensures KeysMatch(lengthKeys, buckets)
      ensures r == Deleted || r == KeyNotFound || r == Inconsistent
      ensures r == Deleted ==>
                DeletedAt(old(byLcn), old(lengthKeys), old(buckets), byLcn, lengthKeys, buckets, n, old(byLcn)[n].length)
      ensures r != Deleted ==> !ValidState(old(byLcn), old(lengthKeys), old(buckets))
    {
      var oldGap := byLcn[n];
      ViewsAgree(byLcn, lengthKeys, buckets, oldGap);
      byLcn := byLcn[..n] + byLcn[n + 1..];
      if oldGap.length !in buckets {
        return KeyNotFound;
      }
      if oldGap !in buckets[oldGap.length] {
        return Inconsistent;
      }
      buckets := buckets[oldGap.length := RemoveFirst(buckets[oldGap.length], oldGap)];
      r := Deleted;
    }

    /** Case 2 of DeleteGap: the gap at `n` leaves its bucket and what is left
        of it after `length` clusters replaces it in the address view and joins
        the bucket of its new length, created if missing. */
    method DeletePrefix(n: int, length: int) returns (r: DeleteOutcome)
      requires KeysMatch(lengthKeys, buckets) && 0 <= n < |byLcn| && length < byLcn[n].length
      modifies this
      ensures KeysMatch(lengthKeys, buckets)
      ensures r == Deleted || r == KeyNotFound || r == Inconsistent
      ensures r == Deleted ==>
                DeletedAt(old(byLcn), old(lengthKeys), old(buckets), byLcn, lengthKeys, buckets, n, length)
      ensures r != Deleted ==> !ValidState(old(byLcn), old(lengthKeys), old(buckets))
    {
      var oldGap := byLcn[n];
      ViewsAgree(byLcn, lengthKeys, buckets, oldGap);
      var newGap := Remainder(oldGap, length);
      if oldGap.length !in buckets {
        return KeyNotFound;
      }
      if oldGap !in buckets[oldGap.length] {
        return Inconsistent;
      }
      ghost var keys0 := lengthKeys;
      buckets := buckets[oldGap.length := RemoveFirst(buckets[oldGap.length], oldGap)];
      ghost var removed := buckets;
      if newGap.length !in buckets {
        lengthKeys := InsertDescending(lengthKeys, newGap.length);
        buckets := buckets[newGap.length := []];
      } else {
        UpdateSame(buckets, newGap.length);
      }
      assert buckets == removed[newGap.length := Bucket(removed, newGap.length)];
      ghost var mid := buckets;
      buckets := buckets[newGap.length := buckets[newGap.length] + [newGap]];
      UpdateTwice(removed, newGap.length, mid[newGap.length], buckets[newGap.length]);
      byLcn := byLcn[n := newGap];
      r := Deleted;
      assert lengthKeys == KeysWith(keys0, newGap.length);
      KeysWithMatch(keys0, removed, newGap);
    }
  }
}
