/** What one step, one merge and one pass of a natural merge sort do to a sequence. */
module MergeOrder {
  import opened StableOrder
  import opened Power2

  /** c[lo .. hi) is in nondecreasing order. */
  ghost predicate SortedRange<T>(less: (T, T) -> bool, c: seq<T>, lo: int, hi: int)
    requires 0 <= lo && hi <= |c|
  {
    forall i, j :: lo <= i < j < hi ==> !less(c[j], c[i])
  }

  /** Number of indices in (lo, hi) whose element is less than the one before it,
      one less than the number of natural runs of a nonempty c[lo .. hi). */
  ghost function Descents<T>(less: (T, T) -> bool, c: seq<T>, lo: nat, hi: nat): nat
    requires hi <= |c|
  {
    if hi <= lo + 1 then 0
    else Descents(less, c, lo, hi - 1) + if less(c[hi - 1], c[hi - 2]) then 1 else 0
  }

  /** Every pair of c[lo .. hi) that is not in its original order is there because the
      later element is less than the earlier one. */
  ghost predicate Undisturbed<T>(less: (T, T) -> bool, pos: map<T, int>, c: seq<T>, lo: int, hi: int)
    requires 0 <= lo && hi <= |c|
  {
    && (forall i :: lo <= i < hi ==> c[i] in pos)
    && (forall i, j :: lo <= i < j < hi ==> less(c[i], c[j]) || pos[c[i]] < pos[c[j]])
  }

  /** c with the element at index q moved down to index p. */
  function MoveTo<T>(c: seq<T>, p: nat, q: nat): (r: seq<T>)
    requires p <= q < |c|
    ensures |r| == |c|
    ensures r[p] == c[q]
    ensures forall i :: 0 <= i < p || q < i < |c| ==> r[i] == c[i]
    ensures forall i :: p < i <= q ==> r[i] == c[i - 1]
  {
    c[..p] + [c[q]] + c[p..q] + c[q + 1..]
  }

  lemma MoveToElements<T>(c: seq<T>, p: nat, q: nat)
    requires p <= q < |c|
    ensures multiset(MoveTo(c, p, q)) == multiset(c)
  {
    assert c == c[..p] + c[p..q] + [c[q]] + c[q + 1..];
  }

  /** The state of a merge: [lo, p) is done, [p, q) and [q, hi) are still to be merged. */
  ghost predicate Merging<T>(less: (T, T) -> bool, c: seq<T>, lo: int, p: int, q: int, hi: int) {
    && 0 <= lo <= p <= q <= hi <= |c|
    && SortedRange(less, c, lo, q)
    && SortedRange(less, c, q, hi)
    && (forall i, j :: lo <= i < p && q <= j < hi ==> !less(c[j], c[i]))
  }

  lemma NotLessTrans<T>(less: (T, T) -> bool, S: set<T>, x: T, y: T, z: T)
    requires StrictWeak(less, S) && x in S && y in S && z in S
    requires !less(x, y) && !less(y, z)
    ensures !less(x, z)
  {
  }

  lemma MoveToSplice<T>(c: seq<T>, p: nat, q: nat)
    requires p <= q < |c|
    ensures var rest := c[..q] + c[q + 1..];
            rest[..p] + c[q..q + 1] + rest[p..] == MoveTo(c, p, q)
  {
  }

  lemma MergeAdvance<T>(less: (T, T) -> bool, S: set<T>, c: seq<T>, lo: int, p: int, q: int, hi: int)
    requires Merging(less, c, lo, p, q, hi) && p < q < hi && !less(c[q], c[p])
    requires StrictWeak(less, S) && forall i :: lo <= i < hi ==> c[i] in S
    ensures Merging(less, c, lo, p + 1, q, hi)
  {
    forall j | q <= j < hi ensures !less(c[j], c[p]) {
      if j > q {
        NotLessTrans(less, S, c[j], c[q], c[p]);
      }
    }
  }

  lemma LessThanRest<T>(less: (T, T) -> bool, S: set<T>, c: seq<T>, lo: int, p: int, q: int, hi: int)
    requires Merging(less, c, lo, p, q, hi) && p < q < hi && less(c[q], c[p])
    requires StrictWeak(less, S) && forall i :: lo <= i < hi ==> c[i] in S
    ensures forall i :: p <= i < q ==> less(c[q], c[i]) && !less(c[i], c[q])
  {
    forall i | p <= i < q ensures less(c[q], c[i]) && !less(c[i], c[q]) {
      assert i > p ==> !less(c[i], c[p]);
    }
  }

  lemma MergeMove<T>(less: (T, T) -> bool, S: set<T>, c: seq<T>, lo: int, p: int, q: int, hi: int)
    requires Merging(less, c, lo, p, q, hi) && p < q < hi && less(c[q], c[p])
    requires StrictWeak(less, S) && forall i :: lo <= i < hi ==> c[i] in S
    ensures Merging(less, MoveTo(c, p, q), lo, p + 1, q + 1, hi)
  {
    LessThanRest(less, S, c, lo, p, q, hi);
    var d := MoveTo(c, p, q);
    forall i, j | lo <= i < j < q + 1 ensures !less(d[j], d[i]) {
      if p < i {
        assert d[i] == c[i - 1] && d[j] == c[j - 1];
      } else if p < j {
        assert d[j] == c[j - 1];
      }
    }
    forall i, j | lo <= i < p + 1 && q + 1 <= j < hi ensures !less(d[j], d[i]) {
      assert d[j] == c[j];
    }
    assert SortedRange(less, d, q + 1, hi);
  }

  lemma UndisturbedMove<T>(less: (T, T) -> bool, pos: map<T, int>, c: seq<T>, lo: int, hi: int, p: int, q: int)
    requires 0 <= lo <= p < q < hi <= |c|
    requires Undisturbed(less, pos, c, lo, hi)
    requires forall i :: p <= i < q ==> less(c[q], c[i])
    ensures Undisturbed(less, pos, MoveTo(c, p, q), lo, hi)
  {
    var d := MoveTo(c, p, q);
    forall i | lo <= i < hi ensures d[i] in pos {
    }
    forall i, j | lo <= i < j < hi ensures less(d[i], d[j]) || pos[d[i]] < pos[d[j]] {
      var i' := if i < p || q < i then i else if i == p then q else i - 1;
      var j' := if j < p || q < j then j else if j == p then q else j - 1;
      assert d[i] == c[i'] && d[j] == c[j'];
    }
  }

  lemma {:induction false} DescentsFlat<T>(less: (T, T) -> bool, c: seq<T>, lo: nat, m: nat, hi: nat)
    requires lo < m <= hi <= |c|
    requires forall i :: m <= i < hi ==> !less(c[i], c[i - 1])
    ensures Descents(less, c, lo, hi) == Descents(less, c, lo, m)
    decreases hi
  {
    if m < hi {
      DescentsFlat(less, c, lo, m, hi - 1);
    }
  }

  lemma DescentsNext<T>(less: (T, T) -> bool, c: seq<T>, lo: nat, m: nat)
    requires lo <= m < |c|
    ensures Descents(less, c, lo, m + 1) <= if m == lo then 0 else Descents(less, c, lo, m) + 1
  {
  }

  lemma {:induction false} DescentsPrefix<T>(less: (T, T) -> bool, c: seq<T>, d: seq<T>, lo: nat, hi: nat)
    requires hi <= |c| && hi <= |d| && forall i :: lo <= i < hi ==> c[i] == d[i]
    ensures Descents(less, c, lo, hi) == Descents(less, d, lo, hi)
    decreases hi
  {
    if hi > lo + 1 {
      DescentsPrefix(less, c, d, lo, hi - 1);
    }
  }

  /** A range with no descent is sorted. */
  lemma {:induction false} FlatSorted<T>(less: (T, T) -> bool, S: set<T>, c: seq<T>, lo: nat, hi: nat)
    requires hi <= |c| && StrictWeak(less, S) && forall i :: lo <= i < hi ==> c[i] in S
    requires forall i :: lo < i < hi ==> !less(c[i], c[i - 1])
    ensures SortedRange(less, c, lo, hi)
    decreases hi
  {
    if hi > lo + 1 {
      FlatSorted(less, S, c, lo, hi - 1);
      forall i | lo <= i < hi - 1 ensures !less(c[hi - 1], c[i]) {
        if i < hi - 2 {
          NotLessTrans(less, S, c[hi - 1], c[hi - 2], c[i]);
        }
      }
    }
  }

  lemma {:induction false} NoDescents<T>(less: (T, T) -> bool, c: seq<T>, lo: nat, hi: nat, i: nat)
    requires hi <= |c| && lo < i < hi && Descents(less, c, lo, hi) == 0
    ensures !less(c[i], c[i - 1])
    decreases hi
  {
    if i < hi - 1 {
      NoDescents(less, c, lo, hi - 1, i);
    }
  }

  /** Halfway through merging [lo, mid) and [mid, hi) of c, the sequence has become d. */
  ghost predicate MergeState<T>(less: (T, T) -> bool, pos: map<T, int>, c: seq<T>, d: seq<T>,
                                lo: int, p: int, q: int, hi: int)
  {
    && |d| == |c| && multiset(d) == multiset(c)
    && 0 < lo <= p <= q <= hi < |c|
    && (forall i :: 0 <= i < lo || hi <= i < |c| ==> d[i] == c[i])
    && Merging(less, d, lo, p, q, hi)
    && Undisturbed(less, pos, d, 1, |c| - 1)
    && (forall i :: lo <= i < hi ==> d[i] in c[lo..hi])
    && StrictWeak(less, Elements(c[lo..hi]))
  }

  lemma MergeStateStart<T>(less: (T, T) -> bool, pos: map<T, int>, c: seq<T>, lo: nat, mid: nat, hi: nat)
    requires 0 < lo <= mid <= hi < |c| && SortedRange(less, c, lo, mid) && SortedRange(less, c, mid, hi)
    requires Undisturbed(less, pos, c, 1, |c| - 1) && StrictWeak(less, Elements(c[lo..hi]))
    ensures MergeState(less, pos, c, c, lo, lo, mid, hi)
  {
  }

  lemma MergeStateAdvance<T>(less: (T, T) -> bool, pos: map<T, int>, c: seq<T>, d: seq<T>, lo: int, p: int, q: int, hi: int)
    requires MergeState(less, pos, c, d, lo, p, q, hi) && p < q < hi && !less(d[q], d[p])
    ensures MergeState(less, pos, c, d, lo, p + 1, q, hi)
  {
    MergeAdvance(less, Elements(c[lo..hi]), d, lo, p, q, hi);
  }

  lemma MergeStateMove<T>(less: (T, T) -> bool, pos: map<T, int>, c: seq<T>, d: seq<T>, lo: int, p: int, q: int, hi: int)
    requires MergeState(less, pos, c, d, lo, p, q, hi) && p < q < hi && less(d[q], d[p])
    ensures MergeState(less, pos, c, MoveTo(d, p, q), lo, p + 1, q + 1, hi)
  {
    var S := Elements(c[lo..hi]);
    LessThanRest(less, S, d, lo, p, q, hi);
    MergeMove(less, S, d, lo, p, q, hi);
    UndisturbedMove(less, pos, d, 1, |c| - 1, p, q);
    MoveToElements(d, p, q);
  }

  lemma MergeStateDone<T>(less: (T, T) -> bool, pos: map<T, int>, c: seq<T>, d: seq<T>, lo: int, p: int, q: int, hi: int)
    requires MergeState(less, pos, c, d, lo, p, q, hi) && (p == q || q == hi)
    ensures |d| == |c| && multiset(d) == multiset(c)
    ensures forall i :: 0 <= i < lo || hi <= i < |c| ==> d[i] == c[i]
    ensures SortedRange(less, d, lo, hi) && Undisturbed(less, pos, d, 1, |c| - 1)
  {
  }

  lemma MergeStateFacts<T>(less: (T, T) -> bool, pos: map<T, int>, c: seq<T>, d: seq<T>, lo: int, p: int, q: int, hi: int)
    requires MergeState(less, pos, c, d, lo, p, q, hi)
    ensures |d| == |c| && 0 < lo <= p <= q <= hi < |c| && d[hi] == c[hi]
    ensures forall i :: 0 <= i < |d| ==> d[i] in c
  {
    MultisetElements(c, d);
  }

  /** A pass over c0 has turned it into c and stands at index p, with cnt runs output so far.
      Sentinels sit at indices 0 and |c| - 1. */
  ghost predicate PassState<T>(less: (T, T) -> bool, pos: map<T, int>, c0: seq<T>, c: seq<T>, p: int, cnt: int) {
    && |c| == |c0| && multiset(c) == multiset(c0) && 1 <= p <= |c| - 1
    && c[0] == c0[0] && (forall i :: p <= i < |c| ==> c[i] == c0[i])
    && Undisturbed(less, pos, c, 1, |c| - 1)
    && (p < |c| - 1 ==> Descents(less, c0, 1, p + 1) == 2 * cnt)
    && (p == |c| - 1 > 1 ==> Descents(less, c0, 1, p) == 2 * cnt - 1)
    && (if p == 1 then cnt == 0 else Descents(less, c, 1, p) < cnt)
    && StrictWeak(less, Elements(c0[1..|c| - 1]))
  }

  lemma PassStateFacts<T>(less: (T, T) -> bool, pos: map<T, int>, c0: seq<T>, c: seq<T>, p: int, cnt: int)
    requires PassState(less, pos, c0, c, p, cnt)
    ensures 1 <= p <= |c| - 1 && |c| == |c0| && cnt >= 0 && c[|c| - 1] == c0[|c| - 1]
    ensures forall i :: 0 <= i < |c| ==> c[i] in c0
  {
    MultisetElements(c0, c);
  }

  lemma PassStateStart<T>(less: (T, T) -> bool, pos: map<T, int>, c0: seq<T>)
    requires |c0| >= 2 && Undisturbed(less, pos, c0, 1, |c0| - 1) && StrictWeak(less, Elements(c0[1..|c0| - 1]))
    ensures PassState(less, pos, c0, c0, 1, 0)
  {
  }

  /** The interior of c holds the same elements as that of c0. */
  lemma InteriorElements<T>(c0: seq<T>, c: seq<T>)
    requires |c| == |c0| >= 2 && multiset(c) == multiset(c0) && c[0] == c0[0] && c[|c| - 1] == c0[|c| - 1]
    ensures multiset(c[1..|c| - 1]) == multiset(c0[1..|c| - 1])
    ensures Elements(c[1..|c| - 1]) == Elements(c0[1..|c| - 1])
  {
    var n := |c| - 1;
    assert c == [c[0]] + c[1..n] + [c[n]];
    assert c0 == [c0[0]] + c0[1..n] + [c0[n]];
    assert multiset(c[1..n]) == multiset(c) - multiset{c[0]} - multiset{c[n]};
    assert multiset(c0[1..n]) == multiset(c0) - multiset{c0[0]} - multiset{c0[n]};
    MultisetElements(c[1..n], c0[1..n]);
  }

  /** The two runs a pass finds at p are each sorted, which is what a merge asks for. */
  lemma PassStateRuns<T>(less: (T, T) -> bool, pos: map<T, int>, c0: seq<T>, c: seq<T>, p: nat, q: nat, r: nat, cnt: nat)
    requires PassState(less, pos, c0, c, p, cnt) && p < q < r <= |c| - 1
    requires forall i :: p < i < q || q < i < r ==> !less(c[i], c[i - 1])
    ensures SortedRange(less, c, p, q) && SortedRange(less, c, q, r)
    ensures Undisturbed(less, pos, c, 1, |c| - 1) && StrictWeak(less, Elements(c[p..r]))
  {
    hide StrictWeak, Undisturbed, Descents, SortedRange;
    var n := |c| - 1;
    InteriorElements(c0, c);
    var S := Elements(c[1..n]);
    forall i | 1 <= i < n ensures c[i] in S {
      assert c[i] == c[1..n][i - 1];
    }
    FlatSorted(less, S, c, p, q);
    FlatSorted(less, S, c, q, r);
    forall x | x in c[p..r] ensures x in S {
    }
    StrictWeakSubset(less, S, Elements(c[p..r]));
  }

  lemma PassCounts<T>(less: (T, T) -> bool, c0: seq<T>, c: seq<T>, d: seq<T>,
                      p: nat, q: nat, r: nat, n: nat, cnt: nat)
    requires 1 <= p < q < r <= n < |c0| == |c| == |d|
    requires forall i :: p <= i < |c| ==> c[i] == c0[i]
    requires forall i :: 0 <= i < p || r <= i < |c| ==> d[i] == c[i]
    requires forall i :: p < i < q || q < i < r ==> !less(c[i], c[i - 1])
    requires less(c[q], c[q - 1]) && (r < n ==> less(c[r], c[r - 1]))
    requires SortedRange(less, d, p, r)
    requires Descents(less, c0, 1, p + 1) == 2 * cnt
    requires if p == 1 then cnt == 0 else Descents(less, c, 1, p) < cnt
    ensures r < n ==> Descents(less, c0, 1, r + 1) == 2 * cnt + 2
    ensures r == n ==> Descents(less, c0, 1, n) == 2 * cnt + 1
    ensures Descents(less, d, 1, r) <= cnt
  {
    DescentsFlat(less, c0, 1, p + 1, q);
    DescentsFlat(less, c0, 1, q + 1, r);
    DescentsFlat(less, d, 1, p + 1, r);
    DescentsPrefix(less, c, d, 1, p);
  }

  /** One iteration of a pass: the runs [p, q) and [q, r) of c have become the sorted
      range [p, r) of d, and the rest of the sequence has not moved. */
  lemma PassStateStep<T>(less: (T, T) -> bool, pos: map<T, int>, c0: seq<T>, c: seq<T>, d: seq<T>,
                         p: nat, q: nat, r: nat, cnt: nat)
    requires PassState(less, pos, c0, c, p, cnt) && p < q < r <= |c| - 1
    requires |d| == |c| && multiset(d) == multiset(c)
    requires forall i :: 0 <= i < p || r <= i < |c| ==> d[i] == c[i]
    requires forall i :: p < i < q || q < i < r ==> !less(c[i], c[i - 1])
    requires less(c[q], c[q - 1]) && (r < |c| - 1 ==> less(c[r], c[r - 1]))
    requires SortedRange(less, d, p, r) && Undisturbed(less, pos, d, 1, |d| - 1)
    ensures PassState(less, pos, c0, d, r, cnt + 1)
  {
    hide StrictWeak, Undisturbed, SortedRange, Descents;
    PassCounts(less, c0, c, d, p, q, r, |c| - 1, cnt);
  }

  /** A pass that has reached the tail of a nonempty list has output half as many runs as it
      was given, rounded up, and left no more runs than it output. */
  lemma PassStateDone<T>(less: (T, T) -> bool, pos: map<T, int>, c0: seq<T>, c: seq<T>, p: nat, cnt: nat)
    requires PassState(less, pos, c0, c, p, cnt) && |c| > 2 && p == |c| - 1
    ensures cnt == Descents(less, c0, 1, p) / 2 + 1 && Descents(less, c, 1, p) < cnt
    ensures multiset(c) == multiset(c0) && c[0] == c0[0] && Undisturbed(less, pos, c, 1, |c| - 1)
  {
  }

  lemma PassStateEmpty<T>(less: (T, T) -> bool, pos: map<T, int>, c0: seq<T>, c: seq<T>, p: nat, cnt: nat)
    requires PassState(less, pos, c0, c, p, cnt) && |c| == 2
    ensures cnt == 0 && c == c0 && Undisturbed(less, pos, c, 1, |c| - 1)
  {
  }

  /** The same for a pass whose last run had no partner to be merged with. */
  lemma PassStateOddRun<T>(less: (T, T) -> bool, pos: map<T, int>, c0: seq<T>, c: seq<T>, p: nat, cnt: nat)
    requires PassState(less, pos, c0, c, p, cnt) && p < |c| - 1
    requires forall i :: p < i < |c| - 1 ==> !less(c[i], c[i - 1])
    ensures cnt == Descents(less, c0, 1, |c| - 1) / 2 && Descents(less, c, 1, |c| - 1) <= cnt
    ensures multiset(c) == multiset(c0) && c[0] == c0[0] && Undisturbed(less, pos, c, 1, |c| - 1)
  {
    hide StrictWeak, Undisturbed, Descents;
    DescentsFlat(less, c0, 1, p + 1, |c| - 1);
    DescentsFlat(less, c, 1, p + 1, |c| - 1);
    DescentsNext(less, c, 1, p);
  }

  lemma UndisturbedIncreasing<T>(less: (T, T) -> bool, pos: map<T, int>, s: seq<T>)
    requires Undisturbed(less, pos, s, 0, |s|) && SortedRange(less, s, 0, |s|)
    ensures Increasing(less, pos, s)
  {
  }

  /** A list of one run whose pairs were only ever swapped for cause is the stable sort. */
  lemma OneRunSorted<T>(less: (T, T) -> bool, orig: seq<T>, s: seq<T>)
    requires Distinct(orig) && StrictWeak(less, Elements(orig)) && multiset(s) == multiset(orig)
    requires Undisturbed(less, Ranks(orig), s, 0, |s|) && Descents(less, s, 0, |s|) == 0
    ensures s == StableSort(less, orig)
  {
    hide StrictWeak, Undisturbed, SortedRange, Increasing, StableSort, Distinct, Descents;
    MultisetElements(s, orig);
    forall i | 0 < i < |s| ensures !less(s[i], s[i - 1]) {
      NoDescents(less, s, 0, |s|, i);
    }
    FlatSorted(less, Elements(orig), s, 0, |s|);
    UndisturbedIncreasing(less, Ranks(orig), s);
    StableSortUnique(less, orig, s);
  }

  lemma {:induction false} DescentsShift<T>(less: (T, T) -> bool, c: seq<T>, lo: nat, hi: nat, m: nat)
    requires lo <= m <= hi <= |c|
    ensures Descents(less, c[lo..hi], 0, m - lo) == Descents(less, c, lo, m)
    decreases m
  {
    if m > lo + 1 {
      DescentsShift(less, c, lo, hi, m - 1);
    }
  }

  lemma UndisturbedShift<T>(less: (T, T) -> bool, pos: map<T, int>, c: seq<T>, lo: nat, hi: nat)
    requires lo <= hi <= |c| && Undisturbed(less, pos, c, lo, hi)
    ensures Undisturbed(less, pos, c[lo..hi], 0, hi - lo)
  {
    var d := c[lo..hi];
    forall i, j | 0 <= i < j < hi - lo ensures less(d[i], d[j]) || pos[d[i]] < pos[d[j]] {
      assert d[i] == c[lo + i] && d[j] == c[lo + j];
    }
  }

  /** Before anything has moved, nothing is out of place. */
  lemma UndisturbedStart<T>(less: (T, T) -> bool, c: seq<T>)
    requires |c| >= 2 && Distinct(c)
    ensures Undisturbed(less, Ranks(c[1..|c| - 1]), c, 1, |c| - 1)
  {
    var n := |c| - 1;
    var s := c[1..n];
    forall i | 1 <= i < n ensures c[i] in s && Ranks(s)[c[i]] == i - 1 {
      assert s[i - 1] == c[i];
      RankAt(s, i - 1);
    }
  }

  /** A chain of one run, seen without its sentinels, is the stable sort of the original. */
  lemma SortDone<T>(less: (T, T) -> bool, c0: seq<T>, c: seq<T>)
    requires |c| == |c0| >= 2 && multiset(c) == multiset(c0) && c[0] == c0[0] && c[|c| - 1] == c0[|c| - 1]
    requires Distinct(c0) && StrictWeak(less, Elements(c0[1..|c| - 1]))
    requires Undisturbed(less, Ranks(c0[1..|c| - 1]), c, 1, |c| - 1) && Descents(less, c, 1, |c| - 1) == 0
    ensures c[1..|c| - 1] == StableSort(less, c0[1..|c| - 1])
  {
    hide StrictWeak, Undisturbed, Descents, StableSort;
    var n := |c| - 1;
    InteriorElements(c0, c);
    UndisturbedShift(less, Ranks(c0[1..n]), c, 1, n);
    DescentsShift(less, c, 1, n, n);
    assert Distinct(c0[1..n]);
    OneRunSorted(less, c0[1..n], c[1..n]);
  }

  /** What every further pass asks of the chain holds because only order has changed. */
  lemma SortStep<T>(less: (T, T) -> bool, c0: seq<T>, c: seq<T>)
    requires |c| == |c0| >= 2 && multiset(c) == multiset(c0) && c[0] == c0[0] && c[|c| - 1] == c0[|c| - 1]
    requires StrictWeak(less, Elements(c0[1..|c| - 1]))
    ensures StrictWeak(less, Elements(c[1..|c| - 1]))
    ensures forall i :: 0 <= i < |c| ==> c[i] in c0
  {
    InteriorElements(c0, c);
    MultisetElements(c0, c);
  }

  lemma NoDescentsLeft<T>(less: (T, T) -> bool, c: seq<T>, n: nat)
    requires n < |c| && (n > 1 ==> Descents(less, c, 1, n) < 1)
    ensures Descents(less, c, 1, n) == 0
  {
  }

  lemma FirstPass(cnt: nat, d0: nat)
    requires cnt == 0 || cnt == d0 / 2 + 1
    ensures Pow2(1) * (cnt - 1) <= d0
  {
  }

  /** Each pass halves the descents, so a pass that is not the first had Pow2(passes) of them to start from. */
  lemma PassesStep(passes: nat, was: nat, d: nat, cnt: nat, d0: nat)
    requires was > 1 && d < was && cnt == d / 2 + 1 && Pow2(passes) * (was - 1) <= d0
    ensures cnt < was && Pow2(passes) <= d0 && Pow2(passes + 1) * (cnt - 1) <= d0
  {
    var p := Pow2(passes);
    assert Pow2(passes + 1) == 2 * p;
    hide Pow2;
    MulMonotone(p, 1, was - 1);
    MulMonotone(p, 2 * (cnt - 1), was - 1);
    MulTwo(p, cnt - 1);
  }

  lemma MulMonotone(p: nat, a: int, b: int)
    requires a <= b
    ensures p * a <= p * b
  {
  }

  lemma MulTwo(p: nat, a: int)
    ensures (2 * p) * a == p * (2 * a) && p * 1 == p
  {
  }
}
