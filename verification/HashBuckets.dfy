/** The buckets of a hash table (lib/kernel/hash.c) as a value: where elements go, the bucket count, and the order in
    which an iteration visits them. */
module HashBuckets {
  import opened Options
  import opened Power2
  import opened Bits
  import opened StableOrder
  import opened Lists

  // ----- the caller's comparison and hash functions

  /** find_elem's test for equal elements. */
  predicate Equal<E>(less: (E, E) -> bool, x: E, y: E) {
    !less(x, y) && !less(y, x)
  }

  /** Being equal is an equivalence that the hash function respects. */
  ghost predicate Compatible<E(!new)>(hash: E -> nat, less: (E, E) -> bool) {
    && (forall x :: Equal(less, x, x))
    && (forall x, y, z :: Equal(less, x, y) && Equal(less, y, z) ==> Equal(less, x, z))
    && (forall x, y :: Equal(less, x, y) ==> hash(x) == hash(y))
  }

  // ----- the abstract table: a set of elements, no two of them equal

  ghost predicate Unique<E>(less: (E, E) -> bool, S: set<E>) {
    forall x, y :: x in S && y in S && Equal(less, x, y) ==> x == y
  }

  ghost function Lookup<E>(less: (E, E) -> bool, S: set<E>, e: E): (r: Option<E>)
    ensures r.Some? ==> r.value in S && Equal(less, r.value, e)
    ensures r.None? ==> forall x :: x in S ==> !Equal(less, x, e)
  {
    if exists x :: x in S && Equal(less, x, e) then
      var x :| x in S && Equal(less, x, e);
      Some(x)
    else
      None
  }

  lemma LookupIs<E(!new)>(hash: E -> nat, less: (E, E) -> bool, S: set<E>, e: E, x: E)
    requires Compatible(hash, less) && Unique(less, S) && x in S && Equal(less, x, e)
    ensures Lookup(less, S, e) == Some(x)
  {
    var y := Lookup(less, S, e).value;
    assert Equal(less, y, e) && Equal(less, e, x);
  }

  // ----- the buckets

  ghost function Elems<E>(b: seq<seq<E>>): set<E> {
    set i, e | 0 <= i < |b| && e in b[i] :: e
  }

  function BucketIdx<E>(hash: E -> nat, e: E, cnt: nat): nat
    requires cnt > 0
  {
    And(hash(e), cnt - 1)
  }

  ghost predicate PowerOfTwo(n: nat) {
    exists k: nat :: k >= 2 && n == Pow2(k)
  }

  /** The mask is a remainder when the count is a power of two. */
  lemma BucketInside<E>(hash: E -> nat, e: E, cnt: nat)
    requires PowerOfTwo(cnt)
    ensures cnt > 0 && BucketIdx(hash, e, cnt) == hash(e) % cnt < cnt
  {
    var k: nat :| k >= 2 && cnt == Pow2(k);
    AndLowMask(hash(e), k);
  }

  /** Every element is in its own bucket, and in it once. */
  ghost predicate Placed<E>(hash: E -> nat, b: seq<seq<E>>) {
    && |b| > 0
    && (forall i :: 0 <= i < |b| ==> Distinct(b[i]))
    && (forall i :: 0 <= i < |b| ==> forall e :: e in b[i] ==> BucketIdx(hash, e, |b|) == i)
  }

  ghost predicate TableOk<E>(hash: E -> nat, less: (E, E) -> bool, b: seq<seq<E>>, elemCnt: nat) {
    PowerOfTwo(|b|) && Placed(hash, b) && Unique(less, Elems(b)) && elemCnt == |Elems(b)|
  }

  lemma ElemWhere<E>(hash: E -> nat, b: seq<seq<E>>, e: E)
    requires Placed(hash, b)
    ensures e in Elems(b) <==> var i := BucketIdx(hash, e, |b|); i < |b| && e in b[i]
  {
  }

  /** An element equal to e is in the bucket of e or nowhere. */
  lemma FindInBucket<E(!new)>(hash: E -> nat, less: (E, E) -> bool, b: seq<seq<E>>, e: E, x: E)
    requires Compatible(hash, less) && Placed(hash, b) && x in Elems(b) && Equal(less, x, e)
    ensures var i := BucketIdx(hash, e, |b|); i < |b| && x in b[i]
  {
    ElemWhere(hash, b, x);
  }

  /** list_push_front of a new element on its own bucket. */
  lemma PushPlaced<E>(hash: E -> nat, b: seq<seq<E>>, e: E)
    requires Placed(hash, b) && BucketIdx(hash, e, |b|) < |b| && e !in Elems(b)
    ensures var i := BucketIdx(hash, e, |b|);
            Placed(hash, b[i := [e] + b[i]]) && Elems(b[i := [e] + b[i]]) == Elems(b) + {e}
  {
    hide BucketIdx;
    var i := BucketIdx(hash, e, |b|);
    var c := b[i := [e] + b[i]];
    assert e in c[i] && e !in b[i];
    DistinctJoin([e], b[i]);
    forall x | x in Elems(b) ensures x in Elems(c) {
      var j :| 0 <= j < |b| && x in b[j];
      assert x in c[j];
    }
    forall x | x in Elems(c) ensures x in Elems(b) + {e} {
      var j :| 0 <= j < |c| && x in c[j];
      assert x == e || x in b[j];
    }
  }

  /** list_remove of an element of the table. */
  lemma RemovePlaced<E(!new)>(hash: E -> nat, b: seq<seq<E>>, e: E)
    requires Placed(hash, b) && BucketIdx(hash, e, |b|) < |b|
    ensures var i := BucketIdx(hash, e, |b|);
            Placed(hash, b[i := Without(b[i], e)]) && Elems(b[i := Without(b[i], e)]) == Elems(b) - {e}
  {
    hide BucketIdx, Without;
    var i := BucketIdx(hash, e, |b|);
    var c := b[i := Without(b[i], e)];
    forall x | x in Elems(b) - {e} ensures x in Elems(c) {
      var j :| 0 <= j < |b| && x in b[j];
      assert x in c[j];
    }
    forall x | x in Elems(c) ensures x in Elems(b) - {e} {
      var j :| 0 <= j < |c| && x in c[j];
      assert x in b[j];
    }
  }

  // ----- the bucket count

  /** The largest power of two that is at most n. */
  function HighestPow2(n: nat): (p: nat)
    requires n > 0
    ensures p <= n < 2 * p
  {
    if n == 1 then 1 else 2 * HighestPow2(n / 2)
  }

  lemma {:induction false} HighestIsPow2(n: nat)
    requires n >= 4
    ensures PowerOfTwo(HighestPow2(n))
  {
    if n < 8 {
      assert HighestPow2(n / 2 / 2) == 1;
      assert Pow2(2) == 2 * Pow2(1) == 4;
      assert HighestPow2(n) == Pow2(2);
    } else {
      HighestIsPow2(n / 2);
      var k: nat :| k >= 2 && HighestPow2(n / 2) == Pow2(k);
      assert HighestPow2(n) == Pow2(k + 1);
    }
  }

  function TurnOffLeast1Bit(x: nat): nat
    requires x > 0
  {
    And(x, x - 1)
  }

  /** Turning off the lowest bit keeps the highest, until that is the only one. */
  lemma {:induction false} TurnOff(x: nat)
    requires x > 0
    ensures var y := TurnOffLeast1Bit(x);
            y < x && (y == 0 <==> x == HighestPow2(x)) && (y > 0 ==> HighestPow2(y) == HighestPow2(x))
  {
    if x == 1 {
      AndZero(1);
    } else if x % 2 == 1 {
      assert (x - 1) / 2 == x / 2 && (x - 1) % 2 == 0;
      AndSelf(x / 2);
      assert And(x, x - 1) == x - 1;
      HighestOdd(x);
    } else {
      TurnOff(x / 2);
      assert (x - 1) / 2 == x / 2 - 1 && (x - 1) % 2 == 1;
      assert And(x, x - 1) == 2 * And(x / 2, x / 2 - 1);
    }
  }

  lemma HighestOdd(x: nat)
    requires x > 1 && x % 2 == 1
    ensures HighestPow2(x - 1) == HighestPow2(x) != x
  {
    assert (x - 1) / 2 == x / 2;
    HighestEven(x);
  }

  lemma HighestEven(x: nat)
    requires x > 1
    ensures HighestPow2(x) % 2 == 0
  {
  }

  lemma {:induction false} AndSelf(x: nat)
    ensures And(x, x) == x
  {
    if x > 0 {
      AndSelf(x / 2);
    }
  }

  /** rehash's choice: a power of two, at least four, near two elements a bucket. */
  ghost function BestCount(elemCnt: nat): nat {
    HighestPow2(if elemCnt / 2 < 4 then 4 else elemCnt / 2)
  }

  lemma BestCountLoad(elemCnt: nat)
    ensures PowerOfTwo(BestCount(elemCnt)) && BestCount(elemCnt) >= 4
    ensures elemCnt < 4 * BestCount(elemCnt) && (BestCount(elemCnt) > 4 ==> 2 * BestCount(elemCnt) <= elemCnt)
  {
    var m := if elemCnt / 2 < 4 then 4 else elemCnt / 2;
    HighestIsPow2(m);
    var k: nat :| k >= 2 && HighestPow2(m) == Pow2(k);
    Pow2Monotone(2, k);
    assert Pow2(2) == 2 * Pow2(1) == 4;
    if elemCnt < 8 { assert HighestPow2(4) == 2 * HighestPow2(2); }
  }

  // ----- iteration

  ghost function Flatten<E>(b: seq<seq<E>>): seq<E> {
    if b == [] then [] else b[0] + Flatten(b[1..])
  }

  lemma {:induction false} FlattenElems<E>(b: seq<seq<E>>, e: E)
    ensures e in Flatten(b) <==> e in Elems(b)
  {
    if b != [] {
      FlattenElems(b[1..], e);
      if e in Elems(b) {
        var i :| 0 <= i < |b| && e in b[i];
        assert i == 0 || e in b[1..][i - 1];
      }
      if e in Elems(b[1..]) {
        var i :| 0 <= i < |b[1..]| && e in b[1..][i];
        assert e in b[i + 1];
      }
    }
  }

  /** Buckets that share no element flatten to a list without repetition. */
  lemma {:induction false} FlattenDistinct<E>(b: seq<seq<E>>)
    requires forall i :: 0 <= i < |b| ==> Distinct(b[i])
    requires forall i, j, e :: 0 <= i < j < |b| && e in b[i] ==> e !in b[j]
    ensures Distinct(Flatten(b))
  {
    if b != [] {
      FlattenDistinct(b[1..]);
      forall e | e in b[0] ensures e !in Flatten(b[1..]) {
        FlattenElems(b[1..], e);
      }
      DistinctJoin(b[0], Flatten(b[1..]));
    }
  }

  lemma DistinctJoin<E>(s: seq<E>, t: seq<E>)
    requires Distinct(s) && Distinct(t) && forall e :: e in s ==> e !in t
    ensures Distinct(s + t)
  {
    var u := s + t;
    forall i, j | 0 <= i < j < |u| ensures u[i] != u[j] {
      if i < |s| <= j {
        assert u[i] in s && u[j] in t;
      }
    }
  }

  lemma {:induction false} DistinctSize<E>(s: seq<E>, S: set<E>)
    requires Distinct(s) && forall e :: e in s <==> e in S
    ensures |s| == |S|
  {
    if s == [] {
      assert S == {};
    } else {
      assert s[0] in s && s[0] !in s[1..];
      forall e ensures e in s[1..] <==> e in S - {s[0]} {
        assert e in s <==> e == s[0] || e in s[1..];
      }
      DistinctSize(s[1..], S - {s[0]});
    }
  }

  /** Visiting the buckets in order visits each element of the table once. */
  lemma FlattenIs<E>(hash: E -> nat, less: (E, E) -> bool, b: seq<seq<E>>, elemCnt: nat)
    requires TableOk(hash, less, b, elemCnt)
    ensures Distinct(Flatten(b)) && |Flatten(b)| == elemCnt && forall e :: e in Flatten(b) <==> e in Elems(b)
  {
    hide Flatten, Elems, BucketIdx;
    forall i, j, e | 0 <= i < j < |b| && e in b[i] ensures e !in b[j] {
      assert BucketIdx(hash, e, |b|) == i;
    }
    FlattenDistinct(b);
    forall e ensures e in Flatten(b) <==> e in Elems(b) {
      FlattenElems(b, e);
    }
    DistinctSize(Flatten(b), Elems(b));
  }
}
