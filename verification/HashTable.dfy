/** The self-resizing hash table (lib/kernel/hash.c) on an array of buckets. It agrees with a set of elements no two of
    which are equal, whatever becomes of the memory that resizing asks for. */
module HashTable {
  import opened Options
  import opened StableOrder
  import opened Lists
  import opened HashBuckets

  class Table<E(!new, ==)> {
    const hash: E -> nat
    const less: (E, E) -> bool
    var elemCnt: nat
    var buckets: array<seq<E>>

    ghost predicate Valid()
      reads this, buckets
    {
      Compatible(hash, less) && TableOk(hash, less, buckets[..], elemCnt)
    }

    ghost function Elements(): set<E>
      reads this, buckets
    {
      Elems(buckets[..])
    }

    /** hash_init, when its memory has been obtained. */
    constructor (hash: E -> nat, less: (E, E) -> bool)
      requires Compatible(hash, less)
      ensures Valid() && Elements() == {} && this.hash == hash && this.less == less && fresh(buckets)
    {
      this.hash, this.less := hash, less;
      elemCnt := 0;
      buckets := new seq<E>[4](_ => []);
      new;
      EmptyBuckets(hash, less, buckets[..]);
    }

    method FindBucket(e: E) returns (i: nat)
      requires buckets.Length > 0
      ensures i == BucketIdx(hash, e, buckets.Length)
    {
      i := BucketIdx(hash, e, buckets.Length);
    }

    method FindElem(i: nat, e: E) returns (r: Option<E>)
      requires i < buckets.Length
      ensures r.Some? ==> r.value in buckets[i] && Equal(less, r.value, e)
      ensures r.None? ==> forall x :: x in buckets[i] ==> !Equal(less, x, e)
    {
      var k := 0;
      while k < |buckets[i]|
        invariant k <= |buckets[i]| && forall x :: x in buckets[i][..k] ==> !Equal(less, x, e)
      {
        var x := buckets[i][k];
        if !less(x, e) && !less(e, x) {
          return Some(x);
        }
        k := k + 1;
      }
      assert buckets[i][..k] == buckets[i];
      r := None;
    }

    method Find(e: E) returns (r: Option<E>)
      requires Valid()
      ensures r == Lookup(less, Elements(), e)
    {
      hide Compatible, Lookup, Unique, Placed, Equal, Elems, BucketIdx;
      BucketInside(hash, e, buckets.Length);
      var i := FindBucket(e);
      r := FindElem(i, e);
      FindIs(hash, less, buckets[..], elemCnt, e, r);
    }

    /** insert_elem, into the element's own bucket. */
    method InsertElem(i: nat, e: E)
      requires Valid() && i == BucketIdx(hash, e, buckets.Length) < buckets.Length
      requires Lookup(less, Elements(), e) == None
      modifies this`elemCnt, buckets
      ensures Valid() && Elements() == old(Elements()) + {e}
    {
      hide Compatible, Lookup, Placed, Elems, BucketIdx;
      InsertOk(hash, less, buckets[..], elemCnt, e);
      elemCnt := elemCnt + 1;
      buckets[i] := [e] + buckets[i];
      assert buckets[..] == old(buckets[..])[i := [e] + old(buckets[..])[i]];
    }

    /** remove_elem: the element is unlinked from the bucket it is in. */
    method RemoveElem(e: E)
      requires Valid() && e in Elements()
      modifies this`elemCnt, buckets
      ensures Valid() && Elements() == old(Elements()) - {e}
    {
      hide Compatible, Lookup, Placed, Elems, BucketIdx;
      RemoveOk(hash, less, buckets[..], elemCnt, e);
      BucketInside(hash, e, buckets.Length);
      var i := BucketIdx(hash, e, buckets.Length);
      elemCnt := elemCnt - 1;
      buckets[i] := Without(buckets[i], e);
      assert buckets[..] == old(buckets[..])[i := Without(old(buckets[..])[i], e)];
    }

    /** rehash's bucket count. */
    method NewBucketCnt() returns (cnt: nat)
      ensures cnt == BestCount(elemCnt)
    {
      hide TurnOffLeast1Bit, HighestPow2;
      cnt := elemCnt / 2;
      if cnt < 4 {
        cnt := 4;
      }
      TurnOff(cnt);
      while TurnOffLeast1Bit(cnt) != 0
        invariant cnt > 0 && HighestPow2(cnt) == BestCount(elemCnt)
        decreases cnt
      {
        TurnOff(cnt);
        cnt := TurnOffLeast1Bit(cnt);
      }
      TurnOff(cnt);
    }

    /** Moves one old bucket's elements, in order, each to the front of its new bucket. */
    method MoveBucket(list: seq<E>)
      requires PowerOfTwo(buckets.Length) && Placed(hash, buckets[..])
      requires Distinct(list) && forall e :: e in list ==> e !in Elements()
      modifies buckets
      ensures Placed(hash, buckets[..]) && Elements() == old(Elements()) + set e | e in list
    {
      hide Placed, BucketIdx, Elems;
      var k := 0;
      while k < |list|
        invariant k <= |list| && Placed(hash, buckets[..])
        invariant Elements() == old(Elements()) + set e | e in list[..k]
      {
        var e := list[k];
        assert e !in list[..k] && list[..k + 1] == list[..k] + [e];
        BucketInside(hash, e, buckets.Length);
        PushPlaced(hash, buckets[..], e);
        var i := FindBucket(e);
        ghost var b := buckets[..];
        buckets[i] := [e] + buckets[i];
        assert buckets[..] == b[i := [e] + b[i]];
        k := k + 1;
      }
      assert list[..k] == list;
    }

    /** rehash; obtained says whether malloc gave it the new array. */
    method Rehash(obtained: bool)
      requires Valid()
      modifies this`buckets
      ensures Valid() && Elements() == old(Elements()) && (buckets == old(buckets) || fresh(buckets))
      ensures obtained ==> buckets.Length == BestCount(elemCnt)
    {
      hide Compatible, Lookup, Placed, Elems, BucketIdx, BestCount, Unique, PowerOfTwo;
      var cnt := NewBucketCnt();
      if cnt == buckets.Length || !obtained {
        return;
      }
      BestCountLoad(elemCnt);
      var from := buckets;
      buckets := new seq<E>[cnt](_ => []);
      EmptyPlaced(hash, buckets[..]);
      assert from[..0] == [];
      var i := 0;
      while i < from.Length
        invariant i <= from.Length && fresh(buckets) && buckets.Length == cnt && from[..] == old(buckets[..])
        invariant Placed(hash, buckets[..]) && Elements() == Elems(from[..i])
        modifies buckets
      {
        NextBucket(hash, from[..], i);
        MoveBucket(from[i]);
        i := i + 1;
      }
      assert from[..i] == from[..];
    }

    method Insert(e: E, obtained: bool) returns (r: Option<E>)
      requires Valid()
      modifies this, buckets
      ensures Valid() && (buckets == old(buckets) || fresh(buckets))
      ensures r == Lookup(less, old(Elements()), e)
      ensures Elements() == if r.None? then old(Elements()) + {e} else old(Elements())
    {
      hide Compatible, Lookup, TableOk, Elems, BucketIdx;
      r := Find(e);
      if r.None? {
        BucketCount(hash, less, buckets[..], elemCnt, e);
        var i := FindBucket(e);
        InsertElem(i, e);
      }
      Rehash(obtained);
    }

    method Replace(e: E, obtained: bool) returns (r: Option<E>)
      requires Valid()
      modifies this, buckets
      ensures Valid() && (buckets == old(buckets) || fresh(buckets))
      ensures r == Lookup(less, old(Elements()), e)
      ensures Elements() == (if r.Some? then old(Elements()) - {r.value} else old(Elements())) + {e}
    {
      hide Compatible, Lookup, TableOk, Elems, BucketIdx;
      r := Find(e);
      ReplaceOk(hash, less, buckets[..], elemCnt, e);
      if r.Some? {
        RemoveElem(r.value);
      }
      BucketCount(hash, less, buckets[..], elemCnt, e);
      var i := FindBucket(e);
      InsertElem(i, e);
      Rehash(obtained);
    }

    method Delete(e: E, obtained: bool) returns (r: Option<E>)
      requires Valid()
      modifies this, buckets
      ensures Valid() && (buckets == old(buckets) || fresh(buckets))
      ensures r == Lookup(less, old(Elements()), e)
      ensures Elements() == if r.Some? then old(Elements()) - {r.value} else old(Elements())
    {
      hide Compatible, Lookup, TableOk, Elems, BucketIdx;
      r := Find(e);
      if r.Some? {
        RemoveElem(r.value);
        Rehash(obtained);
      }
    }

    /** Any sequence of operations, whatever each finds of memory, answers and ends as the set does. */
    method Perform(ops: seq<(Op<E>, bool)>) returns (answers: seq<Option<E>>)
      requires Valid()
      modifies this, buckets
      ensures Valid() && (buckets == old(buckets) || fresh(buckets))
      ensures (Elements(), answers) == SetAfter(less, old(Elements()), ops)
    {
      hide Compatible, Lookup, TableOk, Elems, Table.Valid;
      answers := [];
      var k := 0;
      while k < |ops|
        invariant k <= |ops| && Valid() && (buckets == old(buckets) || fresh(buckets))
        invariant (Elements(), answers) == SetAfter(less, old(Elements()), ops[..k])
      {
        var r: Option<E>;
        match ops[k].0 {
          case Insert(e) => r := Insert(e, ops[k].1);
          case Replace(e) => r := Replace(e, ops[k].1);
          case Find(e) => r := Find(e);
          case Delete(e) => r := Delete(e, ops[k].1);
        }
        answers := answers + [r];
        assert ops[..k + 1][..k] == ops[..k];
        k := k + 1;
      }
      assert ops[..k] == ops;
    }
  }

  // ----- iteration

  /** What an iterator standing at element pos of a bucket, or at the bucket's head when pos is -1, has yet to visit. */
  ghost function Remaining<E>(b: seq<seq<E>>, bucket: nat, pos: int): seq<E> {
    if bucket < |b| && -1 <= pos < |b[bucket]| then b[bucket][pos + 1..] + Flatten(b[bucket + 1..]) else []
  }

  class Iterator<E(!new, ==)> {
    const table: Table<E>
    var bucket: nat
    var pos: int

    ghost predicate Valid()
      reads this, table, table.buckets
    {
      bucket < table.buckets.Length && -1 <= pos < |table.buckets[bucket]|
    }

    ghost function ToVisit(): seq<E>
      reads this, table, table.buckets
    {
      Remaining(table.buckets[..], bucket, pos)
    }

    /** hash_first. */
    constructor (table: Table<E>)
      requires table.buckets.Length > 0
      ensures Valid() && this.table == table && ToVisit() == Flatten(table.buckets[..])
    {
      this.table := table;
      bucket, pos := 0, -1;
    }

    /** hash_next; None is the null pointer at the end. */
    method Next() returns (r: Option<E>)
      requires Valid()
      modifies this
      ensures old(ToVisit()) == [] ==> r == None
      ensures old(ToVisit()) != [] ==> Valid() && r == Some(old(ToVisit())[0]) && ToVisit() == old(ToVisit())[1..]
    {
      ghost var b := table.buckets[..];
      ghost var rest := ToVisit();
      pos := pos + 1;
      while pos == |table.buckets[bucket]|
        invariant bucket < |b| && 0 <= pos <= |b[bucket]| && rest == b[bucket][pos..] + Flatten(b[bucket + 1..])
        decreases |b| - bucket
      {
        bucket := bucket + 1;
        if bucket >= table.buckets.Length {
          return None;
        }
        assert b[bucket..][1..] == b[bucket + 1..];
        pos := 0;
      }
      r := Some(table.buckets[bucket][pos]);
    }
  }

  /** The iteration idiom visits each element of the table once, and no other. */
  method Visit<E(!new, ==)>(table: Table<E>) returns (visited: seq<E>)
    requires table.Valid()
    ensures Distinct(visited) && |visited| == table.elemCnt && forall e :: e in visited <==> e in table.Elements()
  {
    hide Flatten, Remaining, Elems, Distinct, Placed;
    FlattenIs(table.hash, table.less, table.buckets[..], table.elemCnt);
    ghost var all := Flatten(table.buckets[..]);
    var i := new Iterator(table);
    visited := [];
    var cur := i.Next();
    while cur.Some?
      invariant cur.Some? ==> i.Valid() && visited + [cur.value] + i.ToVisit() == all
      invariant cur.None? ==> visited == all
      invariant i.table == table
      modifies i
      decreases if cur.Some? then |i.ToVisit()| + 1 else 0
    {
      visited := visited + [cur.value];
      cur := i.Next();
    }
  }

  // ----- the set the table agrees with

  datatype Op<E> = Insert(elem: E) | Replace(elem: E) | Find(elem: E) | Delete(elem: E)

  ghost function SetStep<E>(less: (E, E) -> bool, S: set<E>, op: Op<E>): (set<E>, Option<E>) {
    var r := Lookup(less, S, op.elem);
    match op
    case Insert(e) => (if r.None? then S + {e} else S, r)
    case Replace(e) => ((if r.Some? then S - {r.value} else S) + {e}, r)
    case Find(e) => (S, r)
    case Delete(e) => (if r.Some? then S - {r.value} else S, r)
  }

  ghost function SetAfter<E>(less: (E, E) -> bool, S: set<E>, ops: seq<(Op<E>, bool)>): (set<E>, seq<Option<E>>) {
    if ops == [] then (S, [])
    else
      var (T, answers) := SetAfter(less, S, ops[..|ops| - 1]);
      var (U, r) := SetStep(less, T, ops[|ops| - 1].0);
      (U, answers + [r])
  }

  // ----- facts about the buckets

  lemma EmptyPlaced<E(!new)>(hash: E -> nat, b: seq<seq<E>>)
    requires |b| > 0 && forall i :: 0 <= i < |b| ==> b[i] == []
    ensures Placed(hash, b) && Elems(b) == Elems<E>([]) == {}
  {
    assert Elems(b) == {} && Elems<E>([]) == {};
  }

  lemma EmptyBuckets<E(!new)>(hash: E -> nat, less: (E, E) -> bool, b: seq<seq<E>>)
    requires |b| == 4 && forall i :: 0 <= i < |b| ==> b[i] == []
    ensures TableOk(hash, less, b, 0) && Elems(b) == {}
  {
    EmptyPlaced(hash, b);
    BestCountLoad(0);
    assert BestCount(0) == HighestPow2(4) == 2 * HighestPow2(2) == 4;
  }

  lemma BucketCount<E>(hash: E -> nat, less: (E, E) -> bool, b: seq<seq<E>>, n: nat, e: E)
    requires TableOk(hash, less, b, n)
    ensures |b| > 0 && BucketIdx(hash, e, |b|) < |b|
  {
    BucketInside(hash, e, |b|);
  }

  lemma FindIs<E(!new)>(hash: E -> nat, less: (E, E) -> bool, b: seq<seq<E>>, n: nat, e: E, r: Option<E>)
    requires Compatible(hash, less) && TableOk(hash, less, b, n)
    requires BucketIdx(hash, e, |b|) < |b|
    requires r.Some? ==> r.value in b[BucketIdx(hash, e, |b|)] && Equal(less, r.value, e)
    requires r.None? ==> forall x :: x in b[BucketIdx(hash, e, |b|)] ==> !Equal(less, x, e)
    ensures r == Lookup(less, Elems(b), e)
  {
    hide Compatible, BucketIdx, Equal;
    if r.Some? {
      LookupIs(hash, less, Elems(b), e, r.value);
    } else {
      forall x | x in Elems(b) ensures !Equal(less, x, e) {
        if Equal(less, x, e) {
          FindInBucket(hash, less, b, e, x);
        }
      }
    }
  }

  lemma InsertOk<E(!new)>(hash: E -> nat, less: (E, E) -> bool, b: seq<seq<E>>, n: nat, e: E)
    requires Compatible(hash, less) && TableOk(hash, less, b, n)
    requires BucketIdx(hash, e, |b|) < |b| && Lookup(less, Elems(b), e) == None
    ensures var i := BucketIdx(hash, e, |b|);
            TableOk(hash, less, b[i := [e] + b[i]], n + 1) && Elems(b[i := [e] + b[i]]) == Elems(b) + {e}
  {
    hide Elems, Placed, BucketIdx, PowerOfTwo;
    assert Equal(less, e, e);
    PushPlaced(hash, b, e);
  }

  lemma RemoveOk<E(!new)>(hash: E -> nat, less: (E, E) -> bool, b: seq<seq<E>>, n: nat, e: E)
    requires TableOk(hash, less, b, n) && e in Elems(b)
    ensures n > 0 && BucketIdx(hash, e, |b|) < |b|
    ensures var i := BucketIdx(hash, e, |b|);
            TableOk(hash, less, b[i := Without(b[i], e)], n - 1) && Elems(b[i := Without(b[i], e)]) == Elems(b) - {e}
  {
    hide Elems, Placed, BucketIdx, PowerOfTwo, Without;
    BucketInside(hash, e, |b|);
    RemovePlaced(hash, b, e);
  }

  /** With the equal element gone, none is left. */
  lemma ReplaceOk<E(!new)>(hash: E -> nat, less: (E, E) -> bool, b: seq<seq<E>>, n: nat, e: E)
    requires Compatible(hash, less) && TableOk(hash, less, b, n)
    ensures var r := Lookup(less, Elems(b), e);
            r.Some? ==> r.value in Elems(b) && Lookup(less, Elems(b) - {r.value}, e) == None
  {
    hide Elems, Placed, PowerOfTwo, Lookup;
    var r := Lookup(less, Elems(b), e);
    if r.Some? {
      var s := Lookup(less, Elems(b) - {r.value}, e);
      assert s.Some? ==> Equal(less, s.value, e) && Equal(less, e, r.value);
    }
  }

  lemma NextBucket<E(!new)>(hash: E -> nat, b: seq<seq<E>>, i: nat)
    requires Placed(hash, b) && i < |b|
    ensures Distinct(b[i]) && forall e :: e in b[i] ==> e !in Elems(b[..i])
    ensures Elems(b[..i + 1]) == Elems(b[..i]) + set e | e in b[i]
  {
    hide BucketIdx;
    var c, d := b[..i], b[..i + 1];
    forall e | e in Elems(c) ensures e in Elems(d) && e !in b[i] {
      var j :| 0 <= j < |c| && e in c[j];
      assert e in d[j] && BucketIdx(hash, e, |b|) == j;
    }
    forall e | e in b[i] ensures e in Elems(d) {
      assert e in d[i];
    }
    forall e | e in Elems(d) ensures e in Elems(c) || e in b[i] {
      var j :| 0 <= j < |d| && e in d[j];
      assert j < i ==> e in c[j];
    }
  }
}
