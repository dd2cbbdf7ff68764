/** Intrusive doubly linked lists with head and tail sentinels (lib/kernel/list.c):
    pointer splicing in place, and the natural merge sort built from it. */
module KernelList {
  import opened StableOrder
  import opened MergeOrder
  import opened Power2

  class Elem {
    var prev: Elem?
    var next: Elem?

    constructor ()
      ensures prev == null && next == null
    {
      prev, next := null, null;
    }
  }

  /** s is a whole list, sentinels included, in link order. */
  ghost predicate Chain(s: seq<Elem>)
    reads s
    ensures Chain(s) ==> |s| >= 2
  {
    && |s| >= 2
    && Distinct(s)
    && s[0].prev == null && s[|s| - 1].next == null
    && (forall i {:trigger s[i].next} :: 0 <= i < |s| - 1 ==> s[i].next == s[i + 1])
    && (forall i {:trigger s[i].prev} :: 0 < i < |s| ==> s[i].prev == s[i - 1])
  }

  lemma ChainAt(s: seq<Elem>, i: nat)
    requires Chain(s) && i < |s|
    ensures i > 0 ==> s[i].prev == s[i - 1]
    ensures i < |s| - 1 ==> s[i].next == s[i + 1]
    ensures i == 0 ==> IsHead(s[i])
    ensures 0 < i < |s| - 1 ==> IsInterior(s[i])
    ensures i == |s| - 1 ==> IsTail(s[i])
  {
  }

  predicate IsHead(e: Elem?)
    reads e
  {
    e != null && e.prev == null && e.next != null
  }

  predicate IsInterior(e: Elem?)
    reads e
  {
    e != null && e.prev != null && e.next != null
  }

  predicate IsTail(e: Elem?)
    reads e
  {
    e != null && e.prev != null && e.next == null
  }

  /** Inserts `elem` just before `before`, the element at index k of chain s. */
  method Insert(before: Elem, elem: Elem, ghost s: seq<Elem>, ghost k: nat)
    requires Chain(s) && 0 < k < |s| && s[k] == before && elem !in s
    modifies s, elem
    ensures Chain(s[..k] + [elem] + s[k..])
  {
    assert IsInterior(before) || IsTail(before);
    elem.prev := before.prev;
    elem.next := before;
    before.prev.next := elem;
    before.prev := elem;
  }

  /** Unlinks the element at index k of chain s and returns its successor. */
  method Remove(elem: Elem, ghost s: seq<Elem>, ghost k: nat) returns (after: Elem)
    requires Chain(s) && 0 < k < |s| - 1 && s[k] == elem
    modifies s
    ensures Chain(s[..k] + s[k + 1..]) && after == s[k + 1]
    ensures elem.prev == old(elem.prev) && elem.next == old(elem.next)
  {
    assert IsInterior(elem);
    elem.prev.next := elem.next;
    elem.next.prev := elem.prev;
    after := elem.next;
  }

  /** The elements of b are linked to one another in order; its two ends may point anywhere. */
  ghost predicate Run(b: seq<Elem>)
    reads b
  {
    && Distinct(b)
    && (forall i {:trigger b[i].next} :: 0 <= i < |b| - 1 ==> b[i].next == b[i + 1])
    && (forall i {:trigger b[i].prev} :: 0 < i < |b| ==> b[i].prev == b[i - 1])
  }

  ghost predicate Apart(a: seq<Elem>, b: seq<Elem>) {
    forall i, j :: 0 <= i < |a| && 0 <= j < |b| ==> a[i] != b[j]
  }

  lemma DistinctInsert(s: seq<Elem>, k: nat, b: seq<Elem>)
    requires k <= |s| && Distinct(s) && Distinct(b) && Apart(s, b)
    ensures Distinct(s[..k] + b + s[k..])
  {
  }

  lemma ApartRest(s: seq<Elem>, i: nat, j: nat)
    requires i <= j <= |s| && Chain(s)
    ensures Apart(s[..i] + s[j..], s[i..j])
  {
  }

  lemma ChainIndex(s: seq<Elem>, i: nat, j: nat)
    requires Chain(s) && i < |s| && j < |s| && s[i] == s[j]
    ensures i == j
  {
  }

  /** First half of list_splice: takes the block at [i, j) out of chain s. */
  method Detach(first: Elem, last: Elem, ghost s: seq<Elem>, ghost i: nat, ghost j: nat)
    requires Chain(s) && 0 < i < j < |s| && s[i] == first && s[j - 1] == last
    modifies s
    ensures Chain(s[..i] + s[j..]) && Run(s[i..j])
  {
    assert IsInterior(first) && IsInterior(last);
    first.prev.next := last.next;
    last.next.prev := first.prev;
  }

  /** Second half of list_splice: links the detached block b in front of `before`. */
  method Attach(before: Elem, first: Elem, last: Elem, ghost s: seq<Elem>, ghost k: nat, ghost b: seq<Elem>)
    requires Chain(s) && 0 < k < |s| && s[k] == before
    requires Run(b) && b != [] && b[0] == first && b[|b| - 1] == last && Apart(s, b)
    modifies s, b
    ensures Chain(s[..k] + b + s[k..])
  {
    DistinctInsert(s, k, b);
    first.prev := before.prev;
    last.next := before;
    before.prev.next := first;
    before.prev := last;
  }

  /** Takes first .. last (exclusive), the block at [i, j) of chain src, out of its list,
      then puts it in front of `before`, which sits at index k of dst.  Here dst is either
      what the removal leaves of src, or a list that shares nothing with src. */
  method Splice(before: Elem, first: Elem, last: Elem,
                ghost dst: seq<Elem>, ghost k: nat, ghost src: seq<Elem>, ghost i: nat, ghost j: nat)
    requires Chain(src) && 0 < i <= j < |src| && src[i] == first && src[j] == last
    requires dst == src[..i] + src[j..] || (Chain(dst) && Apart(dst, src))
    requires 0 < k < |dst| && dst[k] == before
    modifies src, dst
    ensures Chain(dst[..k] + src[i..j] + dst[k..])
    ensures dst != src[..i] + src[j..] ==> Chain(src[..i] + src[j..])
  {
    hide Chain, Run, Distinct;
    if first == last {
      ChainIndex(src, i, j);
      assert src[..i] + src[j..] == src;
      assert dst[..k] + src[i..j] + dst[k..] == dst;
      ChainAt(dst, k);
      return;
    }
    ChainAt(src, j);
    var last' := last.prev;
    ApartRest(src, i, j);
    Detach(first, last', src, i, j);
    Attach(before, first, last', dst, k, src[i..j]);
  }

  /** Finds the end of the nondecreasing run that starts at a == c[p] and ends no later than b == c[e]. */
  method FindEndOfRun(a: Elem, b: Elem, less: (Elem, Elem) -> bool, ghost c: seq<Elem>, ghost p: nat, ghost e: nat)
    returns (end: Elem, ghost q: nat)
    requires Chain(c) && 0 < p < e < |c| && c[p] == a && c[e] == b
    ensures p < q <= e && end == c[q]
    ensures forall i :: p < i < q ==> !less(c[i], c[i - 1])
    ensures q < e ==> less(c[q], c[q - 1])
  {
    end, q := a.next, p + 1;
    while end != b && !less(end, end.prev)
      invariant p < q <= e && end == c[q]
      invariant forall i :: p < i < q ==> !less(c[i], c[i - 1])
      decreases e - q
    {
      end, q := end.next, q + 1;
    }
  }

  /** Moves b == d[q] in front of a == d[p]; returns what followed b. */
  method MoveBefore(a: Elem, b: Elem, ghost d: seq<Elem>, ghost p: nat, ghost q: nat) returns (after: Elem)
    requires Chain(d) && 0 < p < q < |d| - 1 && d[p] == a && d[q] == b
    modifies d
    ensures Chain(MoveTo(d, p, q)) && after == d[q + 1]
  {
    hide Chain, Distinct;
    ChainAt(d, q);
    ChainAt(d, q + 1);
    after := b.next;
    Splice(a, after.prev, after, d[..q] + d[q + 1..], p, d, q, q + 1);
    MoveToSplice(d, p, q);
  }

  /** Merges the sorted ranges a0 .. a1b0 and a1b0 .. b1, at [lo, mid) and [mid, hi) of chain c,
      by moving elements of the second range in front of elements of the first. */
  method InplaceMerge(a0: Elem, a1b0: Elem, b1: Elem, less: (Elem, Elem) -> bool,
                      ghost c: seq<Elem>, ghost lo: nat, ghost mid: nat, ghost hi: nat, ghost pos: map<Elem, int>)
    returns (ghost d: seq<Elem>)
    requires Chain(c) && 0 < lo < mid < hi < |c| && c[lo] == a0 && c[mid] == a1b0 && c[hi] == b1
    requires StrictWeak(less, Elements(c[lo..hi]))
    requires SortedRange(less, c, lo, mid) && SortedRange(less, c, mid, hi)
    requires Undisturbed(less, pos, c, 1, |c| - 1)
    modifies c
    ensures Chain(d) && multiset(d) == multiset(c) && |d| == |c|
    ensures forall i :: 0 <= i < lo || hi <= i < |c| ==> d[i] == c[i]
    ensures SortedRange(less, d, lo, hi) && Undisturbed(less, pos, d, 1, |c| - 1)
  {
    hide *;
    ghost var p, q := lo, mid;
    d := c;
    MergeStateStart(less, pos, c, lo, mid, hi);
    var a, b := a0, a1b0;
    while a != b && b != b1
      invariant Chain(d) && MergeState(less, pos, c, d, lo, p, q, hi)
      invariant 0 < lo <= p <= q <= hi < |c| == |d|
      invariant a == d[p] && b == d[q]
      decreases hi - p
    {
      MergeStateFacts(less, pos, c, d, lo, p, q, hi);
      if !less(b, a) {
        MergeStateAdvance(less, pos, c, d, lo, p, q, hi);
        ChainAt(d, p);
        a, p := a.next, p + 1;
      } else {
        MergeStateMove(less, pos, c, d, lo, p, q, hi);
        b := MoveBefore(a, b, d, p, q);
        d, p, q := MoveTo(d, p, q), p + 1, q + 1;
      }
    }
    MergeStateFacts(less, pos, c, d, lo, p, q, hi);
    if a == b {
      ChainIndex(d, p, q);
    } else {
      ChainIndex(d, q, hi);
    }
    MergeStateDone(less, pos, c, d, lo, p, q, hi);
  }

  /** One pass of list_sort: merges the runs of chain c0 in pairs, front to back, and
      returns the number of runs it output. */
  method MergePass(head: Elem, tail: Elem, less: (Elem, Elem) -> bool, ghost c0: seq<Elem>, ghost pos: map<Elem, int>)
    returns (cnt: nat, ghost c: seq<Elem>)
    requires Chain(c0) && c0[0] == head && c0[|c0| - 1] == tail
    requires StrictWeak(less, Elements(c0[1..|c0| - 1])) && Undisturbed(less, pos, c0, 1, |c0| - 1)
    modifies c0
    ensures Chain(c) && |c| == |c0| && multiset(c) == multiset(c0)
    ensures c[0] == head && c[|c| - 1] == tail && Undisturbed(less, pos, c, 1, |c| - 1)
    ensures |c| == 2 ==> cnt == 0
    ensures |c| > 2 ==> cnt == Descents(less, c0, 1, |c| - 1) / 2 + 1 && Descents(less, c, 1, |c| - 1) < cnt
  {
    hide *;
    ChainAt(c0, 0);
    PassStateStart(less, pos, c0);
    ghost var n := |c0| - 1;
    ghost var p := 1;
    var a0 := head.next;
    c, cnt := c0, 0;
    while a0 != tail
      invariant Chain(c) && PassState(less, pos, c0, c, p, cnt)
      invariant 1 <= p <= n && |c| == n + 1 && a0 == c[p] && c[n] == tail
      decreases n - p
    {
      PassStateFacts(less, pos, c0, c, p, cnt);
      var a1b0, q := FindEndOfRun(a0, tail, less, c, p, n);
      if a1b0 == tail {
        ChainIndex(c, q, n);
        PassStateOddRun(less, pos, c0, c, p, cnt);
        cnt := cnt + 1;
        return;
      }
      var b1, r := FindEndOfRun(a1b0, tail, less, c, q, n);
      PassStateRuns(less, pos, c0, c, p, q, r, cnt);
      ghost var d := InplaceMerge(a0, a1b0, b1, less, c, p, q, r, pos);
      PassStateStep(less, pos, c0, c, d, p, q, r, cnt);
      cnt := cnt + 1;
      a0, c, p := b1, d, r;
    }
    PassStateFacts(less, pos, c0, c, p, cnt);
    ChainIndex(c, p, n);
    if n > 1 {
      PassStateDone(less, pos, c0, c, p, cnt);
    } else {
      PassStateEmpty(less, pos, c0, c, p, cnt);
    }
  }

  method SortChain(head: Elem, tail: Elem, less: (Elem, Elem) -> bool, ghost c0: seq<Elem>)
    returns (ghost passes: nat, ghost c: seq<Elem>)
    requires Chain(c0) && c0[0] == head && c0[|c0| - 1] == tail
    requires StrictWeak(less, Elements(c0[1..|c0| - 1]))
    modifies c0
    ensures Chain(c) && |c| == |c0| && c[0] == head && c[|c| - 1] == tail
    ensures c[1..|c| - 1] == StableSort(less, c0[1..|c| - 1])
    ensures passes == 1 || (passes > 1 && Pow2(passes - 1) <= Descents(less, c0, 1, |c| - 1))
  {
    hide *;
    ghost var n := |c0| - 1;
    ghost var pos := Ranks(c0[1..n]);
    ChainDistinct(c0);
    UndisturbedStart(less, c0);
    ghost var d0 := Descents(less, c0, 1, n);
    var cnt;
    cnt, c := MergePass(head, tail, less, c0, pos);
    passes := 1;
    FirstPass(cnt, d0);
    while cnt > 1
      invariant Chain(c) && |c| == n + 1 && multiset(c) == multiset(c0)
      invariant c[0] == head && c[n] == tail && Undisturbed(less, pos, c, 1, n)
      invariant n == 1 ==> cnt == 0
      invariant n > 1 ==> Descents(less, c, 1, n) < cnt
      invariant passes >= 1 && (cnt > 0 ==> Pow2(passes) * (cnt - 1) <= d0)
      invariant passes == 1 || Pow2(passes - 1) <= d0
      decreases cnt
    {
      SortStep(less, c0, c);
      ghost var d := Descents(less, c, 1, n);
      ghost var was := cnt;
      cnt, c := MergePass(head, tail, less, c, pos);
      PassesStep(passes, was, d, cnt, d0);
      passes := passes + 1;
    }
    NoDescentsLeft(less, c, n);
    SortDone(less, c0, c);
  }

  /** The first element of the list that elem is less than, or the tail. */
  method FindGreater(head: Elem, tail: Elem, elem: Elem, less: (Elem, Elem) -> bool, ghost c: seq<Elem>)
    returns (e: Elem, ghost k: nat)
    requires Chain(c) && c[0] == head && c[|c| - 1] == tail
    ensures 0 < k < |c| && e == c[k]
    ensures forall i :: 0 < i < k ==> !less(elem, c[i])
    ensures k < |c| - 1 ==> less(elem, e)
  {
    e, k := head.next, 1;
    while e != tail && !less(elem, e)
      invariant 0 < k < |c| && e == c[k]
      invariant forall i :: 0 < i < k ==> !less(elem, c[i])
      decreases |c| - k
    {
      e, k := e.next, k + 1;
    }
  }

  /** A list: two sentinels, and the elements linked between them. */
  class List {
    const head: Elem
    const tail: Elem
    ghost var nodes: seq<Elem>

    ghost function All(): seq<Elem>
      reads this
    {
      [head] + nodes + [tail]
    }

    ghost predicate Valid()
      reads this, All()
    {
      Chain(All())
    }

    constructor ()
      ensures Valid() && nodes == [] && fresh(head) && fresh(tail)
    {
      head := new Elem();
      tail := new Elem();
      nodes := [];
      new;
      head.next := tail;
      tail.prev := head;
    }

    method Empty() returns (b: bool)
      requires Valid()
      ensures b <==> nodes == []
    {
      b := head.next == tail;
    }

    method PushFront(elem: Elem)
      requires Valid() && elem !in All()
      modifies this, All(), elem
      ensures Valid() && nodes == [elem] + old(nodes)
    {
      ChainAt(All(), 0);
      Insert(head.next, elem, All(), 1);
      assert All()[..1] + [elem] + All()[1..] == [head] + ([elem] + nodes) + [tail];
      nodes := [elem] + nodes;
    }

    method PushBack(elem: Elem)
      requires Valid() && elem !in All()
      modifies this, All(), elem
      ensures Valid() && nodes == old(nodes) + [elem]
    {
      ghost var n := |nodes| + 1;
      Insert(tail, elem, All(), n);
      assert All()[..n] + [elem] + All()[n..] == [head] + (nodes + [elem]) + [tail];
      nodes := nodes + [elem];
    }

    method PopFront() returns (front: Elem)
      requires Valid() && nodes != []
      modifies this, All()
      ensures Valid() && front == old(nodes)[0] && nodes == old(nodes)[1..]
    {
      ChainAt(All(), 0);
      front := head.next;
      var _ := Remove(front, All(), 1);
      assert All()[..1] + All()[2..] == [head] + nodes[1..] + [tail];
      nodes := nodes[1..];
    }

    /** Inserts elem in front of the first element it is less than. */
    method InsertOrdered(elem: Elem, less: (Elem, Elem) -> bool)
      requires Valid() && elem !in All()
      modifies this, All(), elem
      ensures Valid() && nodes == StableOrder.InsertOrdered(less, old(nodes), elem)
    {
      ghost var c := [head] + nodes + [tail];
      assert Chain(c) && c == All();
      hide *;
      var e, k := FindGreater(head, tail, elem, less, c);
      assert c[1..|c| - 1] == nodes;
      InsertOrderedAt(less, nodes, elem, k - 1);
      Insert(e, elem, c, k);
      InsertedChain(c, head, nodes, tail, elem, k);
      nodes := nodes[..k - 1] + [elem] + nodes[k - 1..];
      ValidChain(this);
    }

    /** Natural merge sort, in place: the list becomes its own stable sort, and the number of
        passes is logarithmic in the number of descents it started with. */
    method Sort(less: (Elem, Elem) -> bool) returns (ghost passes: nat)
      requires Valid() && StrictWeak(less, Elements(nodes))
      modifies this, All()
      ensures Valid() && nodes == StableSort(less, old(nodes))
      ensures passes == 1 || (passes > 1 && Pow2(passes - 1) <= Descents(less, old(nodes), 0, |old(nodes)|))
    {
      ghost var c := [head] + nodes + [tail];
      assert Chain(c) && c == All();
      hide *;
      assert c[1..|c| - 1] == nodes;
      DescentsShift(less, c, 1, |c| - 1, |c| - 1);
      passes, c := SortChain(head, tail, less, c);
      nodes := c[1..|c| - 1];
      assert c == [head] + nodes + [tail];
      ValidChain(this);
    }
  }

  lemma InsertedChain(c: seq<Elem>, head: Elem, nodes: seq<Elem>, tail: Elem, elem: Elem, k: nat)
    requires c == [head] + nodes + [tail] && 1 <= k <= |nodes| + 1
    ensures c[..k] + [elem] + c[k..] == [head] + (nodes[..k - 1] + [elem] + nodes[k - 1..]) + [tail]
  {
  }

  lemma ValidChain(l: List)
    requires Chain([l.head] + l.nodes + [l.tail])
    ensures l.Valid()
  {
  }

  lemma ChainDistinct(s: seq<Elem>)
    requires Chain(s)
    ensures Distinct(s)
  {
  }
}
